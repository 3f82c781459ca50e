# Icon-container classifier of the Figma file parser, in Dafny

This project models the offline icon classifier of `scripts/export_icons.py`. The classifier
works on the flat list of decoded node-change records of a Figma document. It builds two maps
from that list. The node map goes from a `"sessionID:localID"` identifier to its record. The
children map goes from a parent identifier to that parent's child records. From these maps it
finds the icon containers: small FRAMEs with a VECTOR or BOOLEAN_OPERATION at most five
levels below them. For each container it records where it came from, a primary colour and
the number of VECTORs below it. The model also covers two pure steps of the export stage:
splitting node ids into request batches of 50, and choosing a file name that is not taken
when an icon is renamed.

Modules, one per component:

- `Nodes` (`nodes.dfy`): the record, its identifier with defaults, and the node types.
- `NodeGraph` (`graph.dfy`): the map-building loop as the method `BuildGraph`, proved against
  `GraphOf`. `GraphOf` is described by last-write-wins, placement and order lemmas.
- `VectorSearch` (`search.dfy`): the depth-bounded search `HasVectorDescendant`. It is proved
  equal to "some VECTOR/BOOLEAN_OPERATION is reachable in at most `maxDepth` child hops".
- `Subtree` (`subtree.dfy`): `DepthAtMost`, which says a subtree is finite, and `Descendants`,
  the pre-order list of the records strictly below a node.
- `VectorCount` (`count.dfy`): the counting loop `CountVectors`. It is proved to return the
  number of VECTOR records in `Descendants`.
- `PrimaryColor` (`color.dfy`): the colour walk `PrimaryColorOf`. It is proved equal to the
  fill colour of the first filled BOOLEAN_OPERATION/VECTOR in `Visible`. `Visible` is the
  pre-order of the subtree with each transparent background record left out, and no descent from it.
- `Scenarios` (`scenarios.dfy`): four small documents that show the colour rule on concrete
  records.
- `IconContainers` (`icons.dfy`): the candidate loop `FindIconContainers`.
- `Export` (`export.dfy`): `Batches` and `FreeName`.

Modelling decisions:

- **Identifiers.** An identifier is the pair `Guid(sessionID, localID)`. A missing part is 0,
  and a missing `guid` or `parentIndex` object reads as both parts missing. The source uses
  the string `f"{s}:{l}"`. Writing two integers around a colon is injective, so the pair and
  the string identify the same records.
- **Unbounded walks.** The colour walk and the count walk recurse with no depth bound. On a
  cycle under a container, the source fails with Python's recursion error. The model instead
  requires, in `WalksTerminate`, that the subtree of every container is finite. This is
  stated per container, not for the whole graph. The reason: a document node `0:0` without a
  parent is filed under its own key `0:0`. That is a cycle, but the source never walks it.
- **Ghost depth bound.** `PrimaryColorOf` and `CountVectors` take a ghost depth bound `h`.
  This bound is used only for termination and in their contracts. The candidate loop fixes it
  with `DepthOf`.

Facts of the code that the model keeps:

- The children lists are never sorted. They keep input order, as `ChildrenOfAppend` and
  `GraphOfAppend` state.
- The colour walk never looks at the root node itself, only at what lies below it.
- When the colour walk skips a transparent ROUNDED_RECTANGLE, it does not descend from that
  record (`TransparentBackgroundHidesChildren`). It does not go on into its children.
- Skipping works on records, not on identifiers. Identifiers may repeat, and the node map keeps
  the last record with each one. A later sibling that carries the skipped record's identifier
  still leads the walk into that identifier's children list
  (`SharedIdentifierReachesBelowBackground`).

The docstring of `_extract_primary_color` (scripts/export_icons.py:66) states a priority of
"topmost BOOLEAN_OPERATION fill, then first VECTOR fill, then stroke colour". The code does
not keep it, and the model follows the code:

- Strokes are never read, so there is no stroke fallback (`StrokeOnlyGivesNothing`).
- The children are tried in input order whatever their type. A filled VECTOR listed before a
  filled BOOLEAN_OPERATION under the same parent gives the VECTOR's colour
  (`FilledFirstChildAnswers`, `VectorBeforeBooleanWins`).
- A BOOLEAN_OPERATION's fill wins only when the operation comes first in visiting order. That
  is, it is listed before the VECTOR (`FilledFirstChildAnswers`) or holds it
  (`BooleanFillBeatsInnerVector`).

## Model

| member | source | states |
|---|---|---|
| NodeGraph.BuildGraph | scripts/export_icons.py:126-140 | The single pass builds exactly the node map and children map of `GraphOf(nodes)`. |
| NodeGraph.NodeMapLastWins | scripts/export_icons.py:130-133 | An identifier is in the node map iff some record carries it, and it maps to the last record in input order with that identifier. |
| NodeGraph.PlacedOnce | scripts/export_icons.py:135-140 | Every record is in the children list of its parent identifier, with all its repetitions, and in no other list. A record without a parent is under `0:0`. |
| NodeGraph.ChildrenOfCounts | scripts/export_icons.py:138-140 | A children list holds only records with that parent identifier, and every occurrence of each such record. |
| NodeGraph.ChildrenOfAppend | scripts/export_icons.py:138-140 | Children lists are appended in input order: the lists for `a + b` are those for `a` followed by those for `b`. |
| NodeGraph.GraphOfAppend | scripts/export_icons.py:130-140 | The same input-order law, stated on the built graph's `children_map.get`. |
| Nodes.Id | scripts/export_icons.py:131-132 | The identifier of a record, as also rebuilt at lines 46-47, 94-95, 109-110 and 153-154; `KeyDefaults` and `NodeMapLastWins` state its meaning. |
| Nodes.ParentId | scripts/export_icons.py:135-137 | The parent identifier under which a record is filed; `KeyDefaults` and `PlacedOnce` state its meaning. |
| Nodes.IsVectorLike | scripts/export_icons.py:44 | VECTOR or BOOLEAN_OPERATION; `HasVectorDescendantIff` states what the search does with it. |
| NodeGraph.Children | scripts/export_icons.py:42 | The list filed under an identifier, empty when none is, as also read at lines 69 and 106; `ChildrenOfGraph` states that on a built graph it is the records with that parent identifier, in input order. |
| Nodes.Key | scripts/export_icons.py:131-132 | Builds the identifier from the two parts; `KeyDefaults` states that a missing part reads as 0. |
| Nodes.KeyDefaults | scripts/export_icons.py:135-137 | A record without a parent reference is filed under `0:0`, and present parts are kept as they are. |
| Nodes.Width | scripts/export_icons.py:149 | The width, 999 when missing; `MissingSideIsNotSmall` states its effect. |
| Nodes.Height | scripts/export_icons.py:150 | The height, 999 when missing; `MissingSideIsNotSmall` states its effect. |
| Nodes.Opacity | scripts/export_icons.py:71 | The opacity, 1 when missing; `OpacityDefault` states its effect. |
| Nodes.IsTransparentBackground | scripts/export_icons.py:74 | A ROUNDED_RECTANGLE with opacity below 0.01. `VisibleWithinDescendants` and `PrimaryColorSource` state that the walk never answers with one. `Visible` does not descend from the skipped record. A record elsewhere with the same identifier still leads into that children list (`SharedIdentifierReachesBelowBackground`). |
| Nodes.OpacityDefault | scripts/export_icons.py:71-74 | A record without an opacity counts as opaque and is never skipped; a present opacity is used as it is. |
| VectorSearch.HasVectorDescendant | scripts/export_icons.py:38-41 | With `max_depth <= 0` the search is false. The bound falls on every call, so it terminates on any children map, cyclic ones included. |
| VectorSearch.AnyVectorAmong | scripts/export_icons.py:42-49 | The loop over the children; its meaning is given by `AnyVectorAmongIff`. |
| VectorSearch.AnyVectorAmongIff | scripts/export_icons.py:42-50 | The loop over the children is true iff some child is a VECTOR/BOOLEAN_OPERATION or its own search with one less depth is true. |
| VectorSearch.HasVectorDescendantIff | scripts/export_icons.py:38-50 | The search is true iff some VECTOR/BOOLEAN_OPERATION is reachable from the node in at most `max_depth` child hops (both directions). |
| VectorSearch.FoundIsReachable | scripts/export_icons.py:38-50 | A true answer means a VECTOR/BOOLEAN_OPERATION is reachable within `max_depth` hops. |
| VectorSearch.ReachableIsFound | scripts/export_icons.py:38-50 | A VECTOR/BOOLEAN_OPERATION reachable within `max_depth` hops makes the search true. |
| VectorSearch.HasVectorDescendantMonotone | scripts/export_icons.py:40-49 | True at depth d implies true at depth d + 1. |
| VectorSearch.SelfParentFindsNothing | scripts/export_icons.py:38-50 | In the one-record document whose record is its own parent and not a VECTOR/BOOLEAN_OPERATION, the search from that record is false at every depth: the self-loop does not hang the search. |
| Subtree.RootNotBelow | scripts/export_icons.py:103-112 | In a finite subtree no record below the root carries the root's identifier, so the walks never count or colour the root. |
| Subtree.BelowIsShallower | scripts/export_icons.py:103-112 | Every record below a node has a strictly smaller depth bound than the node, which is why the unbounded walks end on finite subtrees. |
| Subtree.DescendantsOfAppend | scripts/export_icons.py:106-111 | The pre-order listing of a children list splits over concatenation. |
| VectorCount.VectorsIn | scripts/export_icons.py:107-108 | The number of VECTOR records is at most the length of the list, and is 0 iff none is a VECTOR. |
| VectorCount.VectorsInAppend | scripts/export_icons.py:105-111 | The VECTOR count of a concatenation is the sum of the counts. |
| VectorCount.CountStep | scripts/export_icons.py:106-111 | One turn of the loop adds the child itself, if a VECTOR, and every VECTOR of the child's subtree to the count so far. |
| VectorCount.CountVectors | scripts/export_icons.py:103-112 | The loop-and-recursion count equals the number of VECTOR records strictly below the node, in pre-order. |
| PrimaryColor.FirstFillColor | scripts/export_icons.py:79-83 | None iff no paint has a colour; otherwise the colour of the first paint that has one, every earlier paint having none. |
| PrimaryColor.PrimaryColorOf | scripts/export_icons.py:63-100 | The walk itself; its meaning is given by `PrimaryColorIsFirstVisible` and `PrimaryColorSource`. |
| PrimaryColor.ScanChildren | scripts/export_icons.py:69-98 | The loop over the children; its meaning is given by `ScanChildrenIsFirstVisible`. |
| PrimaryColor.FirstShapeColorSpec | scripts/export_icons.py:69-98 | The first-filled-shape rule: None iff no record is a filled BOOLEAN_OPERATION/VECTOR. Otherwise it is the first fill colour of the first such record. |
| PrimaryColor.FirstShapeColorAppend | scripts/export_icons.py:69-98 | In a concatenation, a hit in the first part beats anything in the second. |
| PrimaryColor.ScanChildrenIsFirstVisible | scripts/export_icons.py:69-98 | The loop over the children returns the first filled shape of their visible pre-order. |
| PrimaryColor.PrimaryColorIsFirstVisible | scripts/export_icons.py:63-100 | The returned colour is the fill colour of the first filled BOOLEAN_OPERATION/VECTOR in pre-order, where each transparent background record is left out and not descended from. So an earlier sibling's subtree beats later siblings, and a BOOLEAN_OPERATION's own fill beats the vectors inside it. |
| PrimaryColor.VisibleWithinDescendants | scripts/export_icons.py:73-75 | Everything the walk can reach is in the subtree and is not a transparent ROUNDED_RECTANGLE. |
| PrimaryColor.PrimaryColorSource | scripts/export_icons.py:63-100 | None iff no reachable non-skipped shape has a fill colour. A result is the first fill colour of a filled shape strictly below the root, never of the root or of a transparent background. |
| PrimaryColor.FilledFirstChildAnswers | scripts/export_icons.py:77-91 | In any graph, when the first child is a BOOLEAN_OPERATION or VECTOR with a fill colour, the answer is its first fill colour, whatever its later siblings and its own subtree are. |
| Scenarios.BooleanAnswersFirst | scripts/export_icons.py:77-83 | In any graph where the frame's only child is a filled BOOLEAN_OPERATION with one leaf below it, the answer is the operation's first fill colour. |
| Scenarios.UnfilledVectorGivesNothing | scripts/export_icons.py:85-98 | In any graph where the frame's only child is a leaf VECTOR without a fill colour, the answer is None, whatever the VECTOR's strokes are. |
| Scenarios.BackgroundHidesBelow | scripts/export_icons.py:73-75 | In any graph where the frame's only child is a transparent background with one leaf below it, the answer is None, whatever that leaf is. |
| Scenarios.VectorBeforeBooleanWins | scripts/export_icons.py:66-91 | A frame whose children are a VECTOR filled #1f8ffb and then a BOOLEAN_OPERATION filled #1677ff yields #1f8ffb. This is not the priority the docstring at line 66 states. |
| Scenarios.SharedIdentifierReachesBelowBackground | scripts/export_icons.py:69-98 | In any graph where a frame's children are a transparent background and then a FRAME with the same identifier, a filled VECTOR filed under that identifier is the answer, reached through the FRAME. |
| Scenarios.BooleanFillBeatsInnerVector | scripts/export_icons.py:77-83 | A BOOLEAN_OPERATION filled #1677ff holding a VECTOR filled #1f8ffb yields #1677ff. |
| Scenarios.StrokeOnlyGivesNothing | scripts/export_icons.py:85-91 | A VECTOR with only a stroke yields no colour. |
| Scenarios.TransparentBackgroundHidesChildren | scripts/export_icons.py:73-75 | A filled VECTOR inside a ROUNDED_RECTANGLE of opacity 0.0001 is not reached. |
| IconContainers.IsSmallFrame | scripts/export_icons.py:157 | A FRAME with both sides at most 32; `FindIconContainers` and `MissingSideIsNotSmall` state what it selects. |
| IconContainers.MissingSideIsNotSmall | scripts/export_icons.py:148-150 | A record whose size lacks a side is never a small frame, because the missing side reads as 999. |
| IconContainers.IsIconContainer | scripts/export_icons.py:157-158 | A small frame whose vector search with depth 5 is true; `FindIconContainers` lists exactly the first record of each such identifier. |
| IconContainers.ListedPick | scripts/export_icons.py:158-169 | Appending the entry of a first-seen container keeps the listing invariant and adds its identifier to the seen set. |
| IconContainers.ListedDistinct | scripts/export_icons.py:158-169 | A listing in rising input positions, with each entry the first of its identifier, has no duplicate identifiers. |
| IconContainers.FindIconContainers | scripts/export_icons.py:143-171 | Lists, in input order and without duplicate identifiers, the first record of every identifier that is a FRAME with both sides at most 32 (999 when missing) and a vector within 5 levels. Each entry carries that record's name and size, the colour walk's result and the VECTOR count below it. |
| Export.Batches | scripts/export_icons.py:181-186 | The batches concatenate to the input. Each holds 1 to 50 ids, all but the last exactly 50, and there are ceil(n / 50) of them. |
| Export.Decimal | scripts/export_icons.py:254 | The decimal text of a number is non-empty, with at least two digits exactly for numbers from 10; `DecimalValue` states that it is the number's canonical numeral. |
| Export.DecimalValue | scripts/export_icons.py:254 | The text holds decimal digits only, denotes the number, and has no leading zero unless the number is 0, as `str` writes it. |
| Export.DecimalInjective | scripts/export_icons.py:254 | Distinct counters are written differently. |
| Export.Candidate | scripts/export_icons.py:248-256 | The k-th name tried: `name.fmt` first, then `name_k.fmt`; `CandidateInjective`, `TwelfthCandidate` and `FreeName` state its meaning. |
| Export.TwelfthCandidate | scripts/export_icons.py:254 | The twelfth try for `icon` and `svg` is `icon_12.svg`. |
| Export.CandidateInjective | scripts/export_icons.py:248-256 | `name.fmt`, `name_1.fmt`, `name_2.fmt`, ... are pairwise distinct. |
| Export.TriedStep | scripts/export_icons.py:252-256 | Each try adds a name not tried before, so the loop ends on any finite directory. |
| Export.FreeName | scripts/export_icons.py:251-256 | The chosen name is free, and every name tried before it is taken: it is the first free one in the order `name.fmt`, `name_1.fmt`, ... |

## Left out

- Reading and parsing the JSON file: the model takes the list of records as its input.
- The binary container, codec and schema decoding that produce that JSON: `extract_archive.cjs`
  and `decode_kiwi.cjs` are not part of this model.
- The REST export, image download, error printing and the one-second pause between batches:
  network I/O through a foreign client. Only the batch split is modelled.
- The filesystem part of renaming, and the `\w` regular-expression clean-up of names, which
  depends on the library's Unicode tables. Only the choice of a free name is modelled, over a
  given set of existing names.
- The command line, the access token from the environment and the timestamped manifest.
- `_color_to_hex`: float rounding and hex formatting. A colour is an opaque RGB value that is
  present or absent, and the primary colour is that value, not its hex text.
- The `"WxH"` size text: the entry carries the width and height as numbers. The constant
  `type: "FRAME"` field of each entry is not carried.
- Opacities and sizes are `real`, not IEEE floating point. Node types other than the four
  the classifier tests are collapsed into `Other`. Values of the wrong JSON type (a string
  opacity, say) are not modelled.
- The unused `node_map` argument of `_has_vector_descendant` and `_extract_primary_color`.
- IconContainers.FindIconContainers: requires `WalksTerminate`. The source's behaviour on a
  cycle under a container, a recursion error, is not modelled.
- Python's recursion limit on deep but finite subtrees is not modelled.
