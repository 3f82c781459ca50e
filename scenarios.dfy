/** Small documents that show the primary-colour rule on concrete records. */
module Scenarios {
  import opened Nodes
  import opened NodeGraph
  import opened Subtree
  import opened PrimaryColor

  function G(local: int): RawGuid { RawGuid(Some(0), Some(local)) }

  function Node(id: int, parent: int, t: NodeType, opacity: real, fills: seq<Paint>, strokes: seq<Paint>): NodeChange
  {
    NodeChange(G(id), G(parent), t, "", Size(Some(24.0), Some(24.0)), Some(opacity), fills, strokes)
  }

  function Under(n: NodeChange, p: Guid): seq<NodeChange>
  {
    if ParentId(n) == p then [n] else []
  }

  lemma ChildrenOfOne(a: NodeChange, p: Guid)
    ensures ChildrenOf([a], p) == Under(a, p)
  {
    assert [a][..0] == [];
  }

  lemma ChildrenOfTwo(a: NodeChange, b: NodeChange, p: Guid)
    ensures Children(GraphOf([a, b]), p) == Under(a, p) + Under(b, p)
  {
    ChildrenOfOne(a, p);
    ChildrenOfOne(b, p);
    ChildrenOfAppend([a], [b], p);
    assert [a] + [b] == [a, b];
    ChildrenOfGraph([a, b], p);
  }

  lemma ChildrenOfThree(a: NodeChange, b: NodeChange, c: NodeChange, p: Guid)
    ensures Children(GraphOf([a, b, c]), p) == Under(a, p) + Under(b, p) + Under(c, p)
  {
    ChildrenOfOne(a, p);
    ChildrenOfOne(b, p);
    ChildrenOfOne(c, p);
    ChildrenOfAppend([a], [b], p);
    ChildrenOfAppend([a, b], [c], p);
    assert [a] + [b] == [a, b];
    assert [a, b] + [c] == [a, b, c];
    ChildrenOfGraph([a, b, c], p);
  }

  const Blue := Color(0.0862745, 0.4666667, 1.0)       // #1677ff
  const LightBlue := Color(0.1215686, 0.5607843, 0.9843137)  // #1f8ffb
  const Ink := Color(0.0274510, 0.0313725, 0.1568627)  // #070828

  /** In any graph: a frame whose only child is a filled BOOLEAN_OPERATION takes that
      operation's colour, whatever lies below the operation. */
  lemma BooleanAnswersFirst(g: Graph, frame: Guid, op: NodeChange, inner: NodeChange)
    requires Children(g, frame) == [op] && Children(g, Id(op)) == [inner] && Children(g, Id(inner)) == []
    requires op.nodeType == BooleanOperation && FirstFillColor(op.fillPaints).Some?
    ensures DepthAtMost(g, frame, 3) && PrimaryColorOf(g, frame, 3) == FirstFillColor(op.fillPaints)
  {
    assert DepthAtMost(g, Id(inner), 1);
    assert DepthAtMost(g, Id(op), 2);
    assert ScanChildren(g, [op], 2) == FirstFillColor(op.fillPaints);
  }

  /** In any graph: a frame whose only child is a VECTOR without fill colours gets no colour,
      whatever its strokes are. */
  lemma UnfilledVectorGivesNothing(g: Graph, frame: Guid, v: NodeChange)
    requires Children(g, frame) == [v] && Children(g, Id(v)) == []
    requires v.nodeType == Vector && FirstFillColor(v.fillPaints).None?
    ensures DepthAtMost(g, frame, 2) && PrimaryColorOf(g, frame, 2) == None
  {
    assert DepthAtMost(g, Id(v), 1);
    assert PrimaryColorOf(g, Id(v), 1) == ScanChildren(g, [], 0) == None;
    assert ScanChildren(g, [v], 1) == ScanChildren(g, [], 1);
  }

  /** In any graph: a frame whose only child is a transparent background gets no colour,
      whatever lies below the background. */
  lemma BackgroundHidesBelow(g: Graph, frame: Guid, rect: NodeChange, inner: NodeChange)
    requires Children(g, frame) == [rect] && Children(g, Id(rect)) == [inner] && Children(g, Id(inner)) == []
    requires IsTransparentBackground(rect)
    ensures DepthAtMost(g, frame, 3) && PrimaryColorOf(g, frame, 3) == None
  {
    assert DepthAtMost(g, Id(inner), 1);
    assert DepthAtMost(g, Id(rect), 2);
    assert ScanChildren(g, [rect], 2) == ScanChildren(g, [], 2);
  }

  /** Two leaf children under `frame` bound its depth by 2. */
  lemma TwoLeavesDepth(g: Graph, frame: Guid, x: NodeChange, y: NodeChange)
    requires Children(g, frame) == [x, y] && Children(g, Id(x)) == [] && Children(g, Id(y)) == []
    ensures DepthAtMost(g, frame, 2)
  {
    assert DepthAtMost(g, Id(x), 1) && DepthAtMost(g, Id(y), 1);
  }

  /** Siblings are tried in input order, whatever their type: a filled VECTOR filed before a
      filled BOOLEAN_OPERATION under the same frame gives the VECTOR's colour. */
  lemma VectorBeforeBooleanWins()
    ensures var nodes := [Node(1, 0, Frame, 1.0, [], []),
                          Node(2, 1, Vector, 1.0, [Paint(Some(LightBlue))], []),
                          Node(3, 1, BooleanOperation, 1.0, [Paint(Some(Blue))], [])];
            var g := GraphOf(nodes);
            DepthAtMost(g, Guid(0, 1), 2) && PrimaryColorOf(g, Guid(0, 1), 2) == Some(LightBlue)
  {
    var a, b, c := Node(1, 0, Frame, 1.0, [], []),
                   Node(2, 1, Vector, 1.0, [Paint(Some(LightBlue))], []),
                   Node(3, 1, BooleanOperation, 1.0, [Paint(Some(Blue))], []);
    ChildrenOfThree(a, b, c, Guid(0, 1));
    ChildrenOfThree(a, b, c, Guid(0, 2));
    ChildrenOfThree(a, b, c, Guid(0, 3));
    var g := GraphOf([a, b, c]);
    TwoLeavesDepth(g, Guid(0, 1), b, c);
    FilledFirstChildAnswers(g, Guid(0, 1), 2);
  }

  /** Skipping works on the record, not on the identifier: when a later sibling `y` of a
      transparent background `t` carries the same identifier, the walk enters the children
      list of that identifier through `y`, and a filled VECTOR filed there is the answer. */
  lemma SharedIdentifierReachesBelowBackground(g: Graph, frame: Guid, t: NodeChange, y: NodeChange, v: NodeChange)
    requires Children(g, frame) == [t, y] && Id(y) == Id(t)
    requires Children(g, Id(t)) == [v] && Children(g, Id(v)) == []
    requires IsTransparentBackground(t) && y.nodeType == Frame && HasFillColor(v)
    ensures DepthAtMost(g, frame, 3) && PrimaryColorOf(g, frame, 3) == FirstFillColor(v.fillPaints)
  {
    assert DepthAtMost(g, Id(v), 1);
    assert DepthAtMost(g, Id(t), 2);
    assert PrimaryColorOf(g, Id(y), 2) == ScanChildren(g, [v], 1) == FirstFillColor(v.fillPaints);
    assert ScanChildren(g, [t, y], 2) == ScanChildren(g, [y], 2);
  }

  /** A BOOLEAN_OPERATION's own fill wins over the fill of the VECTOR inside it. */
  lemma BooleanFillBeatsInnerVector()
    ensures var nodes := [Node(1, 0, Frame, 1.0, [], []),
                          Node(2, 1, BooleanOperation, 1.0, [Paint(Some(Blue))], []),
                          Node(3, 2, Vector, 1.0, [Paint(Some(LightBlue))], [])];
            var g := GraphOf(nodes);
            DepthAtMost(g, Guid(0, 1), 3) && PrimaryColorOf(g, Guid(0, 1), 3) == Some(Blue)
  {
    var a, b, c := Node(1, 0, Frame, 1.0, [], []),
                   Node(2, 1, BooleanOperation, 1.0, [Paint(Some(Blue))], []),
                   Node(3, 2, Vector, 1.0, [Paint(Some(LightBlue))], []);
    ChildrenOfThree(a, b, c, Guid(0, 1));
    ChildrenOfThree(a, b, c, Guid(0, 2));
    ChildrenOfThree(a, b, c, Guid(0, 3));
    BooleanAnswersFirst(GraphOf([a, b, c]), Guid(0, 1), b, c);
  }

  /** Strokes are never read: a VECTOR with a stroke and no fill gives no colour. */
  lemma StrokeOnlyGivesNothing()
    ensures var nodes := [Node(1, 0, Frame, 1.0, [], []),
                          Node(2, 1, Vector, 1.0, [], [Paint(Some(Ink))])];
            var g := GraphOf(nodes);
            DepthAtMost(g, Guid(0, 1), 2) && PrimaryColorOf(g, Guid(0, 1), 2) == None
  {
    var a, b := Node(1, 0, Frame, 1.0, [], []), Node(2, 1, Vector, 1.0, [], [Paint(Some(Ink))]);
    ChildrenOfTwo(a, b, Guid(0, 1));
    ChildrenOfTwo(a, b, Guid(0, 2));
    UnfilledVectorGivesNothing(GraphOf([a, b]), Guid(0, 1), b);
  }

  /** A transparent ROUNDED_RECTANGLE hides its own children: the filled VECTOR inside it
      is not reached. */
  lemma TransparentBackgroundHidesChildren()
    ensures var nodes := [Node(1, 0, Frame, 1.0, [], []),
                          Node(2, 1, RoundedRectangle, 0.0001, [], []),
                          Node(3, 2, Vector, 1.0, [Paint(Some(Blue))], [])];
            var g := GraphOf(nodes);
            DepthAtMost(g, Guid(0, 1), 3) && PrimaryColorOf(g, Guid(0, 1), 3) == None
  {
    var a, b, c := Node(1, 0, Frame, 1.0, [], []),
                   Node(2, 1, RoundedRectangle, 0.0001, [], []),
                   Node(3, 2, Vector, 1.0, [Paint(Some(Blue))], []);
    ChildrenOfThree(a, b, c, Guid(0, 1));
    ChildrenOfThree(a, b, c, Guid(0, 2));
    ChildrenOfThree(a, b, c, Guid(0, 3));
    BackgroundHidesBelow(GraphOf([a, b, c]), Guid(0, 1), b, c);
  }
}
