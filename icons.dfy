/** The candidate loop of `find_icon_containers`: small FRAMEs with a vector below them. */
module IconContainers {
  import opened Nodes
  import opened NodeGraph
  import opened VectorSearch
  import opened Subtree
  import opened VectorCount
  import opened PrimaryColor

  /** Largest width and height of an icon frame. */
  const MaxIconSide: real := 32.0

  /** The bound handed to the vector search. */
  const SearchDepth: int := 5

  /** One entry of the result; `width` and `height` stand for the `"WxH"` size text. */
  datatype Icon = Icon(
    guid: Guid,
    name: string,
    width: real,
    height: real,
    primaryColor: Option<Color>,
    vectorCount: nat)

  /** A FRAME whose sides are both at most 32; a missing side counts as 999. */
  predicate IsSmallFrame(n: NodeChange)
  {
    n.nodeType == Frame && Width(n) <= MaxIconSide && Height(n) <= MaxIconSide
  }

  /** A record with a missing side is never small. */
  lemma MissingSideIsNotSmall(n: NodeChange)
    ensures n.size.x.None? || n.size.y.None? ==> !IsSmallFrame(n)
  {
  }

  predicate IsIconContainer(g: Graph, n: NodeChange)
  {
    IsSmallFrame(n) && HasVectorDescendant(g, Id(n), SearchDepth)
  }

  /** The colour and count walks of every container end: its subtree is finite. Below any
      other record the source never walks without a bound. */
  ghost predicate WalksTerminate(nodes: seq<NodeChange>)
  {
    forall n :: n in nodes && IsIconContainer(GraphOf(nodes), n) ==> FiniteBelow(GraphOf(nodes), Id(n))
  }

  /** The entry listed for container `n`. */
  ghost function IconFor(g: Graph, n: NodeChange): Icon
    requires FiniteBelow(g, Id(n))
  {
    var h := DepthOf(g, Id(n));
    Icon(Id(n), n.name, Width(n), Height(n),
         PrimaryColorOf(g, Id(n), h), VectorsIn(Descendants(g, Id(n), h)))
  }

  function GuidsOf(icons: seq<Icon>): set<Guid>
  {
    set a | 0 <= a < |icons| :: icons[a].guid
  }

  /** `icons` is what the loop has listed after the first `i` records: entry `a` comes from
      the record at position `picked[a]`, positions rise, each is the first container with
      its identifier, and every container seen so far has its identifier listed. */
  ghost predicate ListedUpTo(g: Graph, nodes: seq<NodeChange>, i: nat, icons: seq<Icon>, picked: seq<nat>)
  {
    && i <= |nodes|
    && |picked| == |icons|
    && (forall a, b :: 0 <= a < b < |picked| ==> picked[a] < picked[b])
    && (forall a :: 0 <= a < |picked| ==>
          && picked[a] < i
          && IsIconContainer(g, nodes[picked[a]])
          && FiniteBelow(g, Id(nodes[picked[a]]))
          && icons[a] == IconFor(g, nodes[picked[a]]))
    && (forall a, j :: 0 <= a < |picked| && 0 <= j < picked[a] && IsIconContainer(g, nodes[j]) ==>
          Id(nodes[j]) != icons[a].guid)
    && (forall j :: 0 <= j < i && IsIconContainer(g, nodes[j]) ==> Id(nodes[j]) in GuidsOf(icons))
  }

  lemma ListedSkip(g: Graph, nodes: seq<NodeChange>, i: nat, icons: seq<Icon>, picked: seq<nat>)
    requires ListedUpTo(g, nodes, i, icons, picked) && i < |nodes|
    requires IsIconContainer(g, nodes[i]) ==> Id(nodes[i]) in GuidsOf(icons)
    ensures ListedUpTo(g, nodes, i + 1, icons, picked)
  {
  }

  lemma ListedPick(g: Graph, nodes: seq<NodeChange>, i: nat, icons: seq<Icon>, picked: seq<nat>, icon: Icon)
    requires ListedUpTo(g, nodes, i, icons, picked) && i < |nodes|
    requires IsIconContainer(g, nodes[i]) && Id(nodes[i]) !in GuidsOf(icons)
    requires FiniteBelow(g, Id(nodes[i])) && icon == IconFor(g, nodes[i])
    ensures ListedUpTo(g, nodes, i + 1, icons + [icon], picked + [i])
    ensures GuidsOf(icons + [icon]) == GuidsOf(icons) + {icon.guid}
  {
    var icons' := icons + [icon];
    assert forall a :: 0 <= a < |icons| ==> icons'[a] == icons[a];
    assert GuidsOf(icons') == GuidsOf(icons) + {icon.guid} by {
      assert icons'[|icons|] == icon;
    }
    forall a, j | 0 <= a < |picked| + 1 && 0 <= j < (picked + [i])[a] && IsIconContainer(g, nodes[j])
      ensures Id(nodes[j]) != icons'[a].guid
    {
      if a == |picked| {
        assert Id(nodes[j]) in GuidsOf(icons);
      }
    }
  }

  /** Distinct entries carry distinct identifiers. */
  lemma ListedDistinct(g: Graph, nodes: seq<NodeChange>, i: nat, icons: seq<Icon>, picked: seq<nat>)
    requires ListedUpTo(g, nodes, i, icons, picked)
    ensures forall a, b :: 0 <= a < b < |icons| ==> icons[a].guid != icons[b].guid
  {
  }

  /** Lists the icon containers in input order, each identifier once: entry `a` comes from
      the record at position `picked[a]`, which is the first container with that identifier,
      and every container's identifier is listed. */
  method FindIconContainers(nodes: seq<NodeChange>) returns (icons: seq<Icon>, ghost picked: seq<nat>)
    requires WalksTerminate(nodes)
    ensures ListedUpTo(GraphOf(nodes), nodes, |nodes|, icons, picked)
    ensures forall a, b :: 0 <= a < b < |icons| ==> icons[a].guid != icons[b].guid
  {
    var g := BuildGraph(nodes);
    icons, picked := [], [];
    var seen: set<Guid> := {};
    var i := 0;
    while i < |nodes|
      invariant 0 <= i <= |nodes|
      invariant ListedUpTo(g, nodes, i, icons, picked)
      invariant seen == GuidsOf(icons)
    {
      var n := nodes[i];
      var guid := Id(n);
      if IsSmallFrame(n) {
        var hasVector := HasVectorDescendant(g, guid, SearchDepth);
        if hasVector && guid !in seen {
          assert n in nodes;
          ghost var h := DepthOf(g, guid);
          var primaryColor := PrimaryColorOf(g, guid, h);
          var vectorCount := CountVectors(g, guid, h);
          var icon := Icon(guid, n.name, Width(n), Height(n), primaryColor, vectorCount);
          ListedPick(g, nodes, i, icons, picked, icon);
          icons := icons + [icon];
          picked := picked + [i];
          seen := seen + {guid};
        } else {
          ListedSkip(g, nodes, i, icons, picked);
        }
      } else {
        ListedSkip(g, nodes, i, icons, picked);
      }
      i := i + 1;
    }
    ListedDistinct(g, nodes, i, icons, picked);
  }
}
