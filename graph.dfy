/** The node map and the parent-to-children map built from the flat record list. */
module NodeGraph {
  import opened Nodes

  /** `nodeMap` maps an identifier to its record; `childrenMap` maps a parent identifier to
      its child records in input order. */
  datatype Graph = Graph(nodeMap: map<Guid, NodeChange>, childrenMap: map<Guid, seq<NodeChange>>)

  /** The child records filed under `id`; none when `id` has no list. */
  function Children(g: Graph, id: Guid): seq<NodeChange>
  {
    if id in g.childrenMap then g.childrenMap[id] else []
  }

  /** The node map after the records are written in order: a later record overwrites an
      earlier one with the same identifier. */
  function NodeMapOf(nodes: seq<NodeChange>): map<Guid, NodeChange>
    decreases |nodes|
  {
    if nodes == [] then map[]
    else NodeMapOf(nodes[..|nodes| - 1])[Id(nodes[|nodes| - 1]) := nodes[|nodes| - 1]]
  }

  function ParentIds(nodes: seq<NodeChange>): set<Guid>
  {
    set n | n in nodes :: ParentId(n)
  }

  /** The records whose parent identifier is `p`, in input order. */
  function ChildrenOf(nodes: seq<NodeChange>, p: Guid): seq<NodeChange>
    decreases |nodes|
  {
    if nodes == [] then []
    else
      var last := nodes[|nodes| - 1];
      ChildrenOf(nodes[..|nodes| - 1], p) + (if ParentId(last) == p then [last] else [])
  }

  /** The children map: one list per parent identifier that occurs. */
  function ChildrenMapOf(nodes: seq<NodeChange>): map<Guid, seq<NodeChange>>
  {
    map p | p in ParentIds(nodes) :: ChildrenOf(nodes, p)
  }

  function GraphOf(nodes: seq<NodeChange>): Graph
  {
    Graph(NodeMapOf(nodes), ChildrenMapOf(nodes))
  }

  /** The single pass that fills both maps. */
  method BuildGraph(nodes: seq<NodeChange>) returns (g: Graph)
    ensures g == GraphOf(nodes)
  {
    var nodeMap: map<Guid, NodeChange> := map[];
    var childrenMap: map<Guid, seq<NodeChange>> := map[];
    var i := 0;
    assert nodes[..0] == [];
    assert ChildrenMapOf([]) == map[] by {
      assert ParentIds([]) == {};
    }
    while i < |nodes|
      invariant 0 <= i <= |nodes|
      invariant nodeMap == NodeMapOf(nodes[..i])
      invariant childrenMap == ChildrenMapOf(nodes[..i])
    {
      var n := nodes[i];
      assert nodes[..i + 1] == nodes[..i] + [n];
      assert nodes[..i + 1][..i] == nodes[..i];
      nodeMap := nodeMap[Id(n) := n];
      var parentId := ParentId(n);
      ghost var before := childrenMap;
      if parentId !in childrenMap {
        childrenMap := childrenMap[parentId := []];
      }
      AppendChildStep(nodes[..i], n, before, childrenMap);
      childrenMap := childrenMap[parentId := childrenMap[parentId] + [n]];
      i := i + 1;
    }
    assert nodes[..i] == nodes;
    g := Graph(nodeMap, childrenMap);
  }

  /** One more record extends the list of its parent identifier, creating it if needed. */
  lemma ChildrenMapOfSnoc(nodes: seq<NodeChange>, n: NodeChange)
    ensures ChildrenMapOf(nodes + [n]) ==
      ChildrenMapOf(nodes)[ParentId(n) := ChildrenOf(nodes, ParentId(n)) + [n]]
  {
    var m := nodes + [n];
    var lhs := ChildrenMapOf(m);
    var rhs := ChildrenMapOf(nodes)[ParentId(n) := ChildrenOf(nodes, ParentId(n)) + [n]];
    ParentIdsSnoc(nodes, n);
    assert lhs.Keys == rhs.Keys;
    forall q | q in lhs.Keys ensures lhs[q] == rhs[q] {
      ChildrenOfSnoc(nodes, n, q);
    }
  }

  /** The two updates of the loop body (create the list if missing, then append) extend the
      children map by one record. */
  lemma AppendChildStep(prefix: seq<NodeChange>, n: NodeChange,
                        before: map<Guid, seq<NodeChange>>, created: map<Guid, seq<NodeChange>>)
    requires before == ChildrenMapOf(prefix)
    requires created == if ParentId(n) in before then before else before[ParentId(n) := []]
    ensures ParentId(n) in created
    ensures created[ParentId(n) := created[ParentId(n)] + [n]] == ChildrenMapOf(prefix + [n])
  {
    ChildrenMapOfSnoc(prefix, n);
    if ParentId(n) !in before {
      ChildrenOfOutside(prefix, ParentId(n));
    }
  }

  lemma ParentIdsSnoc(nodes: seq<NodeChange>, n: NodeChange)
    ensures ParentIds(nodes + [n]) == ParentIds(nodes) + {ParentId(n)}
  {
    var m := nodes + [n];
    forall q | q in ParentIds(m) ensures q in ParentIds(nodes) + {ParentId(n)} {
      var x :| x in m && ParentId(x) == q;
      if x != n { assert x in nodes; }
    }
    forall q | q in ParentIds(nodes) ensures q in ParentIds(m) {
      var x :| x in nodes && ParentId(x) == q;
      assert x in m;
    }
    assert n in m;
  }

  lemma ChildrenOfSnoc(nodes: seq<NodeChange>, n: NodeChange, q: Guid)
    ensures ChildrenOf(nodes + [n], q) == ChildrenOf(nodes, q) + (if ParentId(n) == q then [n] else [])
  {
  }

  lemma {:induction false} ChildrenOfOutside(nodes: seq<NodeChange>, p: Guid)
    requires p !in ParentIds(nodes)
    ensures ChildrenOf(nodes, p) == []
    decreases |nodes|
  {
    if nodes != [] {
      var init := nodes[..|nodes| - 1];
      assert ParentIds(init) <= ParentIds(nodes) by {
        forall q | q in ParentIds(init) ensures q in ParentIds(nodes) {
          var n :| n in init && ParentId(n) == q;
          assert n in nodes;
        }
      }
      ChildrenOfOutside(init, p);
      assert nodes[|nodes| - 1] in nodes;
    }
  }

  /** Last write wins: an identifier is in the node map exactly when some record carries
      it, and it maps to the last such record. */
  lemma {:induction false} NodeMapLastWins(nodes: seq<NodeChange>, k: Guid)
    ensures k in NodeMapOf(nodes) <==> exists i :: 0 <= i < |nodes| && Id(nodes[i]) == k
    ensures k in NodeMapOf(nodes) ==>
      exists i :: 0 <= i < |nodes| && Id(nodes[i]) == k && NodeMapOf(nodes)[k] == nodes[i] &&
        forall j :: i < j < |nodes| ==> Id(nodes[j]) != k
    decreases |nodes|
  {
    if nodes != [] {
      var last := |nodes| - 1;
      var init := nodes[..last];
      NodeMapLastWins(init, k);
      if Id(nodes[last]) == k {
        assert NodeMapOf(nodes)[k] == nodes[last];
      } else {
        if k in NodeMapOf(nodes) {
          var i :| 0 <= i < |init| && Id(init[i]) == k && NodeMapOf(init)[k] == init[i] &&
            forall j :: i < j < |init| ==> Id(init[j]) != k;
          assert nodes[i] == init[i];
          assert forall j :: i < j < |nodes| ==> Id(nodes[j]) != k by {
            forall j | i < j < |nodes| ensures Id(nodes[j]) != k {
              if j < last { assert nodes[j] == init[j]; }
            }
          }
        }
        if exists i :: 0 <= i < |nodes| && Id(nodes[i]) == k {
          var i :| 0 <= i < |nodes| && Id(nodes[i]) == k;
          assert i < last && init[i] == nodes[i];
        }
      }
    }
  }

  /** Appending records appends to the children lists: nothing reorders them. */
  lemma {:induction false} ChildrenOfAppend(a: seq<NodeChange>, b: seq<NodeChange>, p: Guid)
    ensures ChildrenOf(a + b, p) == ChildrenOf(a, p) + ChildrenOf(b, p)
    decreases |b|
  {
    if b == [] {
      assert a + b == a;
    } else {
      var b' := b[..|b| - 1];
      assert (a + b)[..|a + b| - 1] == a + b';
      ChildrenOfAppend(a, b', p);
    }
  }

  /** Every child list holds only records whose parent identifier is its key, and it holds every
      occurrence of each such record. */
  lemma {:induction false} ChildrenOfCounts(nodes: seq<NodeChange>, p: Guid, n: NodeChange)
    ensures n in ChildrenOf(nodes, p) ==> ParentId(n) == p
    ensures ParentId(n) == p ==> multiset(ChildrenOf(nodes, p))[n] == multiset(nodes)[n]
    decreases |nodes|
  {
    if nodes != [] {
      var init := nodes[..|nodes| - 1];
      var last := nodes[|nodes| - 1];
      ChildrenOfCounts(init, p, n);
      assert nodes == init + [last];
      assert multiset(nodes) == multiset(init) + multiset{last};
      if ParentId(last) == p {
        assert ChildrenOf(nodes, p) == ChildrenOf(init, p) + [last];
        assert multiset(ChildrenOf(nodes, p)) == multiset(ChildrenOf(init, p)) + multiset{last};
      } else {
        assert ChildrenOf(nodes, p) == ChildrenOf(init, p);
        assert ParentId(n) == p ==> n != last;
      }
    }
  }

  /** Each record is filed in exactly one children list, the one of its parent identifier
      (the root key `0:0` when it has none), together with every repetition of it. */
  lemma PlacedOnce(nodes: seq<NodeChange>, n: NodeChange)
    requires n in nodes
    ensures ParentId(n) in GraphOf(nodes).childrenMap
    ensures multiset(Children(GraphOf(nodes), ParentId(n)))[n] == multiset(nodes)[n]
    ensures forall q :: q != ParentId(n) ==> n !in Children(GraphOf(nodes), q)
    ensures n.parent == NoGuid ==> n in Children(GraphOf(nodes), RootKey)
  {
    ChildrenOfCounts(nodes, ParentId(n), n);
    forall q | q != ParentId(n) ensures n !in Children(GraphOf(nodes), q) {
      ChildrenOfCounts(nodes, q, n);
    }
  }

  /** Children lists of a graph built from `a + b` are those built from `a` followed by those
      built from `b`: nothing reorders them. */
  lemma GraphOfAppend(a: seq<NodeChange>, b: seq<NodeChange>, p: Guid)
    ensures Children(GraphOf(a + b), p) == Children(GraphOf(a), p) + Children(GraphOf(b), p)
  {
    ChildrenOfAppend(a, b, p);
    ChildrenOfGraph(a, p);
    ChildrenOfGraph(b, p);
    ChildrenOfGraph(a + b, p);
  }

  lemma ChildrenOfGraph(nodes: seq<NodeChange>, p: Guid)
    ensures Children(GraphOf(nodes), p) == ChildrenOf(nodes, p)
  {
    if p !in ParentIds(nodes) { ChildrenOfOutside(nodes, p); }
  }
}
