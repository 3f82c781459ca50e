/** The depth-bounded search for a VECTOR or BOOLEAN_OPERATION below a node. */
module VectorSearch {
  import opened Nodes
  import opened NodeGraph

  /** `_has_vector_descendant`: looks at most `maxDepth` child hops down. The bound falls by one
      on every call, so the search ends on any children map, cyclic ones included. */
  function HasVectorDescendant(g: Graph, id: Guid, maxDepth: int): (r: bool)
    ensures maxDepth <= 0 ==> !r
    decreases if maxDepth <= 0 then 0 else maxDepth, 1
  {
    if maxDepth <= 0 then false
    else AnyVectorAmong(g, Children(g, id), maxDepth - 1)
  }

  /** The loop of `_has_vector_descendant` over the children `cs`: a child is a hit itself, or
      its own search with the bound `rest` is. The scan stops at the first hit. */
  function AnyVectorAmong(g: Graph, cs: seq<NodeChange>, rest: nat): bool
    decreases rest + 1, 0, |cs|
  {
    if cs == [] then false
    else if IsVectorLike(cs[0]) then true
    else if HasVectorDescendant(g, Id(cs[0]), rest) then true
    else AnyVectorAmong(g, cs[1..], rest)
  }

  /** `p` is a chain of child records going down from `from`: `p[0]` is a child of `from`
      and each next record a child of the one before. */
  ghost predicate IsPathFrom(g: Graph, from: Guid, p: seq<NodeChange>)
  {
    && |p| > 0
    && p[0] in Children(g, from)
    && forall i :: 0 <= i < |p| - 1 ==> p[i + 1] in Children(g, Id(p[i]))
  }

  /** A VECTOR or BOOLEAN_OPERATION record is reachable from `id` in at most `depth` hops. */
  ghost predicate VectorWithin(g: Graph, id: Guid, depth: int)
  {
    exists p :: IsPathFrom(g, id, p) && |p| <= depth && IsVectorLike(p[|p| - 1])
  }

  lemma {:induction false} AnyVectorAmongIff(g: Graph, cs: seq<NodeChange>, rest: nat)
    ensures AnyVectorAmong(g, cs, rest) <==>
      exists c :: c in cs && (IsVectorLike(c) || HasVectorDescendant(g, Id(c), rest))
    decreases |cs|
  {
    if cs != [] {
      AnyVectorAmongIff(g, cs[1..], rest);
      assert forall c :: c in cs <==> c == cs[0] || c in cs[1..];
    }
  }

  /** The search answers true exactly when some VECTOR or BOOLEAN_OPERATION record can be
      reached from `id` in at most `maxDepth` child hops. */
  lemma HasVectorDescendantIff(g: Graph, id: Guid, maxDepth: int)
    ensures HasVectorDescendant(g, id, maxDepth) <==> VectorWithin(g, id, maxDepth)
  {
    if HasVectorDescendant(g, id, maxDepth) {
      FoundIsReachable(g, id, maxDepth);
    }
    if VectorWithin(g, id, maxDepth) {
      ReachableIsFound(g, id, maxDepth);
    }
  }

  /** A hit of the search is a reachable VECTOR or BOOLEAN_OPERATION. */
  lemma {:induction false} FoundIsReachable(g: Graph, id: Guid, maxDepth: int)
    requires HasVectorDescendant(g, id, maxDepth)
    ensures VectorWithin(g, id, maxDepth)
    decreases if maxDepth <= 0 then 0 else maxDepth
  {
    var cs := Children(g, id);
    AnyVectorAmongIff(g, cs, maxDepth - 1);
    var c :| c in cs && (IsVectorLike(c) || HasVectorDescendant(g, Id(c), maxDepth - 1));
    if IsVectorLike(c) {
      assert IsPathFrom(g, id, [c]);
    } else {
      FoundIsReachable(g, Id(c), maxDepth - 1);
      var p :| IsPathFrom(g, Id(c), p) && |p| <= maxDepth - 1 && IsVectorLike(p[|p| - 1]);
      var q := [c] + p;
      assert forall i :: 0 < i < |q| ==> q[i] == p[i - 1];
      assert IsPathFrom(g, id, q);
      assert q[|q| - 1] == p[|p| - 1];
    }
  }

  /** A VECTOR or BOOLEAN_OPERATION reachable within the bound is found by the search. */
  lemma {:induction false} ReachableIsFound(g: Graph, id: Guid, maxDepth: int)
    requires VectorWithin(g, id, maxDepth)
    ensures HasVectorDescendant(g, id, maxDepth)
    decreases if maxDepth <= 0 then 0 else maxDepth
  {
    var cs := Children(g, id);
    AnyVectorAmongIff(g, cs, maxDepth - 1);
    var p :| IsPathFrom(g, id, p) && |p| <= maxDepth && IsVectorLike(p[|p| - 1]);
    var c := p[0];
    if !IsVectorLike(c) {
      var q := p[1..];
      assert IsPathFrom(g, Id(c), q) by {
        assert forall i :: 0 <= i < |q| ==> q[i] == p[i + 1];
      }
      assert q[|q| - 1] == p[|p| - 1];
      ReachableIsFound(g, Id(c), maxDepth - 1);
    }
  }

  /** Every check made with bound `d` is also made with bound `d + 1`. */
  lemma HasVectorDescendantMonotone(g: Graph, id: Guid, d: int)
    ensures HasVectorDescendant(g, id, d) ==> HasVectorDescendant(g, id, d + 1)
  {
    HasVectorDescendantIff(g, id, d);
    HasVectorDescendantIff(g, id, d + 1);
  }

  /** A record that is its own parent and not a vector: the search ends, and finds nothing,
      whatever the bound. */
  lemma {:induction false} SelfParentFindsNothing(n: NodeChange, d: int)
    requires ParentId(n) == Id(n) && !IsVectorLike(n)
    ensures !HasVectorDescendant(GraphOf([n]), Id(n), d)
    decreases if d <= 0 then 0 else d
  {
    var g := GraphOf([n]);
    if d > 0 {
      ChildrenOfGraph([n], Id(n));
      assert [n][..0] == [];
      assert ChildrenOf([n], Id(n)) == [n];
      assert Children(g, Id(n)) == [n];
      SelfParentFindsNothing(n, d - 1);
      assert !AnyVectorAmong(g, [n][1..], d - 1);
      assert !AnyVectorAmong(g, [n], d - 1);
    }
  }
}
