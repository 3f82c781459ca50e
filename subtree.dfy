/** Subtrees of the children map. The colour and count walks recurse without a depth bound, so
    they are only defined where the subtree is finite; `DepthAtMost` says how deep it is. */
module Subtree {
  import opened Nodes
  import opened NodeGraph

  /** No chain of child hops below `id` is longer than `h - 1`; in particular no cycle is
      reachable from `id`. */
  ghost predicate DepthAtMost(g: Graph, id: Guid, h: nat)
    decreases h
  {
    h > 0 && forall c :: c in Children(g, id) ==> DepthAtMost(g, Id(c), h - 1)
  }

  ghost predicate AllDepthAtMost(g: Graph, cs: seq<NodeChange>, h: nat)
  {
    forall c :: c in cs ==> DepthAtMost(g, Id(c), h)
  }

  /** The part of the children map below `id` is finite: the unbounded walks terminate there. */
  ghost predicate FiniteBelow(g: Graph, id: Guid)
  {
    exists h: nat :: DepthAtMost(g, id, h)
  }

  /** One depth bound for a finite subtree, fixed once so that every use picks the same. */
  ghost function DepthOf(g: Graph, id: Guid): (h: nat)
    requires FiniteBelow(g, id)
    ensures DepthAtMost(g, id, h)
  {
    var h: nat :| DepthAtMost(g, id, h); h
  }

  /** The records strictly below `id`, in the order the walks visit them: each child, then
      its own subtree, then the next child. */
  ghost function Descendants(g: Graph, id: Guid, h: nat): seq<NodeChange>
    requires DepthAtMost(g, id, h)
    decreases h, 1
  {
    DescendantsOf(g, Children(g, id), h - 1)
  }

  ghost function DescendantsOf(g: Graph, cs: seq<NodeChange>, h: nat): seq<NodeChange>
    requires AllDepthAtMost(g, cs, h)
    decreases h + 1, 0, |cs|
  {
    if cs == [] then []
    else [cs[0]] + Descendants(g, Id(cs[0]), h) + DescendantsOf(g, cs[1..], h)
  }

  lemma {:induction false} DescendantsOfAppend(g: Graph, a: seq<NodeChange>, b: seq<NodeChange>, h: nat)
    requires AllDepthAtMost(g, a, h) && AllDepthAtMost(g, b, h)
    ensures AllDepthAtMost(g, a + b, h)
    ensures DescendantsOf(g, a + b, h) == DescendantsOf(g, a, h) + DescendantsOf(g, b, h)
    decreases |a|
  {
    if a == [] {
      assert a + b == b;
    } else {
      assert (a + b)[1..] == a[1..] + b;
      DescendantsOfAppend(g, a[1..], b, h);
    }
  }

  /** A larger bound is still a bound. */
  lemma {:induction false} DepthAtMostMonotone(g: Graph, id: Guid, h: nat)
    requires DepthAtMost(g, id, h)
    ensures DepthAtMost(g, id, h + 1)
    decreases h
  {
    forall c | c in Children(g, id) ensures DepthAtMost(g, Id(c), h) {
      DepthAtMostMonotone(g, Id(c), h - 1);
    }
  }

  /** Every record below `id` has a strictly smaller depth bound than `id` has. */
  lemma {:induction false} BelowIsShallower(g: Graph, id: Guid, h: nat, k: nat, d: NodeChange)
    requires DepthAtMost(g, id, h) && DepthAtMost(g, id, k)
    requires d in Descendants(g, id, h)
    ensures k > 0 && DepthAtMost(g, Id(d), k - 1)
    decreases h, 1
  {
    BelowIsShallowerOf(g, Children(g, id), h - 1, k - 1, d);
  }

  lemma {:induction false} BelowIsShallowerOf(g: Graph, cs: seq<NodeChange>, h: nat, k: nat, d: NodeChange)
    requires AllDepthAtMost(g, cs, h) && AllDepthAtMost(g, cs, k)
    requires d in DescendantsOf(g, cs, h)
    ensures DepthAtMost(g, Id(d), k)
    decreases h + 1, 0, |cs|
  {
    var c := cs[0];
    if d == c {
    } else if d in Descendants(g, Id(c), h) {
      BelowIsShallower(g, Id(c), h, k, d);
      DepthAtMostMonotone(g, Id(d), k - 1);
    } else {
      BelowIsShallowerOf(g, cs[1..], h, k, d);
    }
  }

  /** No record below `id` carries the identifier `id`: the root is not part of its own
      subtree. */
  lemma RootNotBelow(g: Graph, id: Guid, h: nat, d: NodeChange)
    requires DepthAtMost(g, id, h)
    requires d in Descendants(g, id, h)
    ensures Id(d) != id
  {
    if Id(d) == id {
      NoSelfBelow(g, id, h, h, d);
    }
  }

  lemma {:induction false} NoSelfBelow(g: Graph, id: Guid, h: nat, k: nat, d: NodeChange)
    requires DepthAtMost(g, id, h) && DepthAtMost(g, id, k)
    requires d in Descendants(g, id, h) && Id(d) == id
    ensures false
    decreases k
  {
    BelowIsShallower(g, id, h, k, d);
    NoSelfBelow(g, id, h, k - 1, d);
  }
}
