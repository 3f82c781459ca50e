/** `_count_vectors`: the number of VECTOR records below a node. */
module VectorCount {
  import opened Nodes
  import opened NodeGraph
  import opened Subtree

  /** The number of VECTOR records in `s`. */
  function VectorsIn(s: seq<NodeChange>): (r: nat)
    ensures r <= |s|
    ensures r == 0 <==> forall i :: 0 <= i < |s| ==> s[i].nodeType != Vector
  {
    if s == [] then 0
    else (if s[0].nodeType == Vector then 1 else 0) + VectorsIn(s[1..])
  }

  lemma {:induction false} VectorsInAppend(a: seq<NodeChange>, b: seq<NodeChange>)
    ensures VectorsIn(a + b) == VectorsIn(a) + VectorsIn(b)
    decreases |a|
  {
    if a == [] {
      assert a + b == b;
    } else {
      assert (a + b)[1..] == a[1..] + b;
      VectorsInAppend(a[1..], b);
    }
  }

  /** Walks the children in order, adding one for each VECTOR child and the count of its own
      subtree. The result is the number of VECTOR records strictly below `id`. */
  method CountVectors(g: Graph, id: Guid, ghost h: nat) returns (count: nat)
    requires DepthAtMost(g, id, h)
    ensures count == VectorsIn(Descendants(g, id, h))
    decreases h
  {
    count := 0;
    var cs := Children(g, id);
    assert AllDepthAtMost(g, cs, h - 1);
    assert Counted(g, cs, 0, h - 1, 0) by { assert cs[..0] == []; }
    var i := 0;
    while i < |cs|
      invariant 0 <= i <= |cs|
      invariant Counted(g, cs, i, h - 1, count)
    {
      var c := cs[i];
      assert c in cs;
      var own := if c.nodeType == Vector then 1 else 0;
      var below := CountVectors(g, Id(c), h - 1);
      CountStep(g, cs, i, h - 1, count, below);
      count := count + own + below;
      i := i + 1;
    }
    assert cs[..i] == cs;
  }

  /** After the first `i` children of `cs` the loop has counted `count`: the VECTOR records
      among those children and their subtrees. */
  ghost predicate Counted(g: Graph, cs: seq<NodeChange>, i: nat, h: nat, count: nat)
  {
    && i <= |cs|
    && AllDepthAtMost(g, cs, h)
    && AllDepthAtMost(g, cs[..i], h)
    && count == VectorsIn(DescendantsOf(g, cs[..i], h))
  }

  /** One turn of the loop: the `i`-th child adds itself, if a VECTOR, and its own subtree. */
  lemma CountStep(g: Graph, cs: seq<NodeChange>, i: nat, h: nat, count: nat, below: nat)
    requires Counted(g, cs, i, h, count) && i < |cs|
    requires below == VectorsIn(Descendants(g, Id(cs[i]), h))
    ensures Counted(g, cs, i + 1, h, count + (if cs[i].nodeType == Vector then 1 else 0) + below)
  {
    var c := cs[i];
    var own := Descendants(g, Id(c), h);
    assert cs[..i + 1] == cs[..i] + [c];
    DescendantsOfAppend(g, cs[..i], [c], h);
    assert DescendantsOf(g, [c], h) == [c] + own + [];
    assert [c] + own + [] == [c] + own;
    VectorsInAppend(DescendantsOf(g, cs[..i], h), [c] + own);
    VectorsInAppend([c], own);
  }
}
