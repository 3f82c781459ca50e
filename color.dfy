/** `_extract_primary_color`: the colour of the first filled shape found below a node. */
module PrimaryColor {
  import opened Nodes
  import opened NodeGraph
  import opened Subtree

  /** `i` is the position of the first paint whose colour is present. */
  ghost predicate FirstColorAt(paints: seq<Paint>, i: int)
  {
    0 <= i < |paints| && paints[i].color.Some? && forall j :: 0 <= j < i ==> paints[j].color.None?
  }

  /** The colour of the first paint that has one, as the inner loops over `fillPaints` pick it. */
  function FirstFillColor(paints: seq<Paint>): (r: Option<Color>)
    ensures r.None? <==> forall i :: 0 <= i < |paints| ==> paints[i].color.None?
    ensures r.Some? ==> exists i :: FirstColorAt(paints, i) && r == paints[i].color
  {
    if paints == [] then None
    else if paints[0].color.Some? then
      assert FirstColorAt(paints, 0);
      paints[0].color
    else
      FirstColorShift(paints);
      FirstFillColor(paints[1..])
  }

  /** Past a paint without colour, the first coloured paint moves one place on. */
  lemma FirstColorShift(paints: seq<Paint>)
    requires paints != [] && paints[0].color.None?
    ensures forall i :: FirstColorAt(paints[1..], i) ==> FirstColorAt(paints, i + 1)
  {
    forall i | FirstColorAt(paints[1..], i) ensures FirstColorAt(paints, i + 1) {
      assert forall j :: 1 <= j < i + 1 ==> paints[j] == paints[1..][j - 1];
    }
  }

  /** A BOOLEAN_OPERATION or VECTOR with a fill whose colour is present. */
  predicate HasFillColor(n: NodeChange)
  {
    IsVectorLike(n) && FirstFillColor(n.fillPaints).Some?
  }

  /** The walk itself. The root's own type and paints are never looked at. */
  function PrimaryColorOf(g: Graph, id: Guid, ghost h: nat): Option<Color>
    requires DepthAtMost(g, id, h)
    decreases h, 1
  {
    ScanChildren(g, Children(g, id), h - 1)
  }

  /** The loop over the children: a transparent background is passed over with everything
      below it; a filled shape answers with its first fill colour; otherwise the child's own
      walk answers if it finds something, and the next child is tried if not. */
  function ScanChildren(g: Graph, cs: seq<NodeChange>, ghost h: nat): Option<Color>
    requires AllDepthAtMost(g, cs, h)
    decreases h + 1, 0, |cs|
  {
    if cs == [] then None
    else
      var c := cs[0];
      if IsTransparentBackground(c) then ScanChildren(g, cs[1..], h)
      else if c.nodeType == BooleanOperation && FirstFillColor(c.fillPaints).Some? then
        FirstFillColor(c.fillPaints)
      else if c.nodeType == Vector && FirstFillColor(c.fillPaints).Some? then
        FirstFillColor(c.fillPaints)
      else
        match PrimaryColorOf(g, Id(c), h)
        case Some(color) => Some(color)
        case None => ScanChildren(g, cs[1..], h)
  }

  /** The records below `id` that the walk can reach, in visiting order: like `Descendants`,
      except that a transparent background is left out and the walk does not descend from it. */
  ghost function Visible(g: Graph, id: Guid, h: nat): seq<NodeChange>
    requires DepthAtMost(g, id, h)
    decreases h, 1
  {
    VisibleOf(g, Children(g, id), h - 1)
  }

  ghost function VisibleOf(g: Graph, cs: seq<NodeChange>, h: nat): seq<NodeChange>
    requires AllDepthAtMost(g, cs, h)
    decreases h + 1, 0, |cs|
  {
    if cs == [] then []
    else
      (if IsTransparentBackground(cs[0]) then [] else [cs[0]] + Visible(g, Id(cs[0]), h))
      + VisibleOf(g, cs[1..], h)
  }

  /** The fill colour of the first filled shape in `s`. */
  function FirstShapeColor(s: seq<NodeChange>): Option<Color>
  {
    if s == [] then None
    else if HasFillColor(s[0]) then FirstFillColor(s[0].fillPaints)
    else FirstShapeColor(s[1..])
  }

  /** `i` is the position of the first filled shape in `s`. */
  ghost predicate FirstFilledAt(s: seq<NodeChange>, i: int)
  {
    0 <= i < |s| && HasFillColor(s[i]) && forall j :: 0 <= j < i ==> !HasFillColor(s[j])
  }

  lemma {:induction false} FirstShapeColorSpec(s: seq<NodeChange>)
    ensures FirstShapeColor(s).None? <==> forall i :: 0 <= i < |s| ==> !HasFillColor(s[i])
    ensures FirstShapeColor(s).Some? ==>
              exists i :: FirstFilledAt(s, i) && FirstShapeColor(s) == FirstFillColor(s[i].fillPaints)
    decreases |s|
  {
    if s != [] && !HasFillColor(s[0]) {
      var t := s[1..];
      FirstShapeColorSpec(t);
      assert forall i :: 1 <= i < |s| ==> s[i] == t[i - 1];
      if FirstShapeColor(t).Some? {
        var i :| FirstFilledAt(t, i) && FirstShapeColor(t) == FirstFillColor(t[i].fillPaints);
        assert FirstFilledAt(s, i + 1);
      }
    } else if s != [] {
      assert FirstFilledAt(s, 0);
    }
  }

  lemma {:induction false} FirstShapeColorAppend(a: seq<NodeChange>, b: seq<NodeChange>)
    ensures FirstShapeColor(a + b) ==
      if FirstShapeColor(a).Some? then FirstShapeColor(a) else FirstShapeColor(b)
    decreases |a|
  {
    if a == [] {
      assert a + b == b;
    } else {
      assert (a + b)[0] == a[0];
      assert (a + b)[1..] == a[1..] + b;
      FirstShapeColorAppend(a[1..], b);
    }
  }

  /** The priority rule: the walk returns the fill colour of the first filled
      BOOLEAN_OPERATION or VECTOR in visiting order. A node comes before its own subtree and
      an earlier sibling's subtree before a later sibling, so a BOOLEAN_OPERATION's own fill
      beats the vectors inside it. */
  lemma {:induction false} PrimaryColorIsFirstVisible(g: Graph, id: Guid, h: nat)
    requires DepthAtMost(g, id, h)
    ensures PrimaryColorOf(g, id, h) == FirstShapeColor(Visible(g, id, h))
    decreases h, 1
  {
    ScanChildrenIsFirstVisible(g, Children(g, id), h - 1);
  }

  lemma {:induction false} ScanChildrenIsFirstVisible(g: Graph, cs: seq<NodeChange>, h: nat)
    requires AllDepthAtMost(g, cs, h)
    ensures ScanChildren(g, cs, h) == FirstShapeColor(VisibleOf(g, cs, h))
    decreases h + 1, 0, |cs|
  {
    if cs != [] {
      var c := cs[0];
      var rest := VisibleOf(g, cs[1..], h);
      ScanChildrenIsFirstVisible(g, cs[1..], h);
      if IsTransparentBackground(c) {
        assert VisibleOf(g, cs, h) == [] + rest == rest;
        assert ScanChildren(g, cs, h) == ScanChildren(g, cs[1..], h);
      } else {
        var own := Visible(g, Id(c), h);
        assert VisibleOf(g, cs, h) == [c] + (own + rest);
        FirstShapeColorAppend([c], own + rest);
        if !HasFillColor(c) {
          assert ScanChildren(g, cs, h) ==
            if PrimaryColorOf(g, Id(c), h).Some? then PrimaryColorOf(g, Id(c), h)
            else ScanChildren(g, cs[1..], h);
          PrimaryColorIsFirstVisible(g, Id(c), h);
          FirstShapeColorAppend(own, rest);
        }
      }
    }
  }

  /** What the walk can see is part of the subtree, and holds no transparent background. */
  lemma {:induction false} VisibleWithinDescendants(g: Graph, id: Guid, h: nat, v: NodeChange)
    requires DepthAtMost(g, id, h)
    requires v in Visible(g, id, h)
    ensures v in Descendants(g, id, h) && !IsTransparentBackground(v)
    decreases h, 1
  {
    VisibleOfWithinDescendantsOf(g, Children(g, id), h - 1, v);
  }

  lemma {:induction false} VisibleOfWithinDescendantsOf(g: Graph, cs: seq<NodeChange>, h: nat, v: NodeChange)
    requires AllDepthAtMost(g, cs, h)
    requires v in VisibleOf(g, cs, h)
    ensures v in DescendantsOf(g, cs, h) && !IsTransparentBackground(v)
    decreases h + 1, 0, |cs|
  {
    var c := cs[0];
    var here := if IsTransparentBackground(c) then [] else [c] + Visible(g, Id(c), h);
    if v in here {
      if v != c {
        VisibleWithinDescendants(g, Id(c), h, v);
      }
    } else {
      assert v in VisibleOf(g, cs[1..], h);
      VisibleOfWithinDescendantsOf(g, cs[1..], h, v);
    }
  }

  /** The result is absent exactly when no visible BOOLEAN_OPERATION or VECTOR has a fill
      colour; when present it is the first fill colour of such a record strictly below `id`,
      never of `id` itself nor of a transparent background. */
  lemma PrimaryColorSource(g: Graph, id: Guid, h: nat)
    requires DepthAtMost(g, id, h)
    ensures PrimaryColorOf(g, id, h).None? <==>
      forall v :: v in Visible(g, id, h) ==> !HasFillColor(v)
    ensures PrimaryColorOf(g, id, h).Some? ==>
              exists v :: && v in Descendants(g, id, h) && Id(v) != id
                          && !IsTransparentBackground(v) && HasFillColor(v)
                          && PrimaryColorOf(g, id, h) == FirstFillColor(v.fillPaints)
  {
    PrimaryColorIsFirstVisible(g, id, h);
    var s := Visible(g, id, h);
    FirstShapeColorSpec(s);
    if PrimaryColorOf(g, id, h).Some? {
      var i :| FirstFilledAt(s, i) && PrimaryColorOf(g, id, h) == FirstFillColor(s[i].fillPaints);
      VisibleWithinDescendants(g, id, h, s[i]);
      RootNotBelow(g, id, h, s[i]);
    }
  }

  /** A filled BOOLEAN_OPERATION or VECTOR as first child decides: the answer is its first
      fill colour, whatever its later siblings are and whatever lies below it. */
  lemma FilledFirstChildAnswers(g: Graph, id: Guid, h: nat)
    requires DepthAtMost(g, id, h)
    requires Children(g, id) != [] && HasFillColor(Children(g, id)[0])
    ensures PrimaryColorOf(g, id, h) == FirstFillColor(Children(g, id)[0].fillPaints)
  {
    var cs := Children(g, id);
    assert !IsTransparentBackground(cs[0]);
    assert ScanChildren(g, cs, h - 1) == FirstFillColor(cs[0].fillPaints);
  }
}
