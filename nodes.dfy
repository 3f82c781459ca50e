/** Decoded node-change records, as the icon classifier reads them. */
module Nodes {

  datatype Option<+T> = None | Some(value: T)

  function GetOr<T>(o: Option<T>, default: T): T
  {
    match o
    case Some(v) => v
    case None => default
  }

  /** The key the classifier builds for a node, the string `"sessionID:localID"`.
      Rendering two integers around a colon is injective, so the pair stands for the string. */
  datatype Guid = Guid(sessionID: int, localID: int)

  /** A `guid` object as decoded: either part may be missing. A missing object reads as
      one with both parts missing. */
  datatype RawGuid = RawGuid(sessionID: Option<int>, localID: Option<int>)

  const NoGuid := RawGuid(None, None)

  /** Missing parts default to 0. */
  function Key(g: RawGuid): Guid
  {
    Guid(GetOr(g.sessionID, 0), GetOr(g.localID, 0))
  }

  /** The key under which records without a parent are filed. */
  const RootKey := Guid(0, 0)

  /** A record without a parent is filed under `0:0`; present parts are kept as they are. */
  lemma KeyDefaults(s: int, l: int)
    ensures Key(NoGuid) == RootKey
    ensures Key(RawGuid(Some(s), Some(l))) == Guid(s, l)
    ensures Key(RawGuid(None, Some(l))) == Guid(0, l) && Key(RawGuid(Some(s), None)) == Guid(s, 0)
  {
  }

  /** The node types the classifier tells apart; every other tag, and a missing one, is `Other`. */
  datatype NodeType = Frame | Vector | BooleanOperation | RoundedRectangle | Other

  /** A colour whose components have already been read (missing ones as 0). */
  datatype Color = Color(r: real, g: real, b: real)

  /** A paint; `color` is None when the paint has no colour or an empty one. */
  datatype Paint = Paint(color: Option<Color>)

  /** A `size` object; either side may be missing. */
  datatype Size = Size(x: Option<real>, y: Option<real>)

  /** One node-change record. A missing `name` reads as "", missing `fillPaints` and
      `strokePaints` as [], and the optional fields keep their absence for the readers below. */
  datatype NodeChange = NodeChange(
    guid: RawGuid,
    parent: RawGuid,          // parentIndex.guid; NoGuid when absent
    nodeType: NodeType,
    name: string,
    size: Size,
    opacity: Option<real>,
    fillPaints: seq<Paint>,
    strokePaints: seq<Paint>)

  function Id(n: NodeChange): Guid { Key(n.guid) }

  function ParentId(n: NodeChange): Guid { Key(n.parent) }

  /** A missing side counts as 999, so such a node is never small. */
  function Width(n: NodeChange): real { GetOr(n.size.x, 999.0) }

  function Height(n: NodeChange): real { GetOr(n.size.y, 999.0) }

  function Opacity(n: NodeChange): real { GetOr(n.opacity, 1.0) }

  /** VECTOR or BOOLEAN_OPERATION: the shapes whose presence makes a frame an icon. */
  predicate IsVectorLike(n: NodeChange)
  {
    n.nodeType == Vector || n.nodeType == BooleanOperation
  }

  /** A ROUNDED_RECTANGLE with opacity below 0.01, taken for an invisible background. */
  predicate IsTransparentBackground(n: NodeChange)
  {
    n.nodeType == RoundedRectangle && Opacity(n) < 0.01
  }

  /** A record without an opacity counts as fully opaque, so it is never a transparent
      background; a present opacity is used as it is. */
  lemma OpacityDefault(n: NodeChange)
    ensures n.opacity.None? ==> Opacity(n) == 1.0 && !IsTransparentBackground(n)
    ensures n.opacity.Some? ==> Opacity(n) == n.opacity.value
  {
  }
}
