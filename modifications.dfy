/** The geometric modification engine (glyph-canvas lines 22-174): pure
    functions from a dragged item's base snapshot and the pointer's glyph-space
    position to the change-set the source dispatches as
    '/change-glyph-node-manually'. A result of `None` stands for the
    TypeError the source throws when a `_get` lookup it dereferences misses. */
module Modifications {
  import opened Base
  import opened Items
  import opened Actions

  /** `transforms.indexOf(axis) === -1 ? 1 : -1`. */
  function Mirror(transforms: seq<string>, axis: string): (k: real)
    ensures k * k == 1.0
    ensures k < 0.0 <==> axis in transforms
  {
    if axis in transforms then -1.0 else 1.0
  }

  /** A vector with each axis flipped when the glyph is mirrored along it
      (lines 34-39 and 137-138). */
  function Unmirror(v: Vec, transforms: seq<string>): (r: Vec)
    ensures r.x == (if "scaleX" in transforms then -v.x else v.x)
    ensures r.y == (if "scaleY" in transforms then -v.y else v.y)
  {
    Vec(v.x * Mirror(transforms, "scaleX"), v.y * Mirror(transforms, "scaleY"))
  }

  /** Flipping twice gives the vector back. */
  lemma UnmirrorInvolutive(v: Vec, transforms: seq<string>)
    ensures Unmirror(Unmirror(v, transforms), transforms) == v
  {
  }

  // ---------------------------------------------------------------- handles

  datatype Side = In | Out

  function SideName(s: Side): string
  {
    match s
    case In => "In"
    case Out => "Out"
  }

  function OppositeSide(s: Side): Side
  {
    match s
    case In => Out
    case Out => In
  }

  /** Lines 53-54: in-handles write the `In` fields, every other handle `Out`. */
  function SideOf(t: ItemType): Side
  {
    if t == NodeIn || t == ContourNodeIn then In else Out
  }

  function BaseDir(n: GlyphNode, s: Side): real
  {
    match s
    case In => n.baseDirIn
    case Out => n.baseDirOut
  }

  function BaseTension(n: GlyphNode, s: Side): real
  {
    match s
    case In => n.baseTensionIn
    case Out => n.baseTensionOut
  }

  function Dir(n: GlyphNode, s: Side): real
  {
    match s
    case In => n.dirIn
    case Out => n.dirOut
  }

  /** The tension of a handle dragged to `q` from its parent point `p`, with
      `intersection` the meeting point of the two handle rays (lines 42-51).
      A zero distance to the intersection is read as 1. */
  function RawTension(o: Oracle, p: Vec, q: Vec, intersection: Vec): (r: real)
    ensures var d := o.distance(intersection, p);
      (if d != 0.0 then d else 1.0) * (if Dot(Sub(p, intersection), Sub(q, p)) > 0.0 then -r else r)
        == o.distance(q, p)
  {
    var toIntersection := o.distance(intersection, p);
    var t := o.distance(q, p) / (if toIntersection != 0.0 then toIntersection else 1.0);
    if Dot(Sub(p, intersection), Sub(q, p)) > 0.0 then -t else t
  }

  /** The tension is negative exactly when the handle has been pulled past the
      intersection point, i.e. when `(p - intersection) . (q - p) > 0`. */
  lemma TensionSign(o: Oracle, p: Vec, q: Vec, intersection: Vec)
    requires Metric(o)
    requires o.distance(q, p) > 0.0
    ensures RawTension(o, p, q, intersection) < 0.0 <==> Dot(Sub(p, intersection), Sub(q, p)) > 0.0
    ensures RawTension(o, p, q, intersection) != 0.0
  {
    var d := o.distance(intersection, p);
    assert d >= 0.0;
    var den := if d != 0.0 then d else 1.0;
    assert den > 0.0;
    var t := o.distance(q, p) / den;
    assert t > 0.0 by { PositiveQuotient(o.distance(q, p), den); }
  }

  lemma PositiveQuotient(a: real, b: real)
    requires a > 0.0 && b > 0.0
    ensures a / b > 0.0
  {
  }

  /** Two drags on opposite sides of the parent point with respect to the
      intersection produce tensions of opposite signs. */
  lemma TensionFlipsAcrossIntersection(o: Oracle, p: Vec, ahead: Vec, iAhead: Vec, behind: Vec, iBehind: Vec)
    requires Metric(o)
    requires o.distance(ahead, p) > 0.0 && o.distance(behind, p) > 0.0
    requires Dot(Sub(p, iAhead), Sub(ahead, p)) > 0.0
    requires Dot(Sub(p, iBehind), Sub(behind, p)) <= 0.0
    ensures RawTension(o, p, ahead, iAhead) < 0.0 < RawTension(o, p, behind, iBehind)
  {
    TensionSign(o, p, ahead, iAhead);
    TensionSign(o, p, behind, iBehind);
  }

  /** The stored tension, `tension / (0.6 * (baseTension || 1 / 0.6))`
      (line 85). */
  function NormalisedTension(tension: real, baseTension: real): (r: real)
    ensures baseTension == 0.0 ==> r == tension
    ensures baseTension != 0.0 ==> r * (0.6 * baseTension) == tension
  {
    tension / (0.6 * (if baseTension != 0.0 then baseTension else 1.0 / 0.6))
  }

  /** The addresses a handle drag writes. With the smoothing modifier the
      opposite handle's angle goes to `parentId.In`/`parentId.Out` (line 89),
      not to its `dir` field. */
  function HandleKeys(parentId: string, s: Side, smooth: bool): set<string>
  {
    {parentId + ".dir" + SideName(s), parentId + ".tension" + SideName(s)}
    + (if smooth then {parentId + "." + SideName(OppositeSide(s))} else {})
  }

  lemma HandleKeysCount(parentId: string, s: Side, smooth: bool)
    ensures |HandleKeys(parentId, s, smooth)| == if smooth then 3 else 2
  {
    var d := parentId + ".dir" + SideName(s);
    var t := parentId + ".tension" + SideName(s);
    var m := parentId + "." + SideName(OppositeSide(s));
    assert |d| != |t| && |d| != |m| && |t| != |m|;
  }

  /** changesDirOfHandle (lines 70-96). `node` is the skeleton node whose
      opposite direction the smoothing modifier reads. */
  function ChangesDirOfHandle(item: Item, s: Side, angle: real, tension: real,
                              node: Option<GlyphNode>, parent: GlyphNode, smooth: bool): (r: Option<ChangeSet>)
    ensures r.None? <==> smooth && node.None?
    ensures r.Some? ==> r.value.Keys == HandleKeys(item.data.parentId, s, smooth)
    ensures r.Some? ==> r.value[item.data.parentId + ".dir" + SideName(s)] == Num(angle - BaseDir(parent, s))
    ensures r.Some? ==> r.value[item.data.parentId + ".tension" + SideName(s)]
                        == Num(NormalisedTension(tension, BaseTension(parent, s)))
  {
    var pid := item.data.parentId;
    var dirKey := pid + ".dir" + SideName(s);
    var tensionKey := pid + ".tension" + SideName(s);
    assert |dirKey| != |tensionKey|;
    var changes := map[dirKey := Num(angle - BaseDir(parent, s)),
                       tensionKey := Num(NormalisedTension(tension, BaseTension(parent, s)))];
    if !smooth then Some(changes)
    else if node.None? then None
    else
      var oppositeKey := pid + "." + SideName(OppositeSide(s));
      assert |oppositeKey| != |dirKey| && |oppositeKey| != |tensionKey|;
      Some(changes[oppositeKey := Num(angle - Dir(node.value, OppositeSide(s)))])
  }

  /** The handle's angle: `atan2` of the mirror-corrected vector from the
      parent point to the pointer (lines 33-40). */
  function HandleAngle(o: Oracle, item: Item, parent: GlyphNode, newPos: Vec): (r: real)
    ensures r == o.atan2(Mirror(item.data.transforms, "scaleY") * (newPos.y - parent.pos.y),
                         Mirror(item.data.transforms, "scaleX") * (newPos.x - parent.pos.x))
  {
    var v := Unmirror(Sub(newPos, parent.pos), item.data.transforms);
    o.atan2(v.y, v.x)
  }

  /** Mirroring the glyph horizontally and the pointer with it about the
      parent point leaves the handle's angle unchanged: the mirror
      correction undoes the reflection. */
  lemma HandleAngleMirrored(o: Oracle, item: Item, parent: GlyphNode, newPos: Vec)
    requires "scaleX" !in item.data.transforms
    ensures var mirrored := item.(data := item.data.(transforms := item.data.transforms + ["scaleX"]));
      var reflected := Vec(2.0 * parent.pos.x - newPos.x, newPos.y);
      HandleAngle(o, mirrored, parent, reflected) == HandleAngle(o, item, parent, newPos)
  {
    var ts := item.data.transforms;
    assert "scaleX" in ts + ["scaleX"];
    assert ("scaleY" in ts + ["scaleX"]) <==> "scaleY" in ts;
  }

  /** handleModification (lines 27-68). `contour` is set for contour handles,
      whose skeleton node is their parent. */
  function HandleModification(o: Oracle, g: Glyph, item: Item, newPos: Vec, smooth: bool, contour: bool): (r: Option<ChangeSet>)
    ensures r.None? <==>
      item.data.parentId !in g.nodes
      || (smooth && (if contour then item.data.parentId else item.data.skeletonId) !in g.nodes)
    ensures r.Some? ==> r.value.Keys == HandleKeys(item.data.parentId, SideOf(item.kind), smooth)
    ensures r.Some? ==> forall k :: k in r.value ==> r.value[k].Num?
  {
    match Lookup(g, item.data.parentId)
    case None => None
    case Some(parent) =>
      var node := if contour then Lookup(g, item.data.parentId) else Lookup(g, item.data.skeletonId);
      var angle := HandleAngle(o, item, parent, newPos);
      var tension := StoredRawTension(o, item, parent, newPos);
      ChangesDirOfHandle(item, SideOf(item.kind), angle, tension, node, parent, smooth)
  }

  /** Without the smoothing modifier a handle drag writes the direction and
      tension of its own side, both finite, and nothing else. */
  lemma HandleDragWritesOwnSide(o: Oracle, g: Glyph, item: Item, newPos: Vec, contour: bool)
    requires item.data.parentId in g.nodes
    ensures var r := HandleModification(o, g, item, newPos, false, contour);
      && r.Some?
      && |r.value| == 2
      && var pid := item.data.parentId;
         var side := SideName(SideOf(item.kind));
         && r.value.Keys == {pid + ".dir" + side, pid + ".tension" + side}
         && r.value[pid + ".dir" + side]
              == Num(HandleAngle(o, item, g.nodes[pid], newPos) - BaseDir(g.nodes[pid], SideOf(item.kind)))
         && r.value[pid + ".tension" + side]
              == Num(NormalisedTension(StoredRawTension(o, item, g.nodes[pid], newPos),
                                       BaseTension(g.nodes[pid], SideOf(item.kind))))
  {
    HandleKeysCount(item.data.parentId, SideOf(item.kind), false);
  }

  /** The raw tension of a handle of `item` dragged to `newPos`, against the
      intersection of its ray with the other handle's. */
  function StoredRawTension(o: Oracle, item: Item, parent: GlyphNode, newPos: Vec): real
  {
    RawTension(o, parent.pos, newPos, HandleIntersection(o, item, parent, newPos))
  }

  /** Where the dragged handle's ray meets the other handle's. */
  function HandleIntersection(o: Oracle, item: Item, parent: GlyphNode, newPos: Vec): Vec
  {
    o.rayRay(parent.pos, HandleAngle(o, item, parent, newPos), item.data.otherNode, item.data.otherDir)
  }

  /** The tension that a handle drag stores and sends is negative exactly
      when the handle has been pulled past the intersection of the two
      handle rays, and is never zero, for a handle of positive length whose
      base tension is not negative. */
  lemma StoredTensionSign(o: Oracle, g: Glyph, item: Item, newPos: Vec, contour: bool)
    requires Metric(o)
    requires item.data.parentId in g.nodes
    requires o.distance(newPos, g.nodes[item.data.parentId].pos) > 0.0
    requires BaseTension(g.nodes[item.data.parentId], SideOf(item.kind)) >= 0.0
    ensures var pid := item.data.parentId;
      var parent := g.nodes[pid];
      var t := HandleModification(o, g, item, newPos, false, contour).value[pid + ".tension" + SideName(SideOf(item.kind))];
      var at := HandleIntersection(o, item, parent, newPos);
      && t.Num? && t.r != 0.0
      && (t.r < 0.0 <==> Dot(Sub(parent.pos, at), Sub(newPos, parent.pos)) > 0.0)
  {
    var parent := g.nodes[item.data.parentId];
    HandleDragWritesOwnSide(o, g, item, newPos, contour);
    var raw := StoredRawTension(o, item, parent, newPos);
    TensionSign(o, parent.pos, newPos, HandleIntersection(o, item, parent, newPos));
    var b := BaseTension(parent, SideOf(item.kind));
    var den := 0.6 * (if b != 0.0 then b else 1.0 / 0.6);
    assert den > 0.0;
    QuotientSign(raw, den);
  }

  /** Dividing by a positive number keeps the sign. */
  lemma QuotientSign(a: real, b: real)
    requires b > 0.0 && a != 0.0
    ensures a / b != 0.0
    ensures a / b < 0.0 <==> a < 0.0
  {
    assert a / b * b == a;
    if a < 0.0 {
      assert -a > 0.0;
      PositiveQuotient(-a, b);
      assert -a / b == -(a / b);
    } else {
      PositiveQuotient(a, b);
    }
  }

  // ------------------------------------------------------- on-curve nodes

  /** onCurveModification (lines 98-131). `widthMod` and `angleMod` are the
      WIDTH_MOD and ANGLE_MOD bits of `modToApply`. */
  function OnCurveModification(o: Oracle, g: Glyph, item: Item, newPos: Vec, widthMod: bool, angleMod: bool): (r: Option<ChangeSet>)
    ensures r.None? <==> item.data.oppositeId !in g.nodes
    ensures r.Some? ==>
      var addr := item.data.modifAddress;
      && (addr + ".width" in r.value <==> widthMod)
      && (addr + ".angle" in r.value <==> angleMod)
      && r.value.Keys <= {addr + ".width", addr + ".angle"}
      && (widthMod ==> (r.value[addr + ".width"].NonFinite? <==> item.data.baseWidth == 0.0))
      && (widthMod && r.value[addr + ".width"].Num? ==>
            r.value[addr + ".width"].r * item.data.baseWidth
              == o.distance(g.nodes[item.data.oppositeId].pos, newPos))
      && (angleMod ==> r.value[addr + ".angle"].Num?)
  {
    match Lookup(g, item.data.oppositeId)
    case None => None
    case Some(opposite) =>
      var addr := item.data.modifAddress;
      var factor := Div(o.distance(opposite.pos, newPos), item.data.baseWidth);
      var v := Sub(newPos, item.data.skeleton);
      var angleDiff := o.atan2(v.y, v.x) - item.data.baseAngle;
      var widthKey := addr + ".width";
      var angleKey := addr + ".angle";
      assert widthKey != angleKey by { assert widthKey[|addr| + 1] != angleKey[|addr| + 1]; }
      var withWidth: ChangeSet := if widthMod then map[widthKey := factor] else map[];
      Some(if angleMod then withWidth[angleKey := Num(angleDiff + item.data.angleOffset)] else withWidth)
  }

  // ------------------------------------------------- skeleton positions

  /** skeletonPosModification (lines 133-147). */
  function SkeletonPosModification(item: Item, newPos: Vec): (r: ChangeSet)
    ensures var addr := item.data.modifAddress;
      && r.Keys == {addr + "x", addr + "y"}
      && |r| == 2
      && r[addr + "x"] == Num(if "scaleX" in item.data.transforms then -(newPos.x - item.data.base.x)
                              else newPos.x - item.data.base.x)
      && r[addr + "y"] == Num(if "scaleY" in item.data.transforms then -(newPos.y - item.data.base.y)
                              else newPos.y - item.data.base.y)
  {
    var addr := item.data.modifAddress;
    var v := Unmirror(Sub(newPos, item.data.base), item.data.transforms);
    assert addr + "x" != addr + "y" by { assert (addr + "x")[|addr|] != (addr + "y")[|addr|]; }
    map[addr + "x" := Num(v.x), addr + "y" := Num(v.y)]
  }

  /** Reading the offsets back through the same mirroring and adding them to
      the base position gives the pointer position: the change-set puts the
      node under the pointer. */
  lemma SkeletonPosRoundTrip(item: Item, newPos: Vec)
    ensures var r := SkeletonPosModification(item, newPos);
      var addr := item.data.modifAddress;
      Add(item.data.base, Unmirror(Vec(r[addr + "x"].r, r[addr + "y"].r), item.data.transforms)) == newPos
  {
    var r := SkeletonPosModification(item, newPos);
    var addr := item.data.modifAddress;
    var off := Vec(r[addr + "x"].r, r[addr + "y"].r);
    assert off == Unmirror(Sub(newPos, item.data.base), item.data.transforms);
    UnmirrorInvolutive(Sub(newPos, item.data.base), item.data.transforms);
  }

  // ----------------------------------------------- skeleton distribution

  function Min(a: real, b: real): real { if a <= b then a else b }
  function Max(a: real, b: real): real { if a >= b then a else b }

  /** The distance along the skeleton segment at which the pointer projects,
      `Math.min(Math.max(proj, 0), width)` (lines 157-160). */
  function DistrProjection(o: Oracle, item: Item, newPos: Vec): (d: real)
    ensures item.data.width >= 0.0 ==> 0.0 <= d <= item.data.width
    ensures item.data.width < 0.0 ==> d == item.data.width
  {
    var dir := o.normalize(Sub(item.data.expandedTo, item.data.expandedFrom));
    Min(Max(Dot(Sub(newPos, item.data.expandedFrom), dir), 0.0), item.data.width)
  }

  /** skeletonDistrModification (lines 149-174): the distribution fraction
      relative to the base one, and the x/y offset that keeps the point at
      the projected location. */
  function SkeletonDistrModification(o: Oracle, item: Item, newPos: Vec): (r: ChangeSet)
    ensures var addr := item.data.modifAddress;
      && r.Keys == {addr + "expand.distr", addr + "x", addr + "y"}
      && |r| == 3
      && r[addr + "x"].Num? && r[addr + "y"].Num?
      && (r[addr + "expand.distr"].NonFinite? <==> item.data.width == 0.0)
  {
    var addr := item.data.modifAddress;
    var dir := o.normalize(Sub(item.data.expandedTo, item.data.expandedFrom));
    var d := DistrProjection(o, item, newPos);
    var offset := Sub(Add(Scale(d, dir), item.data.expandedFrom), item.data.base);
    var distrKey := addr + "expand.distr";
    assert |distrKey| != |addr + "x"|;
    assert addr + "x" != addr + "y" by { assert (addr + "x")[|addr|] != (addr + "y")[|addr|]; }
    map[distrKey := Minus(Div(d, item.data.width), item.data.baseDistr),
        addr + "x" := Num(offset.x),
        addr + "y" := Num(offset.y)]
  }

  /** On a segment of positive width the written fraction lies within
      [-baseDistr, 1 - baseDistr], and base plus the written offset is the
      projected point on the segment. */
  lemma DistrStaysOnSegment(o: Oracle, item: Item, newPos: Vec)
    requires item.data.width > 0.0
    ensures var r := SkeletonDistrModification(o, item, newPos);
      var addr := item.data.modifAddress;
      var f := r[addr + "expand.distr"];
      var dir := o.normalize(Sub(item.data.expandedTo, item.data.expandedFrom));
      && f.Num?
      && -item.data.baseDistr <= f.r <= 1.0 - item.data.baseDistr
      && Add(item.data.base, Vec(r[addr + "x"].r, r[addr + "y"].r))
           == Add(Scale(DistrProjection(o, item, newPos), dir), item.data.expandedFrom)
  {
    var w := item.data.width;
    var d := DistrProjection(o, item, newPos);
    assert 0.0 <= d <= w;
    assert 0.0 <= d / w <= 1.0 by { FractionInUnit(d, w); }
  }

  lemma FractionInUnit(d: real, w: real)
    requires w > 0.0 && 0.0 <= d <= w
    ensures 0.0 <= d / w <= 1.0
  {
    assert d / w * w == d;
  }
}
