/** The camera rule of the frame loop (glyph-canvas lines 778-811): pan by the
    pointer delta while moving, zoom about the pointer while the wheel turns. */
module Camera {
  import opened Base

  /** The view matrix as the frame loop reads it, `[z,,,, tx, ty]`. */
  datatype View = View(zoom: real, translation: Vec)

  /** The screen-to-glyph transform and the translation of the composed zoom
      matrix: toile's `transformCoords`/`inverseProjectionMatrix` and
      `changeTransformOrigin`/`matrixMul`, whose code is not part of this
      model. `zoomTranslation(view, pointer, s)` is the translation of the
      view scaled by `s` about the pointer. */
  datatype Projection = Projection(
    toWorld: (View, Vec) -> Vec,
    zoomTranslation: (View, Vec, real) -> Vec)

  const MinZoom: real := 0.1
  const MaxZoom: real := 10.0

  /** The camera set up when the canvas mounts (line 233). */
  const InitialView := View(1.0, Vec(0.0, 0.0))

  /** The camera centred on the glyph's bounding box at zoom 0.5 after a
      double click (lines 327-333); `centre` is the translation toile derives. */
  function Recentred(centre: Vec): (v: View)
    ensures MinZoom <= v.zoom <= MaxZoom
    ensures v.zoom == 0.5 && v.translation == centre
  {
    View(0.5, centre)
  }

  /** `Math.max(0.1, Math.min(10, zoom))` (line 805). */
  function Clamp(z: real): (r: real)
    ensures MinZoom <= r <= MaxZoom
    ensures MinZoom <= z <= MaxZoom ==> r == z
    ensures z < MinZoom ==> r == MinZoom
    ensures z > MaxZoom ==> r == MaxZoom
  {
    if z > MaxZoom then MaxZoom else if z < MinZoom then MinZoom else z
  }

  /** Panning (lines 778-792): the translation moves by the pointer delta. */
  function Pan(v: View, delta: Vec): (r: View)
    ensures r.zoom == v.zoom
    ensures Sub(r.translation, v.translation) == delta
  {
    View(v.zoom, Add(v.translation, delta))
  }

  /** The wheel's scale factor, `1 + wheel / 1000` (line 802). */
  function WheelScale(wheel: real): real
  {
    1.0 + wheel / 1000.0
  }

  /** One zoom step (lines 793-811): scale about the pointer, clamp the zoom
      and keep the old translation when the clamped zoom equals the old one. */
  function ZoomStep(p: Projection, v: View, pointer: Vec, wheel: real): (r: View)
    ensures MinZoom <= r.zoom <= MaxZoom
    ensures r.zoom == Clamp(WheelScale(wheel) * v.zoom)
    ensures r.zoom == v.zoom ==> r.translation == v.translation
    ensures r.zoom != v.zoom ==> r.translation == p.zoomTranslation(v, pointer, WheelScale(wheel))
  {
    var s := WheelScale(wheel);
    var clamped := Clamp(s * v.zoom);
    View(clamped, if v.zoom == clamped then v.translation else p.zoomTranslation(v, pointer, s))
  }

  /** Inside the bounds the zoom step really scales: the zoom becomes
      `(1 + wheel / 1000) * zoom` and the translation the composed one. */
  lemma ZoomScalesWithinBounds(p: Projection, v: View, pointer: Vec, wheel: real)
    requires MinZoom <= WheelScale(wheel) * v.zoom <= MaxZoom
    requires WheelScale(wheel) * v.zoom != v.zoom
    ensures ZoomStep(p, v, pointer, wheel) == View(WheelScale(wheel) * v.zoom, p.zoomTranslation(v, pointer, WheelScale(wheel)))
  {
    ScaledClampIdentity(WheelScale(wheel) * v.zoom, v.zoom);
  }

  lemma ScaledClampIdentity(z: real, prev: real)
    requires MinZoom <= z <= MaxZoom && z != prev
    ensures Clamp(z) == z && prev != Clamp(z)
  {
  }

  /** A camera pinned at a zoom bound stays exactly where it is, zoom and
      translation, when the wheel keeps pushing past that bound. */
  lemma ZoomPinnedAtBound(p: Projection, v: View, pointer: Vec, wheel: real)
    requires (v.zoom == MinZoom && WheelScale(wheel) * v.zoom <= MinZoom)
          || (v.zoom == MaxZoom && WheelScale(wheel) * v.zoom >= MaxZoom)
    ensures ZoomStep(p, v, pointer, wheel) == v
  {
  }

  /** Any number of zoom steps that all push past the lower bound, starting at
      it, leave the camera unchanged. */
  lemma {:induction false} RepeatedZoomOutPinned(p: Projection, v: View, pointer: Vec, wheels: seq<real>)
    requires v.zoom == MinZoom
    requires forall i :: 0 <= i < |wheels| ==> wheels[i] <= 0.0
    ensures Zooms(p, v, pointer, wheels) == v
    decreases |wheels|
  {
    if wheels != [] {
      assert WheelScale(wheels[0]) <= 1.0;
      assert WheelScale(wheels[0]) * v.zoom <= MinZoom;
      ZoomPinnedAtBound(p, v, pointer, wheels[0]);
      RepeatedZoomOutPinned(p, v, pointer, wheels[1..]);
    }
  }

  /** Likewise at the upper bound: zoom-in steps that all push past it leave
      the camera unchanged. */
  lemma {:induction false} RepeatedZoomInPinned(p: Projection, v: View, pointer: Vec, wheels: seq<real>)
    requires v.zoom == MaxZoom
    requires forall i :: 0 <= i < |wheels| ==> wheels[i] >= 0.0
    ensures Zooms(p, v, pointer, wheels) == v
    decreases |wheels|
  {
    if wheels != [] {
      assert WheelScale(wheels[0]) >= 1.0;
      assert WheelScale(wheels[0]) * v.zoom >= MaxZoom;
      ZoomPinnedAtBound(p, v, pointer, wheels[0]);
      RepeatedZoomInPinned(p, v, pointer, wheels[1..]);
    }
  }

  /** Zoom steps applied in turn, with the pointer held still. */
  function Zooms(p: Projection, v: View, pointer: Vec, wheels: seq<real>): View
    decreases |wheels|
  {
    if wheels == [] then v else Zooms(p, ZoomStep(p, v, pointer, wheels[0]), pointer, wheels[1..])
  }
}
