/** The state the frame loop keeps across frames (glyph-canvas lines 250-269)
    and what it reads in one frame. */
module State {
  import opened Base
  import opened Items
  import opened Actions
  import opened Camera

  /** The mutually exclusive states of `appStateValue`. */
  datatype Primary =
    | Default | BoxSelecting | ContourSelected | DraggingContourPoint
    | SkeletonPointSelected | ContourPointSelected | DraggingContour
    | PointsSelected | DraggingPoints | Moving
    | ComponentHovered | ComponentMenuHovered

  /** `appStateValue`: one primary state plus the ZOOMING bit. The source also
      names HANDLE_MOD_SMOOTH_MODIFIER and SKELETON_DISTR bits, but nothing in
      the frame loop ever sets them, so they are always clear. */
  datatype AppState = AppState(primary: Primary, zooming: bool)

  /** `appStateValue = appState.X`: the assignment also clears ZOOMING. */
  function Set(p: Primary): AppState
  {
    AppState(p, false)
  }

  /** `appStateValue & appState.X`. */
  predicate Has(a: AppState, p: Primary)
  {
    a.primary == p
  }

  /** `appStateValue === appState.X`: a lingering ZOOMING bit makes it false. */
  predicate Is(a: AppState, p: Primary)
  {
    a == Set(p)
  }

  /** `mouse.edge`. */
  datatype Edge = NoEdge | EdgeDown | EdgeUp

  /** toile's mouse state: screen position, frame delta, wheel delta, button
      state (`state === mState.DOWN`) and edge. */
  datatype Pointer = Pointer(pos: Vec, delta: Vec, wheel: real, down: bool, edge: Edge)

  /** Everything one frame reads from the outside world. Key codes are 0 when
      no key edge was recorded. `boxHits` is what the hit tester reports for the
      box origin held at the start of the frame; `centre` is the translation
      toile computes to centre the camera on the glyph's bounding box; `now` is
      the time in milliseconds, used by the double-click timer. */
  datatype Frame = Frame(
    pointer: Pointer,
    keyDown: int,
    keyUp: int,
    hot: seq<Item>,
    boxHits: seq<Item>,
    canvasMode: ModeName,
    glyph: Option<Glyph>,
    glyphChanged: bool,
    now: int,
    centre: Vec)

  /** The closure state of the frame loop. `halted` records that a frame
      threw: the loop is then never rescheduled. */
  datatype Model = Model(
    app: AppState,               // appStateValue
    selected: seq<Item>,         // selectedItems
    contour: Option<Item>,       // contourSelected
    contourIndex: nat,           // contourSelectedIndex
    boxStart: Option<Vec>,       // mouseBoxStart
    oldMode: Option<ModeName>,   // oldAppMode
    oldApp: Option<AppState>,    // oldAppState
    hovered: Option<Item>,       // componentHovered ({} is None)
    view: View,                  // the toile camera
    prevDown: bool,              // oldMouse.state === mState.DOWN
    armedAt: Option<int>,        // when mouseDoubleClick was last armed
    resetPending: bool,          // this.resetAppMode
    halted: bool)

  /** The state right after the canvas mounts. */
  const Initial := Model(Set(Default), [], None, 0, None, None, None, None, InitialView,
                         false, None, false, false)

  /** What every reachable state satisfies: the zoom is within its bounds and
      the saved mode and saved state are set and cleared together. */
  ghost predicate Inv(m: Model)
  {
    && MinZoom <= m.view.zoom <= MaxZoom
    && (m.oldMode.Some? <==> m.oldApp.Some?)
  }

  /** The double-click flag: armed for 400 ms after a pointer-down. */
  predicate Armed(armedAt: Option<int>, now: int)
  {
    armedAt.Some? && now - armedAt.value < 400
  }

  /** `appStateValue & (CONTOUR_SELECTED | DRAGGING_CONTOUR_POINT |
      CONTOUR_POINT_SELECTED | DRAGGING_CONTOUR | SKELETON_POINT_SELECTED)`,
      the states that draw the selected contour (lines 645-653). */
  predicate InContourState(a: AppState)
  {
    || a.primary == ContourSelected || a.primary == DraggingContourPoint
    || a.primary == ContourPointSelected || a.primary == DraggingContour
    || a.primary == SkeletonPointSelected
  }

  /** `appStateValue & (DRAGGING_CONTOUR_POINT | DRAGGING_POINTS |
      DRAGGING_CONTOUR)` (lines 815-821). */
  predicate InDraggingState(a: AppState)
  {
    a.primary == DraggingContourPoint || a.primary == DraggingPoints || a.primary == DraggingContour
  }

  /** `appStateValue & (POINTS_SELECTED | CONTOUR_POINT_SELECTED |
      SKELETON_POINT_SELECTED)` (lines 722-728 and 835-841). */
  predicate InPointSelectedState(a: AppState)
  {
    a.primary == PointsSelected || a.primary == ContourPointSelected || a.primary == SkeletonPointSelected
  }

  /** A frame in progress: the closure state, the resolved `appMode` and the
      actions dispatched so far, in order. */
  datatype Stage = Stage(m: Model, mode: ModeName, out: seq<Action>)
}
