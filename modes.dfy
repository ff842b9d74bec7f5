/** The first level of the frame loop: the canvas mode, the space-bar
    override of it, and move mode (glyph-canvas lines 294-384). */
module Modes {
  import opened Base
  import opened Actions
  import opened State

  /** The switch over `this.state.canvasMode` (lines 294-305): any name but
      'components' and 'select-points' means move mode. */
  function ResolveMode(name: ModeName): (r: ModeName)
    ensures r != UnknownMode
    ensures name != UnknownMode ==> r == name
    ensures name == UnknownMode ==> r == MoveMode
  {
    match name
    case ComponentsMode => ComponentsMode
    case SelectPointsMode => SelectPointsMode
    case _ => MoveMode
  }

  /** Space released (lines 343-357): the mode saved at the press comes back
      raw, so with nothing saved (`undefined`) no mode branch runs this
      frame; the store is told the saved mode; the saved state comes back
      only for select-points; both saved values are cleared. Under `Inv` a
      saved mode always has a saved state beside it. */
  function SpaceUp(st: Stage, keyUp: int): (r: Stage)
    ensures keyUp != 32 ==> r == st
    ensures keyUp == 32 ==>
      && r.m.oldMode.None? && r.m.oldApp.None?
      && r.out == st.out + [StoreCanvasMode(st.m.oldMode)]
      && (st.m.oldMode.None? ==> r.mode == UnknownMode && r.m.app == st.m.app)
      && (st.m.oldMode.Some? ==> r.mode == st.m.oldMode.value)
      && (st.m.oldMode == Some(SelectPointsMode) && st.m.oldApp.Some? ==> r.m.app == st.m.oldApp.value)
      && (st.m.oldMode != Some(SelectPointsMode) ==> r.m.app == st.m.app)
      && r.m == st.m.(app := r.m.app, oldMode := None, oldApp := None)
  {
    if keyUp != 32 then st
    else
      var mode := if st.m.oldMode.Some? then st.m.oldMode.value else UnknownMode;
      var app := if mode == SelectPointsMode && st.m.oldApp.Some? then st.m.oldApp.value else st.m.app;
      Stage(st.m.(app := app, oldMode := None, oldApp := None), mode, st.out + [StoreCanvasMode(st.m.oldMode)])
  }

  /** Space pressed (lines 359-371): the store's mode and the current state
      are saved and this frame runs in move mode. */
  function SpaceDown(st: Stage, keyDown: int, canvasMode: ModeName): (r: Stage)
    ensures keyDown != 32 ==> r == st
    ensures keyDown == 32 ==>
      && r.mode == MoveMode
      && r.m.oldMode == Some(canvasMode) && r.m.oldApp == Some(st.m.app)
      && r.out == st.out + [StoreCanvasMode(Some(MoveMode))]
      && r.m == st.m.(oldMode := r.m.oldMode, oldApp := r.m.oldApp)
  {
    if keyDown != 32 then st
    else Stage(st.m.(oldMode := Some(canvasMode), oldApp := Some(st.m.app)), MoveMode,
               st.out + [StoreCanvasMode(Some(MoveMode))])
  }

  /** Releasing the space bar right after pressing it puts back the state
      it saved, and the mode too when the saved mode is a known one. */
  lemma SpaceTapRestores(st: Stage, canvasMode: ModeName)
    requires canvasMode == SelectPointsMode
    ensures var r := SpaceUp(SpaceDown(st, 32, canvasMode), 32);
      && r.m == st.m.(oldMode := None, oldApp := None)
      && r.mode == canvasMode
      && r.out == st.out + [StoreCanvasMode(Some(MoveMode)), StoreCanvasMode(Some(canvasMode))]
  {
  }

  /** Move mode (lines 375-384): MOVING while the button is down, DEFAULT
      otherwise; nothing else changes. */
  function MoveStep(m: Model, down: bool): (r: Model)
    ensures r.app == Set(Moving) <==> down
    ensures r.app == Set(Default) <==> !down
    ensures r == m.(app := r.app)
  {
    m.(app := if down then Set(Moving) else Set(Default))
  }
}
