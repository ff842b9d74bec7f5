/** The frame loop as the source runs it: the closure variables of
    componentDidMount become the fields of one object, and each call of
    rafFunc is a call of `Step`, which updates them stage by stage
    (glyph-canvas lines 250-1005). */
module Canvas {
  import opened Base
  import opened Items
  import opened Actions
  import opened Camera
  import opened State
  import opened Selection
  import opened Components
  import opened Modes
  import opened Keys
  import opened Loop

  /** `selectedItems.forEach(...)` of the Escape branch (lines 729-774). */
  method EscapeAll(items: seq<Item>, glyphName: string) returns (acts: seq<Action>)
    ensures acts == EscapeActions(items, glyphName)
  {
    acts := [];
    var i := 0;
    while i < |items|
      invariant 0 <= i <= |items|
      invariant acts + EscapeActions(items[i..], glyphName) == EscapeActions(items, glyphName)
    {
      assert items[i..][1..] == items[i + 1..];
      match EscapeChanges(items[i]) {
        case Some(c) => acts := acts + [ChangeGlyphNode(c, glyphName)];
        case None =>
      }
      i := i + 1;
    }
    assert items[i..] == [];
  }

  /** `selectedItems.map(...)` of a drag (lines 823-833). */
  method DragAll(items: seq<Item>, at: Vec) returns (its: seq<Interaction>)
    ensures its == DragTargets(items, at)
  {
    its := [];
    var i := 0;
    while i < |items|
      invariant 0 <= i <= |items|
      invariant its + DragTargets(items[i..], at) == DragTargets(items, at)
    {
      assert items[i..][1..] == items[i + 1..];
      its := its + [Interaction(items[i], at)];
      i := i + 1;
    }
    assert items[i..] == [];
  }

  /** `selectedItems.map(...)` of an arrow press (lines 842-866); `None`
      when `_get(glyph, item.id)` misses and `add2D` throws. */
  method ArrowAll(g: Glyph, items: seq<Item>, v: Vec) returns (its: Option<seq<Interaction>>)
    ensures its == ArrowTargets(g, items, v)
  {
    var acc: seq<Interaction> := [];
    var i := 0;
    assert items[0..] == items;
    assert ArrowTargets(g, items, v).Some? ==> [] + ArrowTargets(g, items, v).value == ArrowTargets(g, items, v).value;
    while i < |items|
      invariant 0 <= i <= |items|
      invariant ArrowTargets(g, items, v) == Prepend(acc, ArrowTargets(g, items[i..], v))
    {
      assert items[i..][1..] == items[i + 1..];
      if items[i].id !in g.nodes {
        assert ArrowTargets(g, items[i..], v) == None;
        return None;
      }
      var x := Interaction(items[i], Add(g.nodes[items[i].id].pos, v));
      var rest := ArrowTargets(g, items[i + 1..], v);
      assert ArrowTargets(g, items[i..], v) == Prepend([x], rest);
      if rest.Some? {
        assert acc + ([x] + rest.value) == (acc + [x]) + rest.value;
      }
      acc := acc + [x];
      i := i + 1;
    }
    assert items[i..] == [];
    assert acc + [] == acc;
    its := Some(acc);
  }

  /** `prefix` put in front of a result that may have thrown. */
  function Prepend(prefix: seq<Interaction>, r: Option<seq<Interaction>>): Option<seq<Interaction>>
  {
    if r.None? then None else Some(prefix + r.value)
  }

  /** `interactions.forEach(...)` (lines 880-964): dispatches the change-set
      of every interaction in turn and stops at the first that throws. */
  method DispatchAll(o: Oracle, g: Glyph, its: seq<Interaction>) returns (acts: seq<Action>, threw: bool)
    ensures (acts, threw) == Dispatch(o, g, its)
  {
    acts := [];
    var i := 0;
    assert its[0..] == its;
    assert [] + Dispatch(o, g, its).0 == Dispatch(o, g, its).0;
    while i < |its|
      invariant 0 <= i <= |its|
      invariant Dispatch(o, g, its) == (acts + Dispatch(o, g, its[i..]).0, Dispatch(o, g, its[i..]).1)
    {
      assert its[i..][1..] == its[i + 1..];
      var rest := Dispatch(o, g, its[i + 1..]);
      match ChangeFor(o, g, its[i]) {
        case Throws =>
          assert acts + [] == acts;
          return acts, true;
        case NoChange =>
        case Change(c) =>
          assert acts + ([ChangeGlyphNode(c, g.name)] + rest.0) == (acts + [ChangeGlyphNode(c, g.name)]) + rest.0;
          acts := acts + [ChangeGlyphNode(c, g.name)];
      }
      i := i + 1;
    }
    assert its[i..] == [];
    assert acts + [] == acts;
    threw := false;
  }

  class GlyphCanvas {
    var app: AppState                 // appStateValue
    var selected: seq<Item>           // selectedItems
    var contour: Option<Item>         // contourSelected
    var contourIndex: nat             // contourSelectedIndex
    var boxStart: Option<Vec>         // mouseBoxStart
    var oldMode: Option<ModeName>     // oldAppMode
    var oldApp: Option<AppState>      // oldAppState
    var hovered: Option<Item>         // componentHovered
    var view: View                    // the toile camera
    var prevDown: bool                // oldMouse.state === mState.DOWN
    var armedAt: Option<int>          // mouseDoubleClick, as its arming time
    var resetPending: bool            // this.resetAppMode
    var halted: bool                  // a frame threw; rafFunc is not rescheduled

    function State(): Model
      reads this
    {
      Model(app, selected, contour, contourIndex, boxStart, oldMode, oldApp, hovered, view,
            prevDown, armedAt, resetPending, halted)
    }

    ghost predicate Valid()
      reads this
    {
      Inv(State())
    }

    /** The state when the canvas mounts (lines 233 and 250-269). */
    constructor()
      ensures State() == Initial && Valid()
    {
      app := Set(Default);
      selected := [];
      contour := None;
      contourIndex := 0;
      boxStart := None;
      oldMode := None;
      oldApp := None;
      hovered := None;
      view := InitialView;
      prevDown := false;
      armedAt := None;
      resetPending := false;
      halted := false;
    }

    /** The glyph-change reset (lines 316-322). */
    method ApplyReset()
      modifies this
      ensures State() == ResetIfPending(old(State()))
    {
      if resetPending {
        app := Set(Default);
        selected := [];
        resetPending := false;
      }
    }

    /** The double click (lines 325-340). */
    method ApplyDoubleClick(f: Frame)
      modifies this
      ensures State() == DoubleClick(old(State()), f)
    {
      if f.pointer.edge == EdgeDown {
        if Armed(armedAt, f.now) {
          view := Recentred(f.centre);
        } else {
          armedAt := Some(f.now);
        }
      }
    }

    /** Space released (lines 343-357). */
    method ApplySpaceUp(keyUp: int, mode: ModeName, acts: seq<Action>) returns (mode': ModeName, acts': seq<Action>)
      modifies this
      ensures Stage(State(), mode', acts') == SpaceUp(Stage(old(State()), mode, acts), keyUp)
    {
      mode', acts' := mode, acts;
      if keyUp == 32 {
        mode' := if oldMode.Some? then oldMode.value else UnknownMode;
        acts' := acts + [StoreCanvasMode(oldMode)];
        if mode' == SelectPointsMode && oldApp.Some? {
          app := oldApp.value;
        }
        oldMode := None;
        oldApp := None;
      }
    }

    /** Space pressed (lines 359-371). */
    method ApplySpaceDown(keyDown: int, canvasMode: ModeName, mode: ModeName, acts: seq<Action>)
      returns (mode': ModeName, acts': seq<Action>)
      modifies this
      ensures Stage(State(), mode', acts') == SpaceDown(Stage(old(State()), mode, acts), keyDown, canvasMode)
    {
      mode', acts' := mode, acts;
      if keyDown == 32 {
        oldMode := Some(canvasMode);
        oldApp := Some(app);
        mode' := MoveMode;
        acts' := acts + [StoreCanvasMode(Some(MoveMode))];
      }
    }

    /** Lines 294-371: mode resolution, the glyph-change reset, the double
        click and the space bar. */
    method RunFront(f: Frame) returns (mode: ModeName, acts: seq<Action>)
      modifies this
      ensures Stage(State(), mode, acts) == Front(old(State()), f)
    {
      ApplyReset();
      ApplyDoubleClick(f);
      mode, acts := ApplySpaceUp(f.keyUp, ResolveMode(f.canvasMode), []);
      mode, acts := ApplySpaceDown(f.keyDown, f.canvasMode, mode, acts);
    }

    /** Components mode (lines 385-435). */
    method ApplyComponents(f: Frame, mode: ModeName, acts: seq<Action>, release: bool, g: Glyph)
      returns (acts': seq<Action>)
      modifies this
      ensures Stage(State(), mode, acts') == ComponentsStep(Stage(old(State()), mode, acts), f.hot, release, g.name)
    {
      var r := ComponentsStep(Stage(State(), mode, acts), f.hot, release, g.name);
      app := r.m.app;
      hovered := r.m.hovered;
      acts' := r.out;
    }

    /** The select-points table (lines 436-572). */
    method ApplySelectPoints(f: Frame, release: bool, boxed: seq<Item>)
      modifies this
      ensures State() == SelectPointsStep(old(State()), f.pointer, release, f.hot, boxed)
    {
      var s := SelectPoints(SelOf(State()), f.pointer, release, f.hot, boxed);
      app := s.app;
      selected := s.selected;
      contour := s.contour;
      contourIndex := s.contourIndex;
      boxStart := s.boxStart;
      halted := s.halted;
    }

    /** Lines 375-572: the branch of the resolved mode. */
    method RunModeBranch(f: Frame, mode: ModeName, acts: seq<Action>, release: bool, boxed: seq<Item>, g: Glyph)
      returns (acts': seq<Action>)
      modifies this
      ensures Stage(State(), mode, acts') == ModeBranch(Stage(old(State()), mode, acts), f, release, boxed, g)
    {
      acts' := acts;
      match mode {
        case MoveMode =>
          app := if f.pointer.down then Set(Moving) else Set(Default);
          assert State() == MoveStep(old(State()), f.pointer.down);
        case ComponentsMode =>
          acts' := ApplyComponents(f, mode, acts, release, g);
        case SelectPointsMode =>
          ApplySelectPoints(f, release, boxed);
        case UnknownMode =>
      }
    }

    /** The camera rule (lines 778-811). */
    method ApplyCamera(p: Pointer, proj: Projection)
      modifies this
      ensures State() == CameraStep(old(State()), p, proj)
    {
      if Has(app, Moving) {
        view := Pan(view, p.delta);
      } else if app.zooming {
        view := ZoomStep(proj, view, p.pos, p.wheel);
      }
    }

    /** Building the interactions (lines 813-868). */
    method BuildInteractions(f: Frame, g: Glyph, proj: Projection) returns (its: Option<seq<Interaction>>)
      ensures its == Interactions(State(), f, g, proj)
    {
      if InDraggingState(app) {
        var d := DragAll(selected, proj.toWorld(view, f.pointer.pos));
        its := Some(d);
      } else if InPointSelectedState(app) && 37 <= f.keyDown <= 40 {
        its := ArrowAll(g, selected, Nudge(f.keyDown).value);
      } else {
        its := Some([]);
      }
    }

    /** Building and dispatching the interactions (lines 813-964). */
    method ApplyInteract(f: Frame, g: Glyph, env: Env, mode: ModeName, acts: seq<Action>) returns (acts': seq<Action>)
      modifies this
      ensures Stage(State(), mode, acts') == Interact(Stage(old(State()), mode, acts), f, g, env)
    {
      acts' := acts;
      var its := BuildInteractions(f, g, env.projection);
      if its.None? {
        halted := true;
      } else {
        var sent, threw := DispatchAll(env.oracle, g, its.value);
        acts' := acts + sent;
        halted := halted || threw;
      }
    }

    /** Lines 575-964 after the mode branch: the ZOOMING bit, the contour
        drawing, Escape, the camera, and the interactions. */
    method RunBack(f: Frame, g: Glyph, env: Env, mode: ModeName, acts: seq<Action>) returns (acts': seq<Action>)
      modifies this
      ensures (State(), acts') == Back(Stage(old(State()), mode, acts), f, g, env)
    {
      acts' := acts;
      if halted {
        return;
      }
      app := app.(zooming := f.pointer.wheel != 0.0);
      if InContourState(app) && contour.None? {
        halted := true;
        return;
      }
      assert State() == DrawCheck(ZoomBit(old(State()), f.pointer.wheel));
      ghost var s3 := Stage(State(), mode, acts);
      if InPointSelectedState(app) && f.keyDown == 27 {
        var esc := EscapeAll(selected, g.name);
        acts' := acts' + esc;
      }
      assert Stage(State(), mode, acts') == EscapeStage(s3, f.keyDown, g);
      ApplyCamera(f.pointer, env.projection);
      acts' := ApplyInteract(f, g, env, mode, acts');
    }

    /** Lines 294-964 on a frame with a glyph: the stages before the mode
        branch, the branch, and the stages after it. */
    method RunGlyph(f: Frame, g: Glyph, env: Env, release: bool, boxed: seq<Item>) returns (actions: seq<Action>)
      modifies this
      ensures (State(), actions) == Back(ModeBranch(Front(old(State()), f), f, release, boxed, g), f, g, env)
    {
      var mode, acts := RunFront(f);
      ghost var s1 := Stage(State(), mode, acts);
      acts := RunModeBranch(f, mode, acts, release, boxed, g);
      actions := RunBack(f, g, env, mode, acts);
    }

    /** One call of rafFunc, without the invariant. */
    method Frame(f: Frame, env: Env) returns (actions: seq<Action>)
      modifies this
      ensures (State(), actions) == FrameStep(old(State()), f, env)
    {
      actions := [];
      if halted {
        return;
      }
      var release := prevDown && !f.pointer.down;
      var boxed := if boxStart.Some? then f.boxHits else [];
      prevDown := f.pointer.down;
      resetPending := resetPending || f.glyphChanged;
      if f.glyph.None? {
        return;
      }
      assert State() == Begin(old(State()), f);
      FrameWithGlyph(old(State()), f, env);
      actions := RunGlyph(f, f.glyph.value, env, release, boxed);
    }

    /** One call of rafFunc: it keeps the invariant. */
    method Step(f: Frame, env: Env) returns (actions: seq<Action>)
      requires Valid()
      modifies this
      ensures Valid()
      ensures (State(), actions) == FrameStep(old(State()), f, env)
    {
      ghost var m := State();
      actions := Frame(f, env);
      FrameKeepsInv(m, f, env);
    }
  }
}
