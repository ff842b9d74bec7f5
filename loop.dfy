/** One whole frame of the loop (glyph-canvas lines 271-1005) as a function
    of the closure state and what the frame reads, and the properties that
    span several stages or several frames. */
module Loop {
  import opened Base
  import opened Items
  import opened Actions
  import opened Camera
  import opened State
  import opened Modifications
  import opened Selection
  import opened Components
  import opened Modes
  import opened Keys

  /** The code a frame calls without it being part of this model: the
      geometry helpers and toile's camera transforms. */
  datatype Env = Env(oracle: Oracle, projection: Projection)

  /** `{item, modData}`: an item and the glyph-space point it goes to. */
  datatype Interaction = Interaction(item: Item, target: Vec)

  /** What handing one interaction to its builder yields; `Throws` is the
      TypeError of a glyph lookup that missed. */
  datatype Outcome = NoChange | Change(changes: ChangeSet) | Throws

  function FromOption(r: Option<ChangeSet>): (o: Outcome)
    ensures o.Throws? <==> r.None?
    ensures r.Some? ==> o == Change(r.value)
  {
    match r
    case None => Throws
    case Some(c) => Change(c)
  }

  /** The switch on the item type (lines 890-944). The smoothing modifier
      and SKELETON_DISTR bits are never set, so handles are never smoothed
      and skeletonDistrModification is never reached. */
  function ChangeFor(o: Oracle, g: Glyph, it: Interaction): (r: Outcome)
    ensures r.NoChange? <==> !IsNodeType(it.item.kind)
    ensures r.Throws? <==>
      || ((it.item.kind == NodeIn || it.item.kind == NodeOut
           || it.item.kind == ContourNodeIn || it.item.kind == ContourNodeOut)
          && it.item.data.parentId !in g.nodes)
      || (it.item.kind == Node && it.item.data.oppositeId !in g.nodes)
  {
    var item := it.item;
    match item.kind
    case NodeOut => FromOption(HandleModification(o, g, item, it.target, false, false))
    case NodeIn => FromOption(HandleModification(o, g, item, it.target, false, false))
    case ContourNodeOut => FromOption(HandleModification(o, g, item, it.target, false, true))
    case ContourNodeIn => FromOption(HandleModification(o, g, item, it.target, false, true))
    case Node => FromOption(OnCurveModification(o, g, item, it.target, true, true))
    case NodeSkeleton => Change(SkeletonPosModification(item, it.target))
    case ContourNode => Change(SkeletonPosModification(item, it.target))
    case _ => NoChange
  }

  /** `interactions.forEach(...)`: one change-set action per interaction with
      a builder, in order, until a builder throws; the flag says it threw. */
  function Dispatch(o: Oracle, g: Glyph, its: seq<Interaction>): (r: (seq<Action>, bool))
    ensures |r.0| <= |its|
    ensures its == [] ==> r == ([], false)
    decreases |its|
  {
    if its == [] then ([], false)
    else
      match ChangeFor(o, g, its[0])
      case Throws => ([], true)
      case NoChange => Dispatch(o, g, its[1..])
      case Change(c) =>
        var rest := Dispatch(o, g, its[1..]);
        ([ChangeGlyphNode(c, g.name)] + rest.0, rest.1)
  }

  /** The dispatch throws iff some interaction's builder does. */
  lemma {:induction false} DispatchThrows(o: Oracle, g: Glyph, its: seq<Interaction>)
    ensures Dispatch(o, g, its).1 <==> exists i :: 0 <= i < |its| && ChangeFor(o, g, its[i]).Throws?
    decreases |its|
  {
    if its != [] {
      DispatchThrows(o, g, its[1..]);
      assert forall i :: 1 <= i < |its| ==> its[i] == its[1..][i - 1];
    }
  }

  /** Every action the dispatch sends is a change-set of this glyph. */
  lemma {:induction false} DispatchNamed(o: Oracle, g: Glyph, its: seq<Interaction>)
    ensures forall a :: a in Dispatch(o, g, its).0 ==> a.ChangeGlyphNode? && a.glyphName == g.name
    decreases |its|
  {
    if its != [] {
      DispatchNamed(o, g, its[1..]);
    }
  }

  /** When every builder succeeds, the i-th action is the i-th interaction's
      change-set. */
  lemma {:induction false} DispatchContents(o: Oracle, g: Glyph, its: seq<Interaction>)
    requires forall i :: 0 <= i < |its| ==> ChangeFor(o, g, its[i]).Change?
    ensures var r := Dispatch(o, g, its);
      && |r.0| == |its|
      && forall i :: 0 <= i < |its| ==> r.0[i] == ChangeGlyphNode(ChangeFor(o, g, its[i]).changes, g.name)
    decreases |its|
  {
    if its != [] {
      assert forall i :: 1 <= i < |its| ==> its[i] == its[1..][i - 1];
      DispatchContents(o, g, its[1..]);
    }
  }

  /** The dispatch throws iff some interaction's builder does; when every
      builder succeeds, the i-th action is the i-th interaction's change-set. */
  lemma DispatchSpec(o: Oracle, g: Glyph, its: seq<Interaction>)
    ensures var r := Dispatch(o, g, its);
      && (r.1 <==> exists i :: 0 <= i < |its| && ChangeFor(o, g, its[i]).Throws?)
      && (forall a :: a in r.0 ==> a.ChangeGlyphNode? && a.glyphName == g.name)
      && ((forall i :: 0 <= i < |its| ==> ChangeFor(o, g, its[i]).Change?) ==>
            && |r.0| == |its|
            && forall i :: 0 <= i < |its| ==> r.0[i] == ChangeGlyphNode(ChangeFor(o, g, its[i]).changes, g.name))
  {
    DispatchThrows(o, g, its);
    DispatchNamed(o, g, its);
    if forall i :: 0 <= i < |its| ==> ChangeFor(o, g, its[i]).Change? {
      DispatchContents(o, g, its);
    }
  }


  /** What is sent before the first throwing builder is exactly what the
      interactions before it send, and none of those throws. */
  lemma {:induction false} DispatchStopsAtThrow(o: Oracle, g: Glyph, its: seq<Interaction>, k: nat)
    requires k < |its| && ChangeFor(o, g, its[k]).Throws?
    requires forall j :: 0 <= j < k ==> !ChangeFor(o, g, its[j]).Throws?
    ensures !Dispatch(o, g, its[..k]).1
    ensures Dispatch(o, g, its) == (Dispatch(o, g, its[..k]).0, true)
    decreases k
  {
    if k == 0 {
      assert its[..0] == [];
    } else {
      var t := its[1..];
      assert forall j :: 0 <= j < k - 1 ==> t[j] == its[j + 1];
      assert t[k - 1] == its[k];
      DispatchStopsAtThrow(o, g, t, k - 1);
      assert its[..k][0] == its[0];
      assert its[..k][1..] == t[..k - 1];
    }
  }

  /** Lines 823-833: every selected item goes to the pointer's glyph-space
      position. */
  function DragTargets(items: seq<Item>, at: Vec): (r: seq<Interaction>)
    ensures |r| == |items|
    ensures forall i :: 0 <= i < |r| ==> r[i].item == items[i] && r[i].target == at
  {
    if items == [] then [] else [Interaction(items[0], at)] + DragTargets(items[1..], at)
  }

  /** Lines 842-866: every selected item goes one unit from its node's
      current position; a selected id that is not a glyph address throws. */
  function ArrowTargets(g: Glyph, items: seq<Item>, v: Vec): Option<seq<Interaction>>
  {
    if items == [] then Some([])
    else if items[0].id !in g.nodes then None
    else
      var rest := ArrowTargets(g, items[1..], v);
      if rest.None? then None
      else Some([Interaction(items[0], Add(g.nodes[items[0].id].pos, v))] + rest.value)
  }

  /** The nudge throws iff some selected id misses; otherwise every item is
      paired, in order, with its node's position moved by `v`. */
  lemma {:induction false} ArrowTargetsSpec(g: Glyph, items: seq<Item>, v: Vec)
    ensures var r := ArrowTargets(g, items, v);
      && (r.None? <==> exists i :: 0 <= i < |items| && items[i].id !in g.nodes)
      && (r.Some? ==> |r.value| == |items|)
      && (r.Some? ==> forall i :: 0 <= i < |items| ==>
            r.value[i].item == items[i] && r.value[i].target == Add(g.nodes[items[i].id].pos, v))
  {
    if items != [] {
      ArrowTargetsSpec(g, items[1..], v);
      assert forall i :: 1 <= i < |items| ==> items[i] == items[1..][i - 1];
    }
  }

  // ---------------------------------------------------------------- stages

  /** The glyph-change reset (lines 316-322): a pending reset empties the
      selection and returns to DEFAULT, once; the selected contour and its
      index are kept. */
  function ResetIfPending(m: Model): (r: Model)
    ensures !r.resetPending
    ensures m.resetPending ==> r.app == Set(Default) && r.selected == []
    ensures !m.resetPending ==> r == m
    ensures r == m.(app := r.app, selected := r.selected, resetPending := r.resetPending)
  {
    if m.resetPending then m.(app := Set(Default), selected := [], resetPending := false) else m
  }

  /** The double click (lines 325-340): a pointer-down while armed centres
      the camera on the glyph, one while disarmed arms for 400 ms. */
  function DoubleClick(m: Model, f: Frame): (r: Model)
    ensures r == m.(view := r.view, armedAt := r.armedAt)
    ensures f.pointer.edge != EdgeDown ==> r == m
    ensures f.pointer.edge == EdgeDown && Armed(m.armedAt, f.now) ==>
      r.view == View(0.5, f.centre) && r.armedAt == m.armedAt
    ensures f.pointer.edge == EdgeDown && !Armed(m.armedAt, f.now) ==>
      r.view == m.view && r.armedAt == Some(f.now)
  {
    if f.pointer.edge != EdgeDown then m
    else if Armed(m.armedAt, f.now) then m.(view := Recentred(f.centre))
    else m.(armedAt := Some(f.now))
  }

  /** The three first-level modes (lines 375-572); no branch runs for an
      unknown mode. */
  function ModeBranch(st: Stage, f: Frame, release: bool, boxed: seq<Item>, g: Glyph): (r: Stage)
    ensures r.m.view == st.m.view && r.m.oldMode == st.m.oldMode && r.m.oldApp == st.m.oldApp
    ensures r.m.prevDown == st.m.prevDown && r.m.resetPending == st.m.resetPending
    ensures r.m.armedAt == st.m.armedAt
  {
    match st.mode
    case MoveMode => st.(m := MoveStep(st.m, f.pointer.down))
    case ComponentsMode => ComponentsStep(st, f.hot, release, g.name)
    case SelectPointsMode => st.(m := SelectPointsStep(st.m, f.pointer, release, f.hot, boxed))
    case UnknownMode => st
  }

  /** The ZOOMING bit follows the wheel (lines 575-580). */
  function ZoomBit(m: Model, wheel: real): Model
  {
    m.(app := m.app.(zooming := wheel != 0.0))
  }

  /** drawNodes reads `contourSelected.id` in the contour states (lines
      645-653): with no contour selected the frame throws there. */
  function DrawCheck(m: Model): (r: Model)
    ensures r == m.(halted := r.halted)
    ensures r.halted <==> m.halted || (InContourState(m.app) && m.contour.None?)
  {
    if InContourState(m.app) && m.contour.None? then m.(halted := true) else m
  }

  /** Escape in a point-selected state (lines 722-776). */
  function EscapeStage(st: Stage, keyDown: int, g: Glyph): (r: Stage)
    ensures r.m == st.m && r.mode == st.mode
    ensures |r.out| >= |st.out| && r.out[..|st.out|] == st.out
    ensures keyDown != 27 ==> r == st
    ensures !InPointSelectedState(st.m.app) ==> r == st
    ensures InPointSelectedState(st.m.app) && keyDown == 27 ==>
      r.out == st.out + EscapeActions(st.m.selected, g.name)
  {
    if InPointSelectedState(st.m.app) && keyDown == 27
    then
      var esc := EscapeActions(st.m.selected, g.name);
      assert (st.out + esc)[..|st.out|] == st.out;
      st.(out := st.out + esc)
    else st
  }

  /** The camera rule (lines 778-811): pan while MOVING, else zoom while the
      wheel turns. */
  function CameraStep(m: Model, p: Pointer, proj: Projection): (r: Model)
    ensures r == m.(view := r.view)
    ensures MinZoom <= m.view.zoom <= MaxZoom ==> MinZoom <= r.view.zoom <= MaxZoom
    ensures !Has(m.app, Moving) && !m.app.zooming ==> r == m
    ensures Has(m.app, Moving) ==> r.view == Pan(m.view, p.delta)
    ensures !Has(m.app, Moving) && m.app.zooming ==> r.view == ZoomStep(proj, m.view, p.pos, p.wheel)
  {
    if Has(m.app, Moving) then m.(view := Pan(m.view, p.delta))
    else if m.app.zooming then m.(view := ZoomStep(proj, m.view, p.pos, p.wheel))
    else m
  }

  /** The interactions of a frame (lines 813-868); `None` when building them
      throws. They are read against the camera after this frame's update. */
  function Interactions(m: Model, f: Frame, g: Glyph, proj: Projection): (r: Option<seq<Interaction>>)
    ensures InDraggingState(m.app) ==> r == Some(DragTargets(m.selected, proj.toWorld(m.view, f.pointer.pos)))
    ensures InPointSelectedState(m.app) && 37 <= f.keyDown <= 40 ==>
      r == ArrowTargets(g, m.selected, Nudge(f.keyDown).value)
    ensures !InDraggingState(m.app) && !(InPointSelectedState(m.app) && 37 <= f.keyDown <= 40) ==> r == Some([])
  {
    if InDraggingState(m.app) then Some(DragTargets(m.selected, proj.toWorld(m.view, f.pointer.pos)))
    else if InPointSelectedState(m.app) && 37 <= f.keyDown <= 40 then ArrowTargets(g, m.selected, Nudge(f.keyDown).value)
    else Some([])
  }

  /** Building and dispatching the interactions (lines 813-964). */
  function Interact(st: Stage, f: Frame, g: Glyph, env: Env): (r: Stage)
    ensures r.m == st.m.(halted := r.m.halted) && r.mode == st.mode
    ensures |r.out| >= |st.out| && r.out[..|st.out|] == st.out
    ensures var its := Interactions(st.m, f, g, env.projection);
      && (its.None? ==> r.m.halted && r.out == st.out)
      && (its.Some? ==> r.out == st.out + Dispatch(env.oracle, g, its.value).0
                        && (r.m.halted <==> st.m.halted || Dispatch(env.oracle, g, its.value).1))
  {
    match Interactions(st.m, f, g, env.projection)
    case None => st.(m := st.m.(halted := true))
    case Some(its) =>
      var d := Dispatch(env.oracle, g, its);
      assert (st.out + d.0)[..|st.out|] == st.out;
      st.(m := st.m.(halted := st.m.halted || d.1), out := st.out + d.0)
  }

  /** `mouseClickRelease` (lines 307-310). */
  predicate Released(m: Model, p: Pointer)
  {
    m.prevDown && !p.down
  }

  /** What every frame records first: the button state for the next
      frame's release test, and a glyph change noticed by the store. */
  function Begin(m: Model, f: Frame): (r: Model)
    ensures r.prevDown == f.pointer.down
    ensures r.resetPending <==> m.resetPending || f.glyphChanged
    ensures r == m.(prevDown := r.prevDown, resetPending := r.resetPending)
  {
    m.(prevDown := f.pointer.down, resetPending := m.resetPending || f.glyphChanged)
  }

  /** The stages before the mode branch (lines 294-371): mode resolution,
      the reset, the double click and the space bar. */
  function Front(m: Model, f: Frame): (r: Stage)
    ensures Inv(m) ==> Inv(r.m)
    ensures r.m.halted == m.halted && r.m.prevDown == m.prevDown
  {
    var s0 := Stage(DoubleClick(ResetIfPending(m), f), ResolveMode(f.canvasMode), []);
    SpaceDown(SpaceUp(s0, f.keyUp), f.keyDown, f.canvasMode)
  }

  /** The stages after the mode branch (lines 575-964), unless the branch
      threw: the ZOOMING bit, the contour drawing, Escape, the camera and the
      interactions. */
  function Back(st: Stage, f: Frame, g: Glyph, env: Env): (r: (Model, seq<Action>))
    ensures st.m.halted ==> r == (st.m, st.out)
    ensures !st.m.halted ==> r.0.app == st.m.app.(zooming := f.pointer.wheel != 0.0)
    ensures st.m.halted ==> r.0.halted
    ensures r.0 == st.m.(app := r.0.app, view := r.0.view, halted := r.0.halted)
    ensures |r.1| >= |st.out| && r.1[..|st.out|] == st.out
  {
    if st.m.halted then (st.m, st.out)
    else
      var m3 := DrawCheck(ZoomBit(st.m, f.pointer.wheel));
      if m3.halted then (m3, st.out)
      else
        var s4 := EscapeStage(st.(m := m3), f.keyDown, g);
        var s5 := Interact(s4.(m := CameraStep(s4.m, f.pointer, env.projection)), f, g, env);
        (s5.m, s5.out)
  }

  /** One call of rafFunc: the new closure state and the actions it
      dispatched, in order. A halted loop is never called again, and with no
      glyph only the button memory and the reset flag move. The box items are
      those the hit tester reports for the box origin held when the frame starts. */
  function FrameStep(m: Model, f: Frame, env: Env): (r: (Model, seq<Action>))
    ensures m.halted ==> r == (m, [])
    ensures !m.halted ==> r.0.prevDown == f.pointer.down
    ensures f.glyph.None? ==> r.1 == []
  {
    if m.halted then (m, [])
    else
      match f.glyph
      case None => (Begin(m, f), [])
      case Some(g) =>
        var boxed := if m.boxStart.Some? then f.boxHits else [];
        Back(ModeBranch(Front(Begin(m, f), f), f, Released(m, f.pointer), boxed, g), f, g, env)
  }

  // ------------------------------------------------------------ properties

  /** A frame of a running loop with a glyph, stage by stage. */
  lemma FrameWithGlyph(m: Model, f: Frame, env: Env)
    requires !m.halted && f.glyph.Some?
    ensures FrameStep(m, f, env) ==
      Back(ModeBranch(Front(Begin(m, f), f), f, Released(m, f.pointer),
                      if m.boxStart.Some? then f.boxHits else [], f.glyph.value), f, f.glyph.value, env)
  {
  }

  /** Frames applied in turn; the actions of all of them, in order. */
  function Run(m: Model, fs: seq<Frame>, env: Env): (r: (Model, seq<Action>))
    ensures m.halted ==> r == (m, [])
    decreases |fs|
  {
    if fs == [] then (m, [])
    else
      var first := FrameStep(m, fs[0], env);
      var rest := Run(first.0, fs[1..], env);
      assert m.halted ==> first.1 + rest.1 == [];
      (rest.0, first.1 + rest.1)
  }

  /** Every frame keeps the zoom within its bounds and sets and clears the
      saved mode and the saved state together. */
  lemma FrameKeepsInv(m: Model, f: Frame, env: Env)
    requires Inv(m)
    ensures Inv(FrameStep(m, f, env).0)
  {
    if !m.halted && f.glyph.Some? {
      var g := f.glyph.value;
      var front := Front(Begin(m, f), f);
      var st := ModeBranch(front, f, Released(m, f.pointer), if m.boxStart.Some? then f.boxHits else [], g);
      BackKeepsInv(st, f, g, env);
    }
  }

  lemma BackKeepsInv(st: Stage, f: Frame, g: Glyph, env: Env)
    requires Inv(st.m)
    ensures Inv(Back(st, f, g, env).0)
  {
    if !st.m.halted {
      var m3 := DrawCheck(ZoomBit(st.m, f.pointer.wheel));
      if !m3.halted {
        var s4 := EscapeStage(st.(m := m3), f.keyDown, g);
        var c := CameraStep(s4.m, f.pointer, env.projection);
        assert Inv(c);
      }
    }
  }

  /** Outside the contour, dragging and point-selected states the stages
      after the mode branch only set the ZOOMING bit and move the camera:
      nothing is drawn that can throw and nothing is dispatched. */
  lemma BackQuiet(st: Stage, f: Frame, g: Glyph, env: Env)
    requires !st.m.halted
    requires !InContourState(st.m.app) && !InDraggingState(st.m.app) && !InPointSelectedState(st.m.app)
    ensures Back(st, f, g, env) == (CameraStep(ZoomBit(st.m, f.pointer.wheel), f.pointer, env.projection), st.out)
  {
    var m3 := DrawCheck(ZoomBit(st.m, f.pointer.wheel));
    assert m3 == ZoomBit(st.m, f.pointer.wheel);
    var s4 := EscapeStage(st.(m := m3), f.keyDown, g);
    assert s4 == st.(m := m3);
    var c := CameraStep(s4.m, f.pointer, env.projection);
    assert Interactions(c, f, g, env.projection) == Some([]);
    assert Dispatch(env.oracle, g, []) == ([], false);
    var s5 := Interact(s4.(m := c), f, g, env);
    assert s5.out == st.out + [] == st.out;
    assert Back(st, f, g, env) == (s5.m, s5.out);
  }

  /** Without a key press the stages after the mode branch only append drag
      change-sets of this glyph, and append nothing outside the dragging
      states. */
  lemma BackWithoutKeys(st: Stage, f: Frame, g: Glyph, env: Env)
    requires f.keyDown == 0
    ensures var out := Back(st, f, g, env).1;
      && |out| >= |st.out| && out[..|st.out|] == st.out
      && (forall a :: a in out[|st.out|..] ==> a.ChangeGlyphNode? && a.glyphName == g.name)
      && (!InDraggingState(st.m.app) ==> out == st.out)
  {
    var out := Back(st, f, g, env).1;
    if !st.m.halted {
      var m3 := DrawCheck(ZoomBit(st.m, f.pointer.wheel));
      if !m3.halted {
        var s4 := EscapeStage(st.(m := m3), f.keyDown, g);
        assert s4 == st.(m := m3);
        var c := CameraStep(s4.m, f.pointer, env.projection);
        assert c.app == st.m.app.(zooming := f.pointer.wheel != 0.0);
        var its := Interactions(c, f, g, env.projection);
        assert its.Some?;
        var d := Dispatch(env.oracle, g, its.value);
        DispatchSpec(env.oracle, g, its.value);
        var s5 := Interact(s4.(m := c), f, g, env);
        assert s5.out == st.out + d.0;
        assert out == st.out + d.0;
        assert out[|st.out|..] == d.0;
        if !InDraggingState(st.m.app) {
          assert its.value == [];
          assert d.0 == [];
        }
      }
    }
  }

  // ------------------------------------------ what the stages dispatch

  /** The camera after this frame's update in a state that is not MOVING:
      zoomed when the wheel turns, unchanged otherwise. */
  function ZoomedView(v: View, p: Pointer, proj: Projection): View
  {
    if p.wheel != 0.0 then ZoomStep(proj, v, p.pos, p.wheel) else v
  }

  /** Dragging skeleton and contour nodes to `at` sends, for each in turn,
      the change-set that puts it there, and never throws. */
  lemma {:induction false} DragDispatch(o: Oracle, g: Glyph, items: seq<Item>, at: Vec)
    requires forall i :: 0 <= i < |items| ==> items[i].kind == NodeSkeleton || items[i].kind == ContourNode
    ensures var d := Dispatch(o, g, DragTargets(items, at));
      && !d.1 && |d.0| == |items|
      && forall i :: 0 <= i < |items| ==> d.0[i] == ChangeGlyphNode(SkeletonPosModification(items[i], at), g.name)
  {
    var its := DragTargets(items, at);
    forall i | 0 <= i < |its|
      ensures ChangeFor(o, g, its[i]) == Change(SkeletonPosModification(items[i], at))
    {
    }
    DispatchSpec(o, g, its);
  }

  /** The stages after the mode branch in a dragging state: the camera
      update, then the dispatch of the drag to the pointer's glyph-space
      position read against the updated camera. */
  lemma DragStages(st: Stage, f: Frame, g: Glyph, env: Env)
    requires !st.m.halted && InDraggingState(st.m.app)
    requires InContourState(st.m.app) ==> st.m.contour.Some?
    ensures var v := ZoomedView(st.m.view, f.pointer, env.projection);
      var d := Dispatch(env.oracle, g, DragTargets(st.m.selected, env.projection.toWorld(v, f.pointer.pos)));
      var r := Back(st, f, g, env);
      && r.0.view == v && (r.0.halted <==> d.1)
      && r.1 == st.out + d.0
  {
    var m3 := DrawCheck(ZoomBit(st.m, f.pointer.wheel));
    assert !m3.halted;
    var s4 := EscapeStage(st.(m := m3), f.keyDown, g);
    assert s4 == st.(m := m3);
    var c := CameraStep(s4.m, f.pointer, env.projection);
    assert c.view == ZoomedView(st.m.view, f.pointer, env.projection);
    assert c.selected == st.m.selected && !c.halted;
    var s5 := Interact(s4.(m := c), f, g, env);
    assert Back(st, f, g, env) == (s5.m, s5.out);
  }

  /** What a drag sends for a selection: one change-set per selected item,
      in order, each putting the item's node under the pointer at `at`. */
  ghost predicate SendsDrag(out: seq<Action>, sel: seq<Item>, at: Vec, name: string)
  {
    && |out| == |sel|
    && forall i :: 0 <= i < |sel| ==>
         && out[i] == ChangeGlyphNode(SkeletonPosModification(sel[i], at), name)
         && var c := out[i].changes;
            var addr := sel[i].data.modifAddress;
            Add(sel[i].data.base, Unmirror(Vec(c[addr + "x"].r, c[addr + "y"].r), sel[i].data.transforms)) == at
  }

  /** In a dragging state the stages after the mode branch send, for every
      selected skeleton or contour node in selection order, the change-set
      that puts it under the pointer's glyph-space position, read against
      the camera after this frame's update. */
  lemma DragSends(st: Stage, f: Frame, g: Glyph, env: Env)
    requires !st.m.halted && InDraggingState(st.m.app)
    requires InContourState(st.m.app) ==> st.m.contour.Some?
    requires forall i :: 0 <= i < |st.m.selected| ==>
      st.m.selected[i].kind == NodeSkeleton || st.m.selected[i].kind == ContourNode
    ensures var r := Back(st, f, g, env);
      var at := env.projection.toWorld(ZoomedView(st.m.view, f.pointer, env.projection), f.pointer.pos);
      && !r.0.halted
      && r.0.view == ZoomedView(st.m.view, f.pointer, env.projection)
      && |st.out| <= |r.1| && r.1[..|st.out|] == st.out
      && SendsDrag(r.1[|st.out|..], st.m.selected, at, g.name)
  {
    var at := env.projection.toWorld(ZoomedView(st.m.view, f.pointer, env.projection), f.pointer.pos);
    DragStages(st, f, g, env);
    DragDispatch(env.oracle, g, st.m.selected, at);
    var d := Dispatch(env.oracle, g, DragTargets(st.m.selected, at));
    var r := Back(st, f, g, env);
    assert r.1 == st.out + d.0;
    assert r.1[|st.out|..] == d.0;
    forall i | 0 <= i < |st.m.selected|
      ensures var c := d.0[i].changes;
        var item := st.m.selected[i];
        var addr := item.data.modifAddress;
        Add(item.data.base, Unmirror(Vec(c[addr + "x"].r, c[addr + "y"].r), item.data.transforms)) == at
    {
      SkeletonPosRoundTrip(st.m.selected[i], at);
    }
  }


  /** Escape in a point-selected state sends exactly the Escape actions of
      the selection, and nothing else is sent. */
  lemma EscapeSends(st: Stage, f: Frame, g: Glyph, env: Env)
    requires !st.m.halted && InPointSelectedState(st.m.app) && f.keyDown == 27
    requires InContourState(st.m.app) ==> st.m.contour.Some?
    ensures Back(st, f, g, env).1 == st.out + EscapeActions(st.m.selected, g.name)
  {
    var m3 := DrawCheck(ZoomBit(st.m, f.pointer.wheel));
    assert !m3.halted && m3.selected == st.m.selected;
    var s4 := EscapeStage(st.(m := m3), f.keyDown, g);
    assert s4.out == st.out + EscapeActions(st.m.selected, g.name);
    var c := CameraStep(s4.m, f.pointer, env.projection);
    assert Interactions(c, f, g, env.projection) == Some([]);
    assert Dispatch(env.oracle, g, []) == ([], false);
    var s5 := Interact(s4.(m := c), f, g, env);
    assert s5.out == s4.out + [] == s4.out;
  }

  /** An arrow key in a point-selected state sends the change-sets of the
      selection nudged one unit, or throws when a selected id misses. */
  lemma ArrowSends(st: Stage, f: Frame, g: Glyph, env: Env)
    requires !st.m.halted && InPointSelectedState(st.m.app) && 37 <= f.keyDown <= 40
    requires InContourState(st.m.app) ==> st.m.contour.Some?
    ensures var r := Back(st, f, g, env);
      var its := ArrowTargets(g, st.m.selected, Nudge(f.keyDown).value);
      && (its.None? ==> r.0.halted && r.1 == st.out)
      && (its.Some? ==> r.1 == st.out + Dispatch(env.oracle, g, its.value).0
                        && (r.0.halted <==> Dispatch(env.oracle, g, its.value).1))
  {
    var m3 := DrawCheck(ZoomBit(st.m, f.pointer.wheel));
    assert !m3.halted;
    var s4 := EscapeStage(st.(m := m3), f.keyDown, g);
    assert s4 == st.(m := m3);
    var c := CameraStep(s4.m, f.pointer, env.projection);
    assert c.selected == st.m.selected && !c.halted;
    var s5 := Interact(s4.(m := c), f, g, env);
    assert Back(st, f, g, env) == (s5.m, s5.out);
  }

  /** Outside the dragging states, keys other than Escape and the arrows in
      a point-selected state send nothing. */
  lemma OtherKeysSendNothing(st: Stage, f: Frame, g: Glyph, env: Env)
    requires !InDraggingState(st.m.app)
    requires !(InPointSelectedState(st.m.app) && (f.keyDown == 27 || 37 <= f.keyDown <= 40))
    ensures Back(st, f, g, env).1 == st.out
  {
    if !st.m.halted {
      var m3 := DrawCheck(ZoomBit(st.m, f.pointer.wheel));
      if !m3.halted {
        var s4 := EscapeStage(st.(m := m3), f.keyDown, g);
        assert s4 == st.(m := m3);
        var c := CameraStep(s4.m, f.pointer, env.projection);
        assert Interactions(c, f, g, env.projection) == Some([]);
        assert Dispatch(env.oracle, g, []) == ([], false);
        var s5 := Interact(s4.(m := c), f, g, env);
        assert s5.out == st.out + [] == st.out;
      }
    }
  }

  /** In the dragging states the keyboard does nothing: neither Escape nor
      the arrows change what the stages after the mode branch do. */
  lemma KeysIgnoredWhileDragging(st: Stage, f: Frame, g: Glyph, env: Env)
    requires InDraggingState(st.m.app)
    ensures Back(st, f, g, env) == Back(st, f.(keyDown := 0), g, env)
  {
    var f0 := f.(keyDown := 0);
    if !st.m.halted {
      var m3 := DrawCheck(ZoomBit(st.m, f.pointer.wheel));
      if !m3.halted {
        var s4 := EscapeStage(st.(m := m3), f.keyDown, g);
        assert s4 == st.(m := m3) == EscapeStage(st.(m := m3), f0.keyDown, g);
        var c := CameraStep(s4.m, f.pointer, env.projection);
        assert Interactions(c, f, g, env.projection) == Interactions(c, f0, g, env.projection);
        assert Interact(s4.(m := c), f, g, env) == Interact(s4.(m := c), f0, g, env);
      }
    }
  }

  /** A select-points frame with no pointer edge, no release, no space-bar
      edge and no glyph change runs the stages after the mode branch on the
      state as it was, with only the button memory recorded. */
  lemma QuietSelectFrame(m: Model, f: Frame, env: Env)
    requires !m.halted && !m.resetPending && f.glyph.Some? && !f.glyphChanged
    requires f.canvasMode == SelectPointsMode && f.keyDown != 32 && f.keyUp != 32
    requires f.pointer.edge == NoEdge && !Released(m, f.pointer)
    ensures FrameStep(m, f, env) == Back(Stage(m.(prevDown := f.pointer.down), SelectPointsMode, []), f, f.glyph.value, env)
  {
    var g := f.glyph.value;
    var b := Begin(m, f);
    assert b == m.(prevDown := f.pointer.down);
    var front := Front(b, f);
    assert front == Stage(b, SelectPointsMode, []);
    var boxed := if m.boxStart.Some? then f.boxHits else [];
    SelectPointsIdle(SelOf(b), f.pointer, f.hot, boxed);
    var st := ModeBranch(front, f, Released(m, f.pointer), boxed, g);
    assert st.m == SelectPointsStep(b, f.pointer, false, f.hot, boxed);
    assert st == front;
    FrameWithGlyph(m, f, env);
  }

  /** A whole frame of a drag with the button held: each selected skeleton
      or contour node is sent, in order, the change-set that puts it under
      the pointer's glyph-space position. */
  lemma DragFrame(m: Model, f: Frame, env: Env)
    requires !m.halted && !m.resetPending && f.glyph.Some? && !f.glyphChanged
    requires f.canvasMode == SelectPointsMode && f.keyDown != 32 && f.keyUp != 32
    requires f.pointer.edge == NoEdge && f.pointer.down
    requires InDraggingState(m.app) && (InContourState(m.app) ==> m.contour.Some?)
    requires forall i :: 0 <= i < |m.selected| ==>
      m.selected[i].kind == NodeSkeleton || m.selected[i].kind == ContourNode
    ensures var r := FrameStep(m, f, env);
      var at := env.projection.toWorld(ZoomedView(m.view, f.pointer, env.projection), f.pointer.pos);
      && !r.0.halted && r.0.selected == m.selected && r.0.app.primary == m.app.primary
      && SendsDrag(r.1, m.selected, at, f.glyph.value.name)
  {
    QuietSelectFrame(m, f, env);
    var st := Stage(m.(prevDown := f.pointer.down), SelectPointsMode, []);
    DragSends(st, f, f.glyph.value, env);
    var r := Back(st, f, f.glyph.value, env);
    assert r.1[|st.out|..] == r.1;
  }


  /** A whole select-points frame in which Escape is pressed in a
      point-selected state, the pointer neither pressed nor released: it
      sends exactly the Escape actions of the selection. */
  lemma EscapeFrame(m: Model, f: Frame, env: Env)
    requires !m.halted && !m.resetPending && f.glyph.Some? && !f.glyphChanged
    requires f.canvasMode == SelectPointsMode && f.keyDown == 27 && f.keyUp != 32
    requires f.pointer.edge == NoEdge && !Released(m, f.pointer)
    requires InPointSelectedState(m.app) && (InContourState(m.app) ==> m.contour.Some?)
    ensures FrameStep(m, f, env).1 == EscapeActions(m.selected, f.glyph.value.name)
  {
    QuietSelectFrame(m, f, env);
    var st := Stage(m.(prevDown := f.pointer.down), SelectPointsMode, []);
    EscapeSends(st, f, f.glyph.value, env);
    assert [] + EscapeActions(m.selected, f.glyph.value.name) == EscapeActions(m.selected, f.glyph.value.name);
  }

  // ------------------------------------ the reset and the double click

  /** A frame that notices a glyph change, or follows one, runs its mode
      branch from DEFAULT with an empty selection, keeping the selected
      contour and its index, and consumes the reset (lines 314-322). The
      space bar's release, which puts a saved state back, is excluded. */
  lemma GlyphChangeResets(m: Model, f: Frame, env: Env)
    requires !m.halted && f.glyph.Some? && (m.resetPending || f.glyphChanged) && f.keyUp != 32
    ensures var front := Front(Begin(m, f), f);
      && front.m.app == Set(Default) && front.m.selected == []
      && front.m.contour == m.contour && front.m.contourIndex == m.contourIndex
      && !front.m.resetPending
    ensures !FrameStep(m, f, env).0.resetPending
  {
    var b := Begin(m, f);
    assert b.resetPending;
    var rs := ResetIfPending(b);
    var dc := DoubleClick(rs, f);
    var s0 := Stage(dc, ResolveMode(f.canvasMode), []);
    assert SpaceUp(s0, f.keyUp) == s0;
    var front := Front(b, f);
    assert front.m == SpaceDown(s0, f.keyDown, f.canvasMode).m;
    FrameWithGlyph(m, f, env);
  }

  /** The stages before the mode branch leave the double-click timer and
      the camera as DoubleClick does. */
  lemma FrontTimer(m: Model, f: Frame)
    ensures var front := Front(Begin(m, f), f);
      front.m.armedAt == DoubleClick(m, f).armedAt && front.m.view == DoubleClick(m, f).view
  {
    var rs := ResetIfPending(Begin(m, f));
    assert DoubleClick(rs, f).armedAt == DoubleClick(m, f).armedAt;
    assert DoubleClick(rs, f).view == DoubleClick(m, f).view;
  }

  /** With the pointer still (no delta, no wheel) the stages after the mode
      branch leave the camera where it is. */
  lemma StillPointerKeepsCamera(st: Stage, f: Frame, g: Glyph, env: Env)
    requires f.pointer.wheel == 0.0 && f.pointer.delta == Vec(0.0, 0.0)
    ensures Back(st, f, g, env).0.view == st.m.view
  {
    if !st.m.halted {
      var m3 := DrawCheck(ZoomBit(st.m, f.pointer.wheel));
      if !m3.halted {
        var s4 := EscapeStage(st.(m := m3), f.keyDown, g);
        var c := CameraStep(s4.m, f.pointer, env.projection);
        assert Add(s4.m.view.translation, f.pointer.delta) == s4.m.view.translation;
        assert c.view == st.m.view;
        var s5 := Interact(s4.(m := c), f, g, env);
        assert Back(st, f, g, env) == (s5.m, s5.out);
      }
    }
  }

  /** Any frame of a running loop with a glyph moves the double-click timer
      as DoubleClick does; with the pointer still it also leaves the camera
      where DoubleClick put it. */
  lemma FrameTimer(m: Model, f: Frame, env: Env)
    requires !m.halted && f.glyph.Some?
    ensures FrameStep(m, f, env).0.armedAt == DoubleClick(m, f).armedAt
    ensures f.pointer.wheel == 0.0 && f.pointer.delta == Vec(0.0, 0.0) ==>
      FrameStep(m, f, env).0.view == DoubleClick(m, f).view
  {
    var g := f.glyph.value;
    var front := Front(Begin(m, f), f);
    FrontTimer(m, f);
    var st := ModeBranch(front, f, Released(m, f.pointer), if m.boxStart.Some? then f.boxHits else [], g);
    FrameWithGlyph(m, f, env);
    assert FrameStep(m, f, env) == Back(st, f, g, env);
    if f.pointer.wheel == 0.0 && f.pointer.delta == Vec(0.0, 0.0) {
      StillPointerKeepsCamera(st, f, g, env);
    }
  }

  /** The double click over two frames (lines 325-340): the first
      pointer-down arms the timer; a second one less than 400 ms later
      centres the camera on the glyph at zoom 0.5, and one 400 ms or more
      later only re-arms it. The second frame neither pans nor zooms. */
  lemma DoubleClickTwoFrames(m: Model, f1: Frame, f2: Frame, env: Env)
    requires !m.halted && f1.glyph.Some? && f2.glyph.Some?
    requires f1.pointer.edge == EdgeDown && f2.pointer.edge == EdgeDown
    requires !Armed(m.armedAt, f1.now)
    requires f2.pointer.wheel == 0.0 && f2.pointer.delta == Vec(0.0, 0.0)
    ensures var a := FrameStep(m, f1, env).0;
      var b := FrameStep(a, f2, env).0;
      && a.armedAt == Some(f1.now)
      && (!a.halted && f2.now - f1.now < 400 ==> b.view == View(0.5, f2.centre) && b.armedAt == Some(f1.now))
      && (!a.halted && f2.now - f1.now >= 400 ==> b.view == a.view && b.armedAt == Some(f2.now))
  {
    FrameTimer(m, f1, env);
    var a := FrameStep(m, f1, env).0;
    if !a.halted {
      FrameTimer(a, f2, env);
    }
  }

  /** A frame without a glyph only records the button state and a pending
      reset, and dispatches nothing. */
  lemma NoGlyphFrame(m: Model, f: Frame, env: Env)
    requires !m.halted && f.glyph.None?
    ensures FrameStep(m, f, env) ==
      (m.(prevDown := f.pointer.down, resetPending := m.resetPending || f.glyphChanged), [])
  {
  }

  /** A frame of move mode with no space-bar edge and no glyph change. */
  predicate MoveFrame(f: Frame)
  {
    f.canvasMode == MoveMode && f.keyDown != 32 && f.keyUp != 32 && !f.glyphChanged
  }

  /** The pointer's button state after the frames `fs`, `prev` before them. */
  function LastDown(prev: bool, fs: seq<Frame>): bool
  {
    if fs == [] then prev else fs[|fs| - 1].pointer.down
  }

  /** A move-mode frame only pans and zooms: it keeps the saved mode and
      state, the selection, the contour and the box origin, dispatches
      nothing and does not throw. */
  lemma MoveFrameKeepsSelection(m: Model, f: Frame, env: Env)
    requires !m.halted && !m.resetPending && (m.app.primary == Moving || m.app.primary == Default)
    requires MoveFrame(f)
    ensures var r := FrameStep(m, f, env);
      && !r.0.halted && !r.0.resetPending && (r.0.app.primary == Moving || r.0.app.primary == Default)
      && r.0.oldMode == m.oldMode && r.0.oldApp == m.oldApp
      && r.0.selected == m.selected && r.0.contour == m.contour
      && r.0.contourIndex == m.contourIndex && r.0.boxStart == m.boxStart
      && r.0.prevDown == f.pointer.down
      && r.1 == []
  {
    var r := FrameStep(m, f, env);
    if f.glyph.Some? {
      var mv := MoveStep(DoubleClick(Begin(m, f), f), f.pointer.down);
      MoveFrameStages(m, f, env);
      var z := ZoomBit(mv, f.pointer.wheel);
      var c := CameraStep(z, f.pointer, env.projection);
      assert r == (c, []);
      assert c == z.(view := c.view);
    }
  }

  /** The stages of a move-mode frame with a glyph, one after another. */
  lemma MoveFrameStages(m: Model, f: Frame, env: Env)
    requires !m.halted && !m.resetPending && (m.app.primary == Moving || m.app.primary == Default)
    requires MoveFrame(f) && f.glyph.Some?
    ensures var mv := MoveStep(DoubleClick(Begin(m, f), f), f.pointer.down);
      FrameStep(m, f, env) == (CameraStep(ZoomBit(mv, f.pointer.wheel), f.pointer, env.projection), [])
  {
    var g := f.glyph.value;
    var b := Begin(m, f);
    var front := Front(b, f);
    assert front == Stage(DoubleClick(b, f), MoveMode, []);
    var mv := MoveStep(front.m, f.pointer.down);
    var st := front.(m := mv);
    assert ModeBranch(front, f, Released(m, f.pointer), if m.boxStart.Some? then f.boxHits else [], g) == st;
    BackQuiet(st, f, g, env);
  }

  /** Move-mode frames in a row keep all of that too. */
  lemma {:induction false} MoveFramesKeepSelection(m: Model, fs: seq<Frame>, env: Env)
    requires !m.halted && !m.resetPending && (m.app.primary == Moving || m.app.primary == Default)
    requires forall i :: 0 <= i < |fs| ==> MoveFrame(fs[i])
    ensures var r := Run(m, fs, env).0;
      && !r.halted && !r.resetPending && (r.app.primary == Moving || r.app.primary == Default)
      && r.oldMode == m.oldMode && r.oldApp == m.oldApp
      && r.selected == m.selected && r.contour == m.contour
      && r.contourIndex == m.contourIndex && r.boxStart == m.boxStart
      && r.prevDown == LastDown(m.prevDown, fs)
    ensures Run(m, fs, env).1 == []
    decreases |fs|
  {
    if fs != [] {
      var first := FrameStep(m, fs[0], env);
      MoveFrameKeepsSelection(m, fs[0], env);
      assert forall i :: 1 <= i < |fs| ==> fs[1..][i - 1] == fs[i];
      MoveFramesKeepSelection(first.0, fs[1..], env);
      var rest := Run(first.0, fs[1..], env);
      assert Run(m, fs, env) == (rest.0, first.1 + rest.1);
      if |fs| > 1 {
        assert fs[|fs| - 1] == fs[1..][|fs[1..]| - 1];
      }
    }
  }

  /** Pressing space in select-points mode saves the mode and the state,
      tells the store to switch to move mode, and runs the frame in it. */
  lemma SpacePressFrame(m: Model, f: Frame, env: Env)
    requires !m.halted && !m.resetPending
    requires f.glyph.Some? && !f.glyphChanged && f.canvasMode == SelectPointsMode
    requires f.keyDown == 32 && f.keyUp != 32
    ensures var r := FrameStep(m, f, env);
      && r.1 == [StoreCanvasMode(Some(MoveMode))]
      && r.0.oldMode == Some(SelectPointsMode) && r.0.oldApp == Some(m.app)
      && !r.0.halted && !r.0.resetPending && (r.0.app.primary == Moving || r.0.app.primary == Default)
      && r.0.selected == m.selected && r.0.contour == m.contour
      && r.0.contourIndex == m.contourIndex && r.0.boxStart == m.boxStart
  {
    var g := f.glyph.value;
    var front := Front(Begin(m, f), f);
    assert front.mode == MoveMode && front.out == [StoreCanvasMode(Some(MoveMode))];
    assert front.m == DoubleClick(Begin(m, f), f).(oldMode := Some(SelectPointsMode), oldApp := Some(m.app));
    var st := ModeBranch(front, f, Released(m, f.pointer), if m.boxStart.Some? then f.boxHits else [], g);
    assert st == front.(m := MoveStep(front.m, f.pointer.down));
    BackQuiet(st, f, g, env);
  }

  /** Releasing space with select-points mode saved puts the saved state
      back and tells the store; with no pointer edge and no release the
      table then leaves that state alone. */
  lemma SpaceReleaseFrame(m: Model, f: Frame, env: Env)
    requires !m.halted && !m.resetPending
    requires m.oldMode == Some(SelectPointsMode) && m.oldApp.Some?
    requires f.glyph.Some? && !f.glyphChanged && f.keyUp == 32 && f.keyDown == 0
    requires f.pointer.edge == NoEdge && !Released(m, f.pointer)
    ensures var r := FrameStep(m, f, env);
      && r.0.app.primary == m.oldApp.value.primary
      && r.0.selected == m.selected && r.0.contour == m.contour && r.0.contourIndex == m.contourIndex
      && r.0.oldMode.None? && r.0.oldApp.None?
      && |r.1| > 0 && r.1[0] == StoreCanvasMode(Some(SelectPointsMode))
      && (forall a :: a in r.1[1..] ==> a.ChangeGlyphNode? && a.glyphName == f.glyph.value.name)
      && (!InDraggingState(m.oldApp.value) ==> r.1 == [StoreCanvasMode(Some(SelectPointsMode))])
  {
    var g := f.glyph.value;
    var boxed := if m.boxStart.Some? then f.boxHits else [];
    var front := Front(Begin(m, f), f);
    assert front.mode == SelectPointsMode && front.out == [StoreCanvasMode(Some(SelectPointsMode))];
    assert front.m == DoubleClick(Begin(m, f), f).(app := m.oldApp.value, oldMode := None, oldApp := None);
    var st := ModeBranch(front, f, false, boxed, g);
    SelectPointsIdle(SelOf(front.m), f.pointer, f.hot, boxed);
    assert st == front;
    var r := Back(st, f, g, env);
    assert r.0 == st.m.(app := r.0.app, view := r.0.view, halted := r.0.halted);
    assert r.0.app.primary == st.m.app.primary;
    BackWithoutKeys(st, f, g, env);
    assert r.1[..1] == st.out;
    assert st.m.app == m.oldApp.value;
  }

  /** The space-bar override (lines 343-371) as a round trip: pressing space
      in select-points mode switches to move mode, any number of move-mode
      frames may pan or zoom, and releasing space comes back to select-points
      mode in the state it left, with the same selection and contour and
      nothing saved any more. */
  lemma SpaceOverrideRoundTrip(m: Model, press: Frame, moves: seq<Frame>, release: Frame, env: Env)
    requires !m.halted && !m.resetPending
    requires press.glyph.Some? && !press.glyphChanged && press.canvasMode == SelectPointsMode
    requires press.keyDown == 32 && press.keyUp != 32
    requires forall i :: 0 <= i < |moves| ==> MoveFrame(moves[i])
    requires release.glyph.Some? && !release.glyphChanged && release.keyUp == 32 && release.keyDown == 0
    requires release.pointer.edge == NoEdge
    requires release.pointer.down || !LastDown(press.pointer.down, moves)
    ensures var p := FrameStep(m, press, env);
      var q := Run(p.0, moves, env);
      var r := FrameStep(q.0, release, env);
      && p.1 == [StoreCanvasMode(Some(MoveMode))]
      && q.1 == []
      && r.0.app.primary == m.app.primary
      && r.0.selected == m.selected && r.0.contour == m.contour && r.0.contourIndex == m.contourIndex
      && r.0.oldMode.None? && r.0.oldApp.None?
      && |r.1| > 0 && r.1[0] == StoreCanvasMode(Some(SelectPointsMode))
      && (forall a :: a in r.1[1..] ==> a.ChangeGlyphNode? && a.glyphName == release.glyph.value.name)
      && (!InDraggingState(m.app) ==> r.1 == [StoreCanvasMode(Some(SelectPointsMode))])
  {
    SpacePressFrame(m, press, env);
    var p := FrameStep(m, press, env);
    assert p.0.prevDown == press.pointer.down;
    MoveFramesKeepSelection(p.0, moves, env);
    var q := Run(p.0, moves, env);
    SpaceReleaseFrame(q.0, release, env);
  }

  /** The lingering ZOOMING bit at frame level: a click in select-points
      mode on the frame after a wheel tick finds no `=== DEFAULT` and starts
      no selection box. */
  lemma ClickAfterWheelIgnored(m: Model, f: Frame, env: Env)
    requires !m.halted && !m.resetPending && m.app == AppState(Default, true)
    requires f.glyph.Some? && !f.glyphChanged && f.canvasMode == SelectPointsMode
    requires f.keyDown == 0 && f.keyUp == 0 && f.pointer.edge == EdgeDown && f.pointer.wheel == 0.0
    ensures var r := FrameStep(m, f, env).0;
      r.app == Set(Default) && r.boxStart == m.boxStart && r.selected == m.selected
  {
    var g := f.glyph.value;
    var boxed := if m.boxStart.Some? then f.boxHits else [];
    var front := Front(Begin(m, f), f);
    assert front == Stage(DoubleClick(Begin(m, f), f), SelectPointsMode, []);
    var st := ModeBranch(front, f, Released(m, f.pointer), boxed, g);
    LingeringZoomBlocksBoxStart(SelOf(front.m), f.pointer, Released(m, f.pointer), f.hot, boxed);
    assert SelOf(st.m) == SelOf(front.m);
    BackQuiet(st, f, g, env);
  }

  /** A halted loop stays halted and dispatches nothing. */
  lemma HaltedIsFinal(m: Model, fs: seq<Frame>, env: Env)
    requires m.halted
    ensures Run(m, fs, env) == (m, [])
    decreases |fs|
  {
    if fs != [] {
      assert FrameStep(m, fs[0], env) == (m, []);
      HaltedIsFinal(m, fs[1..], env);
      var first := FrameStep(m, fs[0], env);
      var rest := Run(first.0, fs[1..], env);
      assert rest == (m, []);
      assert Run(m, fs, env) == (rest.0, first.1 + rest.1);
      assert first.1 + rest.1 == [];
    }
  }

  /** Escape clears exactly the addresses a drag of the same item writes. */
  lemma EscapeClearsWhatDragWrites(o: Oracle, g: Glyph, it: Interaction)
    requires ChangeFor(o, g, it).Change?
    ensures EscapeChanges(it.item).Some?
    ensures EscapeChanges(it.item).value.Keys == ChangeFor(o, g, it).changes.Keys
  {
    var item := it.item;
    var pid := item.data.parentId;
    match item.kind
    case NodeIn =>
      assert pid + ".dir" + "In" == pid + ".dir" + SideName(SideOf(item.kind));
    case ContourNodeIn =>
      assert pid + ".dir" + "In" == pid + ".dir" + SideName(SideOf(item.kind));
    case NodeOut =>
      assert pid + ".dir" + "Out" == pid + ".dir" + SideName(SideOf(item.kind));
    case ContourNodeOut =>
      assert pid + ".dir" + "Out" == pid + ".dir" + SideName(SideOf(item.kind));
    case _ =>
  }

  /** For skeleton and contour nodes Escape sends what dragging the node
      back onto its base position would send: zero offsets. */
  lemma EscapeIsDragToBase(item: Item)
    requires item.kind == NodeSkeleton || item.kind == ContourNode
    ensures EscapeChanges(item) == Some(SkeletonPosModification(item, item.data.base))
  {
  }

  /** An arrow press on a skeleton or contour node moves its offsets by one
      unit (mirrored like the drag) from where a drag to the node's current
      position would put them. */
  lemma ArrowShiftsOffsetsByOne(g: Glyph, item: Item, key: int)
    requires item.kind == NodeSkeleton || item.kind == ContourNode
    requires item.id in g.nodes && 37 <= key <= 40
    ensures var v := Unmirror(Nudge(key).value, item.data.transforms);
      var addr := item.data.modifAddress;
      var here := SkeletonPosModification(item, g.nodes[item.id].pos);
      var moved := SkeletonPosModification(item, Add(g.nodes[item.id].pos, Nudge(key).value));
      && moved.Keys == here.Keys
      && moved[addr + "x"].r == here[addr + "x"].r + v.x
      && moved[addr + "y"].r == here[addr + "y"].r + v.y
  {
  }
}
