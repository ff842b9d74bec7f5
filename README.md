# Glyph canvas interaction core

A Dafny model of the per-frame interaction loop of prototypo's glyph canvas
(`app/scripts/components/glyph-canvas.components.jsx`).

Each animation frame the `rafFunc` closure does these things in order:

- reads the pointer, the keyboard edges and what the hit tester reports;
- resolves the canvas mode (move, select points or components), with the
  space bar temporarily overriding it;
- drives the `appStateValue` state machine of that mode;
- sets the ZOOMING bit from the wheel;
- on Escape, dispatches change-sets that reset the selected items;
- pans or zooms the camera;
- turns drags and the arrow keys into change-sets.

Every change-set is dispatched as a `/change-glyph-node-manually` action.

The change-sets come from the pure geometric builders at the top of the file:
`handleModification`, `changesDirOfHandle`, `onCurveModification`,
`skeletonPosModification` and `skeletonDistrModification`.

How the model is laid out:

- `base.dfy`, `items.dfy`, `actions.dfy`, `state.dfy`: values. These are
  vectors, the numbers a change-set carries (a finite number, `undefined`, or
  the non-finite result of an unguarded division), hit-test items, the glyph
  as `_get` sees it, the dispatched actions, `appStateValue` as a primary
  state plus the ZOOMING bit, and the closure state.
- `modifications.dfy`: the builders, as functions returning
  `Option<ChangeSet>`. `None` is the TypeError the source throws when a glyph
  lookup it dereferences misses.
- `camera.dfy`: the pan and wheel-zoom rule with its 0.1..10 clamp.
- `modes.dfy`, `components.dfy`, `selection.dfy`: mode resolution, the space
  override, move mode, components mode and the select-points table.
- `keys.dfy`: the Escape and arrow-key change-sets.
- `dependencies.dfy`: how the dependency overlay truncates depender addresses
  and drops anchors.
- `loop.dfy`: one whole frame as the function `FrameStep`, split into its
  stages. It also holds the lemmas that span several stages or frames, such
  as the space-bar round trip, the invariant and the halted loop.
- `canvas.dfy`: the loop as the source runs it. The closure variables are the
  fields of the class `GlyphCanvas`. `Step` updates them stage by stage, and
  loop methods build and dispatch the interactions. Each method is proved to
  compute exactly the functions of `loop.dfy`.

An uncaught TypeError in a frame ends the `requestAnimationFrame` chain,
because `raf(rafFunc)` is then never called again. The model records this as
the `halted` flag: a halted canvas ignores every later frame.

The geometry the builders call (`Math.atan2`, `distance2D`, `normalize2D`,
`rayRayIntersection`) is a function-valued `Oracle` parameter. So is toile's
screen-to-glyph transform and composed zoom translation (`Projection`). The
lemmas hold for every choice of these functions, except where a lemma states
what it needs of them. `TensionSign` and `TensionFlipsAcrossIntersection`
require `Metric`, a distance that is never negative. The zoom of the composed
matrix (line 804) is not a parameter. It is taken to be the wheel scale times
the old zoom, which is what multiplying the view by a uniform scale gives.

Where the component's documented behaviour and its code differ, the model
follows the code:

- The selection is not always empty in DEFAULT and BOX_SELECTING.
  CONTOUR_POINT_SELECTED starts a box on a press over another contour and
  keeps its selection (lines 533-537). DEFAULT keeps whatever selection it
  was left with.
- A press on the selected contour goes to DRAGGING_CONTOUR. The contour index
  advances only when a box is released over hot contours (lines 453-456).
- The zoom keeps its old translation only when the clamped zoom equals the
  old zoom (lines 805-810), not on every clamp.
- The `===` tests (lines 424 and 443) fail while a ZOOMING bit is left over
  from the previous frame. A click in DEFAULT right after a wheel tick
  therefore starts no box, and a hovered component is dropped.
- Releasing space with nothing saved sets the mode to `undefined`, so no
  mode branch runs that frame. The saved state comes back only for
  select-points.
- With the smoothing modifier, the opposite handle's angle is written to
  `parentId.In`/`parentId.Out` (line 89). That modifier bit, like
  SKELETON_DISTR, is never set in this file: handles are never smoothed, and
  `skeletonDistrModification` is never reached.

## Model

| member | source | states |
|---|---|---|
| Base.Div | app/scripts/components/glyph-canvas.components.jsx:111 | a JavaScript division is non-finite exactly when the divisor is zero; otherwise the quotient times the divisor is the dividend |
| Items.Filter | app/scripts/components/glyph-canvas.components.jsx:438-441 | the filtered hot items are no more than the input, and an item is kept iff it is in the input and its type passes the test |
| Items.FilterAppend | app/scripts/components/glyph-canvas.components.jsx:438-441 | filtering keeps the order: filtering a concatenation is concatenating the filtered parts |
| Items.FilterMultiset | app/scripts/components/glyph-canvas.components.jsx:438-441 | filtering never duplicates an item: the result is a sub-multiset of the input |
| Items.FilterFirst | app/scripts/components/glyph-canvas.components.jsx:386-390 | the first kept item is the first input item of a passing type, and every item before it fails the test; this is the item the "first hot X" rules take |
| Modifications.Mirror | app/scripts/components/glyph-canvas.components.jsx:34-35 | the mirror factor is ±1, and it is negative exactly when the axis is among the glyph's transforms |
| Modifications.Unmirror | app/scripts/components/glyph-canvas.components.jsx:36-39 | each coordinate is negated exactly when the glyph is mirrored along that axis |
| Modifications.HandleAngle | app/scripts/components/glyph-canvas.components.jsx:33-40 | the handle angle is atan2 of the offset from the parent, each coordinate negated along a mirrored axis |
| Modifications.HandleAngleMirrored | app/scripts/components/glyph-canvas.components.jsx:33-40 | mirroring the glyph along x and reflecting the pointer about the parent gives the same angle |
| Modifications.RawTension | app/scripts/components/glyph-canvas.components.jsx:42-51 | the raw tension times the intersection-to-parent distance (1 when that distance is 0) is the handle length, negated when the dot product with the intersection is positive |
| Modifications.UnmirrorInvolutive | app/scripts/components/glyph-canvas.components.jsx:36-39 | mirror correction applied twice gives the vector back |
| Modifications.TensionSign | app/scripts/components/glyph-canvas.components.jsx:42-51 | for a nonzero handle length the tension is never zero, and it is negative iff the handle was pulled past the intersection point (positive dot product) |
| Modifications.TensionFlipsAcrossIntersection | app/scripts/components/glyph-canvas.components.jsx:42-51 | drags on opposite sides of the parent point, relative to the intersection, give tensions of opposite signs |
| Modifications.NormalisedTension | app/scripts/components/glyph-canvas.components.jsx:85 | the stored tension times 0.6 × base tension is the raw tension; an undefined or zero base tension leaves the raw tension unchanged |
| Modifications.HandleKeysCount | app/scripts/components/glyph-canvas.components.jsx:83-90 | a handle drag writes two distinct addresses, three with the smoothing modifier |
| Modifications.ChangesDirOfHandle | app/scripts/components/glyph-canvas.components.jsx:70-96 | fails iff smoothing needs a missing skeleton node; writes exactly the own side's dir and tension (plus the opposite key when smoothing), with the dir relative to the base dir and the tension normalised |
| Modifications.HandleModification | app/scripts/components/glyph-canvas.components.jsx:27-68 | throws iff the parent node is missing or smoothing needs a missing skeleton node; otherwise writes exactly the handle keys of its own side, all finite |
| Modifications.HandleDragWritesOwnSide | app/scripts/components/glyph-canvas.components.jsx:27-96 | without smoothing, a drag with the parent present writes exactly the own side's dir and tension: the dir is the mirror-corrected angle minus the base dir, the tension is the signed length ratio divided by 0.6 × base tension (the raw ratio when the base tension is undefined or zero) |
| Modifications.StoredTensionSign | app/scripts/components/glyph-canvas.components.jsx:42-85 | for a metric distance, a nonzero handle length and a non-negative base tension, the tension written is a nonzero number, negative iff the handle was pulled past the intersection |
| Modifications.OnCurveModification | app/scripts/components/glyph-canvas.components.jsx:98-131 | throws iff the opposite node is missing; writes width iff WIDTH_MOD and angle iff ANGLE_MOD and nothing else; the width factor is non-finite iff the base width is zero, and otherwise times the base width gives the distance to the opposite node |
| Modifications.SkeletonPosModification | app/scripts/components/glyph-canvas.components.jsx:133-147 | writes exactly the two offsets `addr+"x"` and `addr+"y"`: the pointer minus the base, negated along each mirrored axis |
| Modifications.SkeletonPosRoundTrip | app/scripts/components/glyph-canvas.components.jsx:133-147 | the base plus the mirror-corrected offsets is the pointer position: the change-set puts the node under the pointer |
| Modifications.DistrProjection | app/scripts/components/glyph-canvas.components.jsx:157-160 | the projection along the skeleton is clamped into [0, width] |
| Modifications.SkeletonDistrModification | app/scripts/components/glyph-canvas.components.jsx:149-174 | writes exactly `expand.distr`, `x` and `y`; the offsets are finite and the fraction is non-finite iff the width is zero |
| Modifications.DistrStaysOnSegment | app/scripts/components/glyph-canvas.components.jsx:149-174 | for a positive width, the fraction lies in [-baseDistr, 1-baseDistr] and the base plus the offsets is the projected point on the segment |
| Camera.Recentred | app/scripts/components/glyph-canvas.components.jsx:325-334 | the double-click recentring is zoom 0.5 about the bounding-box centre, which lies within the zoom bounds |
| Camera.Clamp | app/scripts/components/glyph-canvas.components.jsx:805 | the clamped zoom is in [0.1, 10], equals the zoom inside the bounds, and equals the bound it passed outside |
| Camera.Pan | app/scripts/components/glyph-canvas.components.jsx:778-792 | panning keeps the zoom and moves the translation by exactly the pointer delta |
| Camera.ZoomStep | app/scripts/components/glyph-canvas.components.jsx:793-811 | the new zoom is (1 + wheel/1000) × zoom clamped into [0.1, 10]; the translation is kept when the clamped zoom equals the old one and is the composed translation otherwise |
| Camera.ZoomScalesWithinBounds | app/scripts/components/glyph-canvas.components.jsx:793-811 | inside the bounds the zoom becomes (1 + wheel/1000) × zoom and takes the composed translation |
| Camera.ZoomPinnedAtBound | app/scripts/components/glyph-canvas.components.jsx:805-810 | a camera at a zoom bound, pushed further past it, does not move at all |
| Camera.RepeatedZoomOutPinned | app/scripts/components/glyph-canvas.components.jsx:793-811 | any number of zoom-out steps at the lower bound leave the camera unchanged |
| Camera.RepeatedZoomInPinned | app/scripts/components/glyph-canvas.components.jsx:793-811 | any number of zoom-in steps at the upper bound leave the camera unchanged |
| Modes.ResolveMode | app/scripts/components/glyph-canvas.components.jsx:294-305 | the resolved mode is always a known one: the store's mode if known, move otherwise |
| Modes.SpaceUp | app/scripts/components/glyph-canvas.components.jsx:343-357 | on space up: the mode becomes the saved one (none runs if nothing was saved); the store is told the saved mode; the saved state comes back only for select-points; both saved values are cleared; every other field is kept |
| Modes.SpaceDown | app/scripts/components/glyph-canvas.components.jsx:359-371 | on space down: the store's mode and the current state are saved, the frame runs in move mode, the store is told 'move', and nothing else changes |
| Modes.SpaceTapRestores | app/scripts/components/glyph-canvas.components.jsx:343-371 | a space press then release in select-points gives back the same state and mode, with the two store actions in order |
| Modes.MoveStep | app/scripts/components/glyph-canvas.components.jsx:375-384 | move mode is MOVING iff the button is down and DEFAULT iff it is up; nothing else changes |
| Components.MenuActions | app/scripts/components/glyph-canvas.components.jsx:392-419 | none without a release; on a release, a component change from the first hot choice iff a choice is hot, then a class change from the first hot class choice iff one is hot, and nothing else |
| Components.ComponentsStep | app/scripts/components/glyph-canvas.components.jsx:385-435 | components mode appends exactly the menu actions, lands in COMPONENT_HOVERED, COMPONENT_MENU_HOVERED or DEFAULT, and changes nothing but the state and the hover |
| Components.MenuReleaseDispatches | app/scripts/components/glyph-canvas.components.jsx:392-435 | a release with a choice or class choice hot, wherever it sits, appends exactly the menu actions (the change of the first hot choice first) and leaves nothing hovered in DEFAULT |
| Components.ComponentsOutcome | app/scripts/components/glyph-canvas.components.jsx:385-435 | when no choice or class choice is released on, nothing is dispatched; COMPONENT_HOVERED is reached iff the state is exactly DEFAULT or COMPONENT_HOVERED and a component is hot (it is then the first hot one); otherwise COMPONENT_MENU_HOVERED iff the menu is hot, keeping the hover, and DEFAULT with the hover cleared iff it is not; nothing else changes |
| Components.LingeringZoomDropsHover | app/scripts/components/glyph-canvas.components.jsx:424-434 | a ZOOMING bit left from the previous frame drops a hovered component when the menu is not hot |
| Selection.SelectPointsStep | app/scripts/components/glyph-canvas.components.jsx:436-572 | the table changes only the selection state; saved mode, hover, camera, timer and button memory are kept |
| Selection.SelectPoints | app/scripts/components/glyph-canvas.components.jsx:436-572 | without a press or a release nothing changes; the table throws iff a press finds a hot contour with none selected in CONTOUR_SELECTED or a point-selected state, or a contour-point release finds an empty selection; entering BOX_SELECTING records the pointer as the box origin; the contour index only advances by one or resets to 0 |
| Selection.BoxRelease | app/scripts/components/glyph-canvas.components.jsx:447-461 | a box release never throws; it goes to POINTS_SELECTED iff items are boxed, selecting exactly them, and otherwise to CONTOUR_SELECTED or DEFAULT; the index advances only with a contour picked from the hot ones |
| Selection.PressInContourSelected | app/scripts/components/glyph-canvas.components.jsx:463-485 | a press in CONTOUR_SELECTED throws iff no node but a contour is hot and none is selected; starting a box clears the contour, resets the index and records the origin |
| Selection.ReleaseContourPoint | app/scripts/components/glyph-canvas.components.jsx:486-493 | releasing a dragged contour point throws iff the selection is empty, keeps selection and contour, and goes to SKELETON_POINT_SELECTED iff the first selected item is a skeleton node |
| Selection.PressInPointSelected | app/scripts/components/glyph-canvas.components.jsx:494-544 | a press in a point-selected state throws iff no node but a contour is hot and none is selected; otherwise it lands in DRAGGING_CONTOUR_POINT (the first hot node alone selected), DRAGGING_CONTOUR or BOX_SELECTING (origin at the pointer), keeping contour and index |
| Selection.PressInPointsSelected | app/scripts/components/glyph-canvas.components.jsx:545-568 | a press in POINTS_SELECTED drags iff the last hot node is selected, and otherwise empties the selection and starts a box at the pointer |
| Selection.SelectPointsIdle | app/scripts/components/glyph-canvas.components.jsx:443-571 | without a pointer-down edge or a release, no row of the table fires |
| Selection.DefaultPress | app/scripts/components/glyph-canvas.components.jsx:443-446 | a press in exactly DEFAULT starts a box at the pointer and changes nothing else |
| Selection.ContourSelectedPress | app/scripts/components/glyph-canvas.components.jsx:463-485 | a press in CONTOUR_SELECTED: a hot node is selected alone for DRAGGING_CONTOUR_POINT; the selected contour, when hot, goes to DRAGGING_CONTOUR; no hot contour, or another one, starts a box at the pointer with the contour cleared and the index reset to 0; a hot contour with none selected throws |
| Selection.PointSelectedPress | app/scripts/components/glyph-canvas.components.jsx:494-544 | a press in SKELETON_POINT_SELECTED or CONTOUR_POINT_SELECTED: a hot node is selected alone for DRAGGING_CONTOUR_POINT; the selected contour, when hot, goes to DRAGGING_CONTOUR; nothing hot starts a box at the pointer with an empty selection; a hot contour with none selected throws |
| Selection.DragRelease | app/scripts/components/glyph-canvas.components.jsx:519-571 | releasing in DRAGGING_CONTOUR gives CONTOUR_SELECTED, in DRAGGING_POINTS gives POINTS_SELECTED, and nothing else changes |
| Selection.BoxSelectRelease | app/scripts/components/glyph-canvas.components.jsx:447-461 | a box release selects the boxed items if any; else it selects contour `index mod n` of the hot contours and advances the index; else it goes back to DEFAULT; the box origin is cleared only in the first and last cases |
| Selection.LingeringZoomBlocksBoxStart | app/scripts/components/glyph-canvas.components.jsx:443-446 | DEFAULT with a leftover ZOOMING bit changes nothing, whatever the pointer does |
| Selection.ContourPointRelease | app/scripts/components/glyph-canvas.components.jsx:486-493 | releasing a dragged contour point gives SKELETON_POINT_SELECTED iff the first selected item is a skeleton node, CONTOUR_POINT_SELECTED otherwise, and nothing else changes |
| Selection.PointsSelectedPress | app/scripts/components/glyph-canvas.components.jsx:545-568 | a press in POINTS_SELECTED starts dragging iff the last hot node is selected (nothing else changes); otherwise it empties the selection and starts a box at the pointer |
| Selection.EarlierHitIgnored | app/scripts/components/glyph-canvas.components.jsx:548-556 | a selected hot node followed by an unselected one starts a box; in the other order it starts a drag |
| Selection.OtherContourPress | app/scripts/components/glyph-canvas.components.jsx:494-544 | a press on another contour starts a box from both point-selected states; CONTOUR_POINT_SELECTED keeps the selection, SKELETON_POINT_SELECTED empties it |
| Selection.ReleaseChainPicks | app/scripts/components/glyph-canvas.components.jsx:447-456 | k box releases over the same hot contours select `contours[(index + j) mod n]` for j < k |
| Selection.PicksCycle | app/scripts/components/glyph-canvas.components.jsx:453-456 | n picks over n contours take each once, and in order from a start that is a multiple of n |
| Selection.ReleasesCycleThroughContours | app/scripts/components/glyph-canvas.components.jsx:453-456 | n releases over n hot contours select each of them exactly once (as a multiset), and exactly in order when the index is a multiple of n |
| Keys.EscapeChanges | app/scripts/components/glyph-canvas.components.jsx:730-772 | Escape sends a change-set for an item iff it is of a node type, and that change-set has two entries |
| Keys.EscapeActions | app/scripts/components/glyph-canvas.components.jsx:729-774 | one action per selected node-type item; each is a two-entry change-set of this glyph |
| Keys.EscapeActionsSpec | app/scripts/components/glyph-canvas.components.jsx:729-774 | the Escape actions are, in selection order, the change-sets of exactly the selected node-type items, each for this glyph |
| Keys.EscapeResets | app/scripts/components/glyph-canvas.components.jsx:730-772 | Escape clears a handle's own `dir` and `tension` (In or Out), clears an on-curve node's `width` and `angle`, and sets a skeleton or contour node's `x` and `y` offsets to 0 |
| Keys.EscapeClearsHandleSide | app/scripts/components/glyph-canvas.components.jsx:732-741 | Escape on an in-handle clears exactly `dirIn` and `tensionIn` and leaves the out side alone |
| Keys.Nudge | app/scripts/components/glyph-canvas.components.jsx:844-861 | a nudge exists iff the key is 37..40: left (37) is (-1, 0), up (38) is (0, 1), right (39) is (1, 0), down (40) is (0, -1); each has unit length along one axis |
| Keys.OppositeArrowsCancel | app/scripts/components/glyph-canvas.components.jsx:849-861 | left and right cancel, up and down cancel, and the four arrows are distinct |
| Loop.ChangeFor | app/scripts/components/glyph-canvas.components.jsx:880-947 | an interaction has no change-set iff its item is not of a node type; it throws iff it is a handle whose parent is missing or an on-curve node whose opposite is missing |
| Loop.Dispatch | app/scripts/components/glyph-canvas.components.jsx:880-964 | the dispatch sends at most one action per interaction, and nothing for no interactions |
| Loop.DispatchThrows | app/scripts/components/glyph-canvas.components.jsx:880-964 | the dispatch throws iff some interaction's builder throws |
| Loop.DispatchNamed | app/scripts/components/glyph-canvas.components.jsx:92-166 | every dispatched action is a `/change-glyph-node-manually` of this glyph |
| Loop.DispatchContents | app/scripts/components/glyph-canvas.components.jsx:880-964 | when every builder succeeds, one action per interaction, the i-th carrying the i-th change-set |
| Loop.DispatchStopsAtThrow | app/scripts/components/glyph-canvas.components.jsx:880-964 | on the first throwing builder the loop stops: what was sent is exactly what the interactions before it send, none of which throws |
| Loop.DispatchSpec | app/scripts/components/glyph-canvas.components.jsx:880-964 | the dispatch throws iff some builder throws; every action is a change-set of this glyph; when every builder succeeds, the i-th action carries exactly the i-th interaction's change-set |
| Loop.DragTargets | app/scripts/components/glyph-canvas.components.jsx:825-834 | every selected item, in order, goes to the pointer's glyph-space position |
| Loop.ArrowTargetsSpec | app/scripts/components/glyph-canvas.components.jsx:838-867 | the nudge throws iff some selected id is not a glyph address; otherwise each item, in order, goes to its node's position moved by the nudge |
| Loop.Begin | app/scripts/components/glyph-canvas.components.jsx:289-315 | the frame start records the button state and remembers a glyph change as a pending reset, and changes nothing else |
| Loop.ResetIfPending | app/scripts/components/glyph-canvas.components.jsx:316-322 | a pending reset gives exactly DEFAULT with an empty selection and is consumed; without one nothing changes |
| Loop.DoubleClick | app/scripts/components/glyph-canvas.components.jsx:324-341 | only a pointer-down edge acts: within the 400 ms window it recentres the camera at zoom 0.5 on the glyph centre and keeps the timer, otherwise it arms the timer at this frame's time; nothing else changes |
| Loop.ModeBranch | app/scripts/components/glyph-canvas.components.jsx:372-572 | no mode branch touches the camera, the saved mode and state, the button memory or the reset flag |
| Loop.DrawCheck | app/scripts/components/glyph-canvas.components.jsx:638-653 | drawing the selected contour throws iff a contour state has no contour selected; nothing else changes |
| Loop.EscapeStage | app/scripts/components/glyph-canvas.components.jsx:722-776 | Escape only appends actions; in a point-selected state it appends exactly the Escape actions of the selection, and in any other state or on any other key it does nothing |
| Loop.CameraStep | app/scripts/components/glyph-canvas.components.jsx:778-811 | the camera rule changes only the view and keeps the zoom within its bounds; MOVING pans by the pointer delta (taking priority over the wheel), otherwise ZOOMING applies the wheel zoom, and otherwise nothing changes |
| Loop.Interactions | app/scripts/components/glyph-canvas.components.jsx:816-868 | a dragging state moves every selected item to the pointer's glyph-space position, a point-selected state with an arrow key nudges them, and any other state yields no interaction |
| Loop.Interact | app/scripts/components/glyph-canvas.components.jsx:813-964 | the interaction stage appends exactly what the dispatch of the frame's interactions sends, and throws iff a builder throws or an arrow nudges an unknown id; nothing else changes |
| Loop.Front | app/scripts/components/glyph-canvas.components.jsx:294-371 | the stages before the mode branch keep the invariant, the halted flag and the button memory |
| Loop.FrameKeepsInv | app/scripts/components/glyph-canvas.components.jsx:271-1005 | every frame keeps the zoom in [0.1, 10], and sets and clears the saved mode and saved state together |
| Loop.BackKeepsInv | app/scripts/components/glyph-canvas.components.jsx:575-964 | the stages after the mode branch keep that invariant |
| Loop.BackQuiet | app/scripts/components/glyph-canvas.components.jsx:575-964 | outside the contour, dragging and point-selected states, those stages only set the ZOOMING bit and move the camera; nothing is dispatched or thrown |
| Loop.BackWithoutKeys | app/scripts/components/glyph-canvas.components.jsx:575-964 | with no key pressed, those stages only append change-sets of this glyph, and append nothing outside the dragging states |
| Loop.NoGlyphFrame | app/scripts/components/glyph-canvas.components.jsx:289-315 | a frame without a glyph only records the button state and a pending reset, and dispatches nothing |
| Loop.Back | app/scripts/components/glyph-canvas.components.jsx:575-964 | the stages after the mode branch set the ZOOMING bit from the wheel, change only the state, camera and halted flag, only append actions, and do nothing once halted |
| Loop.FrameStep | app/scripts/components/glyph-canvas.components.jsx:271-1005 | a halted loop ignores the frame; otherwise the button state is recorded, and a frame without a glyph dispatches nothing |
| Loop.FrameWithGlyph | app/scripts/components/glyph-canvas.components.jsx:271-1005 | a frame with a glyph is the frame start, the stages before the mode branch, the mode branch, then the stages after it |
| Loop.Run | app/scripts/components/glyph-canvas.components.jsx:271-1005 | a halted run over any frames does nothing and dispatches nothing |
| Loop.GlyphChangeResets | app/scripts/components/glyph-canvas.components.jsx:316-322 | a frame with a glyph change, or following one, runs its mode branch from exactly DEFAULT with an empty selection, keeping the contour and its index, and ends with no reset pending |
| Loop.FrameTimer | app/scripts/components/glyph-canvas.components.jsx:324-341 | a whole frame leaves the double-click timer as the double click sets it, and with the pointer still also the camera |
| Loop.DoubleClickTwoFrames | app/scripts/components/glyph-canvas.components.jsx:324-341 | two presses: the first arms the timer; a second within 400 ms recentres at zoom 0.5 on the glyph centre, one 400 ms or more later re-arms the timer and leaves the camera |
| Loop.QuietSelectFrame | app/scripts/components/glyph-canvas.components.jsx:436-572 | a select-points frame with no pointer edge, release, space edge or glyph change runs the stages after the mode branch on the unchanged state |
| Loop.DragStages | app/scripts/components/glyph-canvas.components.jsx:778-964 | in a dragging state the camera update comes first, then the drag to the pointer's glyph-space position read against the updated camera, which throws iff its dispatch throws |
| Loop.DragDispatch | app/scripts/components/glyph-canvas.components.jsx:880-964 | dragging skeleton and contour nodes never throws and sends, in order, each node's position change-set |
| Loop.DragSends | app/scripts/components/glyph-canvas.components.jsx:813-964 | in a dragging state the stages after the mode branch send, per selected skeleton or contour node in order, the change-set that puts it under the pointer |
| Loop.DragFrame | app/scripts/components/glyph-canvas.components.jsx:271-1005 | a whole frame of a held drag keeps the state and selection and sends, per selected skeleton or contour node in order, the change-set whose offsets put it under the pointer |
| Loop.EscapeSends | app/scripts/components/glyph-canvas.components.jsx:722-964 | Escape in a point-selected state sends exactly the Escape actions of the selection |
| Loop.EscapeFrame | app/scripts/components/glyph-canvas.components.jsx:271-1005 | a whole select-points frame with Escape in a point-selected state sends exactly the Escape actions of the selection |
| Loop.ArrowSends | app/scripts/components/glyph-canvas.components.jsx:838-964 | an arrow in a point-selected state sends the dispatch of the nudged targets, throwing iff an id is unknown or a builder throws |
| Loop.OtherKeysSendNothing | app/scripts/components/glyph-canvas.components.jsx:722-964 | outside the dragging states, any key but Escape or an arrow in a point-selected state sends nothing |
| Loop.KeysIgnoredWhileDragging | app/scripts/components/glyph-canvas.components.jsx:722-964 | in a dragging state the keyboard changes nothing the later stages do |
| Loop.MoveFrameStages | app/scripts/components/glyph-canvas.components.jsx:372-384 | a move-mode frame with a glyph is the double click, the move step, the ZOOMING bit and the camera step, and nothing is dispatched |
| Loop.MoveFrameKeepsSelection | app/scripts/components/glyph-canvas.components.jsx:372-384 | a move-mode frame does not throw or dispatch, and keeps the saved mode and state, selection, contour, index and box origin |
| Loop.MoveFramesKeepSelection | app/scripts/components/glyph-canvas.components.jsx:372-384 | the same holds for any run of move-mode frames |
| Loop.SpacePressFrame | app/scripts/components/glyph-canvas.components.jsx:359-384 | space down in select-points saves the mode and state, dispatches only the store change to 'move', and runs the frame in move mode |
| Loop.SpaceReleaseFrame | app/scripts/components/glyph-canvas.components.jsx:343-357 | space up with select-points saved puts the saved state back, keeps the selection and contour, and clears the saved values; it tells the store first, and dispatches nothing else unless the restored state is a drag, whose change-sets follow |
| Loop.SpaceOverrideRoundTrip | app/scripts/components/glyph-canvas.components.jsx:343-384 | press, any move-mode frames, release: back in the state left, with the same selection, contour and index and nothing saved; the press dispatches only the switch to move, the moves dispatch nothing, and the release dispatches the switch back and, unless the saved state was a drag, nothing else |
| Loop.ClickAfterWheelIgnored | app/scripts/components/glyph-canvas.components.jsx:443-580 | a click in select-points on the frame after a wheel tick starts no box and keeps the selection |
| Loop.HaltedIsFinal | app/scripts/components/glyph-canvas.components.jsx:999-1005 | a canvas whose loop threw does nothing in any later frame |
| Loop.EscapeClearsWhatDragWrites | app/scripts/components/glyph-canvas.components.jsx:729-774 | Escape clears exactly the addresses a successful drag of the same item writes |
| Loop.EscapeIsDragToBase | app/scripts/components/glyph-canvas.components.jsx:761-770 | for skeleton and contour nodes, Escape sends what a drag back onto the base position sends |
| Loop.ArrowShiftsOffsetsByOne | app/scripts/components/glyph-canvas.components.jsx:838-868 | an arrow press moves a skeleton node's offsets by one mirrored unit from where they would be at its current position |
| Canvas.EscapeAll | app/scripts/components/glyph-canvas.components.jsx:729-774 | the Escape loop dispatches exactly the actions `EscapeActions` specifies |
| Canvas.DragAll | app/scripts/components/glyph-canvas.components.jsx:825-834 | the drag map builds exactly `DragTargets` |
| Canvas.ArrowAll | app/scripts/components/glyph-canvas.components.jsx:847-867 | the arrow map builds exactly `ArrowTargets`, stopping at the first missing id |
| Canvas.DispatchAll | app/scripts/components/glyph-canvas.components.jsx:880-964 | the dispatch loop sends exactly what `Dispatch` specifies and stops at the first builder that throws |
| Canvas.GlyphCanvas.constructor | app/scripts/components/glyph-canvas.components.jsx:250-269 | the closure state at mount is `Initial` and satisfies the invariant |
| Canvas.GlyphCanvas.ApplyReset | app/scripts/components/glyph-canvas.components.jsx:318-322 | the fields become `ResetIfPending` of the old ones: a pending reset gives DEFAULT with an empty selection and is consumed (the frame-level effect is `GlyphChangeResets`) |
| Canvas.GlyphCanvas.ApplyDoubleClick | app/scripts/components/glyph-canvas.components.jsx:325-340 | the fields become `DoubleClick` of the old ones: a press inside the 400 ms window recentres, any other press arms the timer (across two frames, `DoubleClickTwoFrames`) |
| Canvas.GlyphCanvas.ApplySpaceUp | app/scripts/components/glyph-canvas.components.jsx:343-357 | the space release as a state update |
| Canvas.GlyphCanvas.ApplySpaceDown | app/scripts/components/glyph-canvas.components.jsx:359-371 | the space press as a state update |
| Canvas.GlyphCanvas.RunFront | app/scripts/components/glyph-canvas.components.jsx:294-371 | the stages before the mode branch, in place |
| Canvas.GlyphCanvas.RunModeBranch | app/scripts/components/glyph-canvas.components.jsx:372-572 | the mode branch, in place |
| Canvas.GlyphCanvas.ApplyComponents | app/scripts/components/glyph-canvas.components.jsx:385-435 | components mode in place: the fields and actions become `ComponentsStep` of the old ones |
| Canvas.GlyphCanvas.ApplySelectPoints | app/scripts/components/glyph-canvas.components.jsx:436-572 | select-points mode in place: the fields become `SelectPointsStep` of the old ones |
| Canvas.GlyphCanvas.ApplyCamera | app/scripts/components/glyph-canvas.components.jsx:778-811 | the fields become `CameraStep` of the old ones: MOVING pans by the delta, otherwise ZOOMING zooms by the wheel, and only the view changes |
| Canvas.GlyphCanvas.BuildInteractions | app/scripts/components/glyph-canvas.components.jsx:816-868 | the drag and arrow loops build exactly `Interactions`: drags in a dragging state, nudges in a point-selected state with an arrow key, nothing otherwise |
| Canvas.GlyphCanvas.ApplyInteract | app/scripts/components/glyph-canvas.components.jsx:870-964 | the fields and actions become `Interact` of the old ones: exactly the dispatched change-sets are appended, and the canvas halts iff a builder or an arrow lookup throws |
| Canvas.GlyphCanvas.RunBack | app/scripts/components/glyph-canvas.components.jsx:575-964 | the stages after the mode branch, in place |
| Canvas.GlyphCanvas.RunGlyph | app/scripts/components/glyph-canvas.components.jsx:315-964 | a frame with a glyph, from the stages before the mode branch to the dispatch, in place |
| Canvas.GlyphCanvas.Frame | app/scripts/components/glyph-canvas.components.jsx:271-1005 | the fields and dispatched actions of one call are exactly `FrameStep` of the old state |
| Canvas.GlyphCanvas.Step | app/scripts/components/glyph-canvas.components.jsx:271-1005 | one call of rafFunc keeps the invariant; the new fields and the dispatched actions are exactly `FrameStep` of the old state |
| Dependencies.Split | app/scripts/components/glyph-canvas.components.jsx:710 | splitting on dots gives at least one part, the parts hold no dot, and there is one more part than dots |
| Dependencies.JoinSplit | app/scripts/components/glyph-canvas.components.jsx:710 | joining the parts again gives the address back |
| Dependencies.DependerAddresses | app/scripts/components/glyph-canvas.components.jsx:704-714 | an address is drawn iff it is the truncation of a dependency that does not mention 'anchor'; at most one per dependency |
| Dependencies.TruncateIsPrefix | app/scripts/components/glyph-canvas.components.jsx:710 | the truncated address is a prefix of the dependency with at most three dots; a dependency with at most three dots is kept whole, and a longer one is cut just before its fourth dot |

The in-place methods of `GlyphCanvas` each state their new fields as the
stage function of `loop.dfy` applied to the old ones. `Step` chains them, and
its `ensures` ties one call to `FrameStep`, which is what the `Loop` lemmas
are about.

## Left out

- Rendering: `clearCanvas`, `drawGlyph`, `drawNodes` (except the throw when
  no contour is selected), the component menu, box, skeleton, dependency and
  tool overlays, `drawNodeProperty`, and the `frameCounters` animation. They
  only display, and toile's drawing code is not part of this model. The
  `parent` read at line 984 is part of this display code and is not modelled.
- The box drawing of BOX_SELECTING (lines 671-680) reads the box origin. The
  model does not check that read for a possible throw, and it does not prove
  that the origin is always set there.
- Hit testing (`getHotInteractiveItem`, `getBoxHotInteractiveItem`) and the
  glyph's bounding-box centre are frame inputs. toile's camera transforms are
  the `Projection` oracle, and the geometric helpers are the `Oracle`.
- Floating point: numbers are reals, and only the non-finite result of a
  division by zero is kept. NaN propagation beyond that, and float rounding,
  are not modelled.
- The `requestAnimationFrame` scheduling, the 400 ms `setTimeout` (the frame's
  `now` input is compared with the arming time instead), and the store and
  props subscriptions. A glyph change is the frame's `glyphChanged` flag, and
  the canvas mode is read from the frame.
- The P key toggles `pause` (line 272), which nothing reads. So it has no
  effect and is not a field.
- `clearKeyboardInput` (line 357) runs after any key-up. The model takes it
  to consume that key-up record, so each frame's `keyUp` is that frame's own
  key-up. The key-down edge read at line 360 and later is taken as unaffected
  by it. toile's code is not part of this model. If the call also cleared
  the down edge, a frame with both a key-up and a key-down would ignore the
  key-down.
- The edge, delta and wheel clearing at the end of a frame (lines 999-1002)
  is not modelled. Each frame's inputs are already that frame's own edges.
- The hot-reload handler (`module.hot.accept`, lines 235-247) is not
  modelled. The mount camera (line 233) is `InitialView`, taken as zoom 1 at
  the origin, and the button is taken as up when the canvas mounts.
- toile's camera setters are not part of this model. `setCamera(t, z, _)`
  (line 233) and `setCameraCenter(c, z, _, _)` (line 333) are taken to leave
  the view matrix holding zoom `z` and translation `t` (or `c`), whatever the
  canvas height and width passed along. So `InitialView` and
  `Camera.Recentred` rest on that reading, and so does every pan, zoom
  freeze and drag target that follows them.
- Module constants the file imports but does not define, namely the toileType
  numbering, the `appState` bits and the `canvasMode` names. The model
  takes the seven node types to come first, as the `<= CONTOUR_NODE_OUT` test
  needs. It also takes one distinct bit per primary state, and mode names
  equal to 'move', 'select-points' and 'components'.
- Loop.ChangeFor: never passes the smoothing modifier, and never reaches
  `skeletonDistrModification`. Their flag bits are never set in this file.
  Both builders are still modelled with and without them.
- Loop.Interactions: does not test the state guard at lines 870-879 on its
  own. In every other state the interaction list is empty, so the guard
  changes nothing.
- The payload of `/change-component` carries the glyph object. The model
  carries its name.
- The dependency overlay's `_get` lookups and `drawDependencies` are not
  modelled. Only the truncation and the anchor filter are.
