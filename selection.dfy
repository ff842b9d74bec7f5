/** The select-points sub-machine (glyph-canvas lines 436-572): box
    selection, contour selection with its cyclic index, dragging of contour
    points, contours and selected points. */
module Selection {
  import opened Base
  import opened Items
  import opened State

  /** The part of the closure state the select-points table reads and
      writes; `halted` records that the table threw. */
  datatype Sel = Sel(
    app: AppState,
    selected: seq<Item>,
    contour: Option<Item>,
    contourIndex: nat,
    boxStart: Option<Vec>,
    halted: bool)

  function SelOf(m: Model): Sel
  {
    Sel(m.app, m.selected, m.contour, m.contourIndex, m.boxStart, m.halted)
  }

  /** A state left by a pointer-down that starts a new selection box. */
  function StartBox(s: Sel, p: Pointer): Sel
  {
    s.(app := Set(BoxSelecting), boxStart := Some(p.pos))
  }

  /** Pointer-down in a point-selected state (lines 494-518 and 522-544).
      `clearOnMiss` is what distinguishes SKELETON_POINT_SELECTED, which
      empties the selection when another contour is hit, from
      CONTOUR_POINT_SELECTED, which keeps it. */
  function PressInPointSelected(s: Sel, p: Pointer, nodes: seq<Item>, contours: seq<Item>, clearOnMiss: bool): (r: Sel)
    ensures r.contour == s.contour && r.contourIndex == s.contourIndex
    ensures r.halted <==> s.halted || (|nodes| == 0 && |contours| > 0 && s.contour.None?)
    ensures !r.halted ==>
      r.app == Set(DraggingContourPoint) || r.app == Set(DraggingContour) || r.app == Set(BoxSelecting)
    ensures r.app == Set(DraggingContourPoint) && s.app != r.app ==> |nodes| > 0 && r.selected == [nodes[0]]
    ensures r.app == Set(BoxSelecting) && s.app != r.app ==> r.boxStart == Some(p.pos)
  {
    if |nodes| > 0 then s.(selected := [nodes[0]], app := Set(DraggingContourPoint))
    else if |contours| > 0 then
      if s.contour.None? then s.(halted := true)   // contourSelected.id of undefined
      else if HitsContour(contours, s.contour.value) then s.(app := Set(DraggingContour))
      else if clearOnMiss then StartBox(s.(selected := []), p)
      else StartBox(s, p)
    else StartBox(s.(selected := []), p)
  }

  /** Release in BOX_SELECTING (lines 447-461). */
  function BoxRelease(s: Sel, contours: seq<Item>, boxed: seq<Item>): (r: Sel)
    ensures r.halted == s.halted
    ensures r.app == Set(PointsSelected) || r.app == Set(ContourSelected) || r.app == Set(Default)
    ensures r.app == Set(PointsSelected) <==> |boxed| > 0
    ensures r.app == Set(PointsSelected) ==> r.selected == boxed
    ensures r.contourIndex != s.contourIndex ==>
      r.contourIndex == s.contourIndex + 1 && r.contour.Some? && r.contour.value in contours
  {
    if |boxed| > 0 then
      s.(selected := boxed, app := Set(PointsSelected), boxStart := None)
    else if |contours| > 0 then
      s.(contour := Some(contours[s.contourIndex % |contours|]),
         contourIndex := s.contourIndex + 1,
         app := Set(ContourSelected))
    else
      s.(app := Set(Default), boxStart := None)
  }

  /** Pointer-down in CONTOUR_SELECTED (lines 463-485). */
  function PressInContourSelected(s: Sel, p: Pointer, nodes: seq<Item>, contours: seq<Item>): (r: Sel)
    ensures r.halted <==> s.halted || (|nodes| == 0 && |contours| > 0 && s.contour.None?)
    ensures r.app == Set(BoxSelecting) && s.app != r.app ==>
      r.contour.None? && r.contourIndex == 0 && r.boxStart == Some(p.pos)
    ensures r.contour != s.contour ==> r.contour.None?
  {
    if |nodes| > 0 then
      s.(selected := [nodes[0]], app := Set(DraggingContourPoint))
    else if |contours| > 0 && s.contour.None? then
      s.(halted := true)                         // contourSelected.id of undefined
    else if |contours| > 0 && HitsContour(contours, s.contour.value) then
      s.(app := Set(DraggingContour))
    else
      StartBox(s.(contour := None, contourIndex := 0), p)
  }

  /** Release in DRAGGING_CONTOUR_POINT (lines 486-493). */
  function ReleaseContourPoint(s: Sel): (r: Sel)
    ensures r.selected == s.selected && r.contour == s.contour
    ensures r.halted <==> s.halted || |s.selected| == 0
    ensures |s.selected| > 0 ==> (r.app == Set(SkeletonPointSelected) <==> s.selected[0].kind == NodeSkeleton)
  {
    if |s.selected| == 0 then s.(halted := true) // selectedItems[0].type of undefined
    else if s.selected[0].kind == NodeSkeleton then s.(app := Set(SkeletonPointSelected))
    else s.(app := Set(ContourPointSelected))
  }

  /** Pointer-down in POINTS_SELECTED (lines 545-568). Only the last hot node
      decides, as the forEach overwrites `validPoint` on every node. */
  function PressInPointsSelected(s: Sel, p: Pointer, nodes: seq<Item>): (r: Sel)
    ensures r.app == Set(DraggingPoints) <==> |nodes| > 0 && InSelection(s.selected, nodes[|nodes| - 1])
    ensures r.app != Set(DraggingPoints) ==> r.selected == [] && r.boxStart == Some(p.pos)
    ensures r.contour == s.contour && r.halted == s.halted
  {
    if |nodes| > 0 && InSelection(s.selected, nodes[|nodes| - 1]) then
      s.(app := Set(DraggingPoints))
    else
      StartBox(s.(selected := []), p)
  }

  /** When the table throws: a press on a hot contour with none selected
      reads `contourSelected.id` (lines 469, 504 and 531), and a release
      of a dragged contour point with nothing selected reads
      `selectedItems[0].type` (line 487). */
  predicate Throws(s: Sel, p: Pointer, release: bool, hot: seq<Item>)
  {
    var press := p.edge == EdgeDown;
    || (press && (Has(s.app, ContourSelected) || Has(s.app, SkeletonPointSelected) || Has(s.app, ContourPointSelected))
        && |HotNodes(hot)| == 0 && |HotContours(hot)| > 0 && s.contour.None?)
    || (release && Has(s.app, DraggingContourPoint) && |s.selected| == 0)
  }

  /** The select-points table (lines 436-572). `release` is the button going
      up since the last frame; `boxed` the items inside the selection box.
      The source's `else if` chain tests one primary state per arm, so it is
      written here as a match on that state. */
  function SelectPoints(s: Sel, p: Pointer, release: bool, hot: seq<Item>, boxed: seq<Item>): (r: Sel)
    ensures !release && p.edge != EdgeDown ==> r == s
    ensures r.halted <==> s.halted || Throws(s, p, release, hot)
    ensures r.app == Set(BoxSelecting) && s.app.primary != BoxSelecting ==> r.boxStart == Some(p.pos)
    ensures r.contourIndex != s.contourIndex ==> r.contourIndex == s.contourIndex + 1 || r.contourIndex == 0
  {
    var nodes := HotNodes(hot);
    var contours := HotContours(hot);
    var press := p.edge == EdgeDown;
    match s.app.primary
    case Default => if Is(s.app, Default) && press then StartBox(s, p) else s
    case BoxSelecting => if release then BoxRelease(s, contours, boxed) else s
    case ContourSelected => if press then PressInContourSelected(s, p, nodes, contours) else s
    case DraggingContourPoint => if release then ReleaseContourPoint(s) else s
    case SkeletonPointSelected => if press then PressInPointSelected(s, p, nodes, contours, true) else s
    case DraggingContour => if release then s.(app := Set(ContourSelected)) else s
    case ContourPointSelected => if press then PressInPointSelected(s, p, nodes, contours, false) else s
    case PointsSelected => if press then PressInPointsSelected(s, p, nodes) else s
    case DraggingPoints => if release then s.(app := Set(PointsSelected)) else s
    case _ => s
  }

  /** One frame of select-points mode on the whole closure state: only the
      selection state moves; the saved mode, hover, camera, timers and button
      memory are untouched. */
  function SelectPointsStep(m: Model, p: Pointer, release: bool, hot: seq<Item>, boxed: seq<Item>): (r: Model)
    ensures SelOf(r) == SelectPoints(SelOf(m), p, release, hot, boxed)
    ensures r.oldMode == m.oldMode && r.oldApp == m.oldApp && r.hovered == m.hovered
    ensures r.view == m.view && r.prevDown == m.prevDown && r.armedAt == m.armedAt
    ensures r.resetPending == m.resetPending
  {
    var s := SelectPoints(SelOf(m), p, release, hot, boxed);
    m.(app := s.app, selected := s.selected, contour := s.contour, contourIndex := s.contourIndex,
       boxStart := s.boxStart, halted := s.halted)
  }

  /** Without a pointer-down edge or a release nothing in the table fires. */
  lemma SelectPointsIdle(s: Sel, p: Pointer, hot: seq<Item>, boxed: seq<Item>)
    requires p.edge != EdgeDown
    ensures SelectPoints(s, p, false, hot, boxed) == s
  {
  }

  /** A press in exactly DEFAULT starts a box at the pointer and changes
      nothing else (lines 443-446). */
  lemma DefaultPress(s: Sel, p: Pointer, release: bool, hot: seq<Item>, boxed: seq<Item>)
    requires s.app == Set(Default) && p.edge == EdgeDown
    ensures SelectPoints(s, p, release, hot, boxed) == s.(app := Set(BoxSelecting), boxStart := Some(p.pos))
  {
  }

  /** A press in CONTOUR_SELECTED (lines 463-485): a hot node is picked alone
      for dragging; a press on the selected contour drags it; a press on no
      contour, or on another one, starts a box and forgets the selected
      contour and its index; a hot contour with none selected throws. */
  lemma ContourSelectedPress(s: Sel, p: Pointer, release: bool, hot: seq<Item>, boxed: seq<Item>)
    requires Has(s.app, ContourSelected) && p.edge == EdgeDown
    ensures var r := SelectPoints(s, p, release, hot, boxed);
      var nodes := HotNodes(hot);
      var contours := HotContours(hot);
      && (|nodes| > 0 ==> r == s.(selected := [nodes[0]], app := Set(DraggingContourPoint)))
      && (|nodes| == 0 && |contours| > 0 && s.contour.None? ==> r == s.(halted := true))
      && (|nodes| == 0 && |contours| > 0 && s.contour.Some? && HitsContour(contours, s.contour.value) ==>
            r == s.(app := Set(DraggingContour)))
      && (|nodes| == 0 && (|contours| == 0 || (s.contour.Some? && !HitsContour(contours, s.contour.value))) ==>
            r == s.(app := Set(BoxSelecting), boxStart := Some(p.pos), contour := None, contourIndex := 0))
  {
  }

  /** A press in SKELETON_POINT_SELECTED or CONTOUR_POINT_SELECTED (lines
      494-518 and 522-544), the rows both states share: a hot node is picked
      alone for dragging, the selected contour is dragged when hot, a press
      on nothing starts a box with an empty selection, and a hot contour with
      none selected throws. */
  lemma PointSelectedPress(s: Sel, p: Pointer, release: bool, hot: seq<Item>, boxed: seq<Item>)
    requires Has(s.app, SkeletonPointSelected) || Has(s.app, ContourPointSelected)
    requires p.edge == EdgeDown
    ensures var r := SelectPoints(s, p, release, hot, boxed);
      var nodes := HotNodes(hot);
      var contours := HotContours(hot);
      && (|nodes| > 0 ==> r == s.(selected := [nodes[0]], app := Set(DraggingContourPoint)))
      && (|nodes| == 0 && |contours| > 0 && s.contour.None? ==> r == s.(halted := true))
      && (|nodes| == 0 && |contours| > 0 && s.contour.Some? && HitsContour(contours, s.contour.value) ==>
            r == s.(app := Set(DraggingContour)))
      && (|nodes| == 0 && |contours| == 0 ==>
            r == s.(selected := [], app := Set(BoxSelecting), boxStart := Some(p.pos)))
  {
    var nodes := HotNodes(hot);
    var contours := HotContours(hot);
    var clearOnMiss := s.app.primary == SkeletonPointSelected;
    assert SelectPoints(s, p, release, hot, boxed) == PressInPointSelected(s, p, nodes, contours, clearOnMiss);
  }

  /** Releasing a dragged contour or dragged points goes back to the state
      the drag started from and changes nothing else (lines 519-521 and
      569-571). */
  lemma DragRelease(s: Sel, p: Pointer, hot: seq<Item>, boxed: seq<Item>)
    requires Has(s.app, DraggingContour) || Has(s.app, DraggingPoints)
    ensures var r := SelectPoints(s, p, true, hot, boxed);
      && (Has(s.app, DraggingContour) ==> r == s.(app := Set(ContourSelected)))
      && (Has(s.app, DraggingPoints) ==> r == s.(app := Set(PointsSelected)))
  {
  }

  /** From BOX_SELECTING on release exactly one of three things happens
      (lines 447-461). */
  lemma BoxSelectRelease(s: Sel, p: Pointer, hot: seq<Item>, boxed: seq<Item>)
    requires Has(s.app, BoxSelecting)
    ensures var r := SelectPoints(s, p, true, hot, boxed);
      && r.halted == s.halted
      && (|boxed| > 0 ==> r.app == Set(PointsSelected) && r.selected == boxed && r.boxStart == None)
      && (|boxed| == 0 && |HotContours(hot)| > 0 ==>
            r.app == Set(ContourSelected) && r.selected == s.selected && r.boxStart == s.boxStart
            && r.contour == Some(HotContours(hot)[s.contourIndex % |HotContours(hot)|])
            && r.contourIndex == s.contourIndex + 1)
      && (|boxed| == 0 && |HotContours(hot)| == 0 ==>
            r.app == Set(Default) && r.selected == s.selected && r.boxStart == None)
  {
  }

  /** The first step of the table (line 443) needs the state to be exactly
      DEFAULT: a ZOOMING bit left from the previous frame blocks it. */
  lemma LingeringZoomBlocksBoxStart(s: Sel, p: Pointer, release: bool, hot: seq<Item>, boxed: seq<Item>)
    requires s.app == AppState(Default, true)
    ensures SelectPoints(s, p, release, hot, boxed) == s
  {
  }

  /** Releasing a dragged contour point lands in SKELETON_POINT_SELECTED iff
      the dragged item is a skeleton node, CONTOUR_POINT_SELECTED otherwise,
      with the selection unchanged (lines 486-493). */
  lemma ContourPointRelease(s: Sel, p: Pointer, hot: seq<Item>, boxed: seq<Item>)
    requires Has(s.app, DraggingContourPoint) && |s.selected| > 0
    ensures var r := SelectPoints(s, p, true, hot, boxed);
      && (r.app == Set(SkeletonPointSelected) <==> s.selected[0].kind == NodeSkeleton)
      && (r.app == Set(ContourPointSelected) <==> s.selected[0].kind != NodeSkeleton)
      && r == s.(app := r.app)
  {
  }

  /** Pointer-down in POINTS_SELECTED (lines 545-568): dragging starts only
      when the last hot node is in the selection; otherwise the selection is
      emptied and a new box starts at the pointer. */
  lemma PointsSelectedPress(s: Sel, p: Pointer, hot: seq<Item>, boxed: seq<Item>, release: bool)
    requires Has(s.app, PointsSelected) && p.edge == EdgeDown
    ensures var r := SelectPoints(s, p, release, hot, boxed);
      var nodes := HotNodes(hot);
      && (r.app == Set(DraggingPoints) <==> (|nodes| > 0 && InSelection(s.selected, nodes[|nodes| - 1])))
      && (r.app == Set(DraggingPoints) ==> r == s.(app := Set(DraggingPoints)))
      && (r.app != Set(DraggingPoints) ==>
            r == s.(selected := [], app := Set(BoxSelecting), boxStart := Some(p.pos)))
  {
  }

  /** The quirk of line 551: a hit on a selected node does not start a drag
      when a later hot node is not selected. */
  lemma EarlierHitIgnored(s: Sel, p: Pointer, picked: Item, other: Item, boxed: seq<Item>, release: bool)
    requires Has(s.app, PointsSelected) && p.edge == EdgeDown
    requires s.selected == [picked] && IsNodeType(picked.kind) && IsNodeType(other.kind)
    requires other.id != picked.id
    ensures SelectPoints(s, p, release, [picked, other], boxed).app == Set(BoxSelecting)
    ensures SelectPoints(s, p, release, [other, picked], boxed).app == Set(DraggingPoints)
  {
    var fwd := HotNodes([picked, other]);
    assert fwd == [picked, other];
    assert !InSelection(s.selected, other);
    var bwd := HotNodes([other, picked]);
    assert bwd == [other, picked];
    assert InSelection(s.selected, picked);
  }

  /** From CONTOUR_POINT_SELECTED a press on a different contour starts a box
      but keeps the old selection (lines 533-537), while
      SKELETON_POINT_SELECTED empties it (line 508). */
  lemma OtherContourPress(s: Sel, p: Pointer, hot: seq<Item>, boxed: seq<Item>, release: bool)
    requires p.edge == EdgeDown && s.contour.Some?
    requires |HotNodes(hot)| == 0 && |HotContours(hot)| > 0
    requires !HitsContour(HotContours(hot), s.contour.value)
    ensures Has(s.app, ContourPointSelected) ==>
      SelectPoints(s, p, release, hot, boxed) == s.(app := Set(BoxSelecting), boxStart := Some(p.pos))
    ensures Has(s.app, SkeletonPointSelected) ==>
      SelectPoints(s, p, release, hot, boxed) == s.(selected := [], app := Set(BoxSelecting), boxStart := Some(p.pos))
  {
  }

  // ------------------------------------------------ cycling through contours

  /** The contours picked by `k` box releases in a row starting at index
      `start`: `contours[(start + j) % n]` for j < k. */
  function Picks(contours: seq<Item>, start: nat, k: nat): seq<Item>
    requires |contours| > 0
  {
    seq(k, j requires 0 <= j < k => contours[(start + j) % |contours|])
  }

  /** A box release run `k` times over the same hot items, each release made
      from BOX_SELECTING with the contour index the previous one left (the
      frames in between move the selection back to BOX_SELECTING without
      resetting the index); the contours it selects, in order. */
  function ReleaseChain(s: Sel, p: Pointer, hot: seq<Item>, k: nat): seq<Item>
    decreases k
  {
    if k == 0 then []
    else
      var r := SelectPoints(s.(app := Set(BoxSelecting)), p, true, hot, []);
      (if r.contour.Some? then [r.contour.value] else []) + ReleaseChain(r, p, hot, k - 1)
  }

  /** The chain of releases selects `contours[index mod n]` and advances the
      index each time (lines 453-456). */
  lemma {:induction false} ReleaseChainPicks(s: Sel, p: Pointer, hot: seq<Item>, k: nat)
    requires |HotContours(hot)| > 0
    ensures ReleaseChain(s, p, hot, k) == Picks(HotContours(hot), s.contourIndex, k)
    decreases k
  {
    var contours := HotContours(hot);
    if k > 0 {
      var boxing := s.(app := Set(BoxSelecting));
      var r := SelectPoints(boxing, p, true, hot, []);
      BoxSelectRelease(boxing, p, hot, []);
      assert ReleaseChain(s, p, hot, k) == [contours[s.contourIndex % |contours|]] + ReleaseChain(r, p, hot, k - 1);
      ReleaseChainPicks(r, p, hot, k - 1);
      PicksUnfold(contours, s.contourIndex, k);
    }
  }

  lemma PicksUnfold(contours: seq<Item>, start: nat, k: nat)
    requires |contours| > 0 && k > 0
    ensures Picks(contours, start, k) == [contours[start % |contours|]] + Picks(contours, start + 1, k - 1)
  {
    var whole := Picks(contours, start, k);
    var tail := Picks(contours, start + 1, k - 1);
    forall j | 0 <= j < k ensures whole[j] == ([contours[start % |contours|]] + tail)[j] {
      if j > 0 {
        assert tail[j - 1] == contours[(start + 1 + (j - 1)) % |contours|];
      }
    }
  }

  lemma MulMonotone(a: int, b: int, n: int)
    requires a < b && n > 0
    ensures a * n + n <= b * n
    decreases b - a
  {
    if b > a + 1 {
      MulMonotone(a, b - 1, n);
    }
    assert b * n == (b - 1) * n + n;
  }

  /** The remainder is the only r in [0, n) with x == q * n + r. */
  lemma ModUnique(x: int, n: int, q: int, r: int)
    requires n > 0 && 0 <= r < n && x == q * n + r
    ensures x % n == r
  {
    var q0 := x / n;
    if q < q0 {
      MulMonotone(q, q0, n);
    } else if q0 < q {
      MulMonotone(q0, q, n);
    }
  }

  /** `(start + j) % n` for consecutive j walks the indices from `start % n`
      round to the end and then from 0. */
  lemma ShiftedIndex(start: nat, j: nat, n: nat)
    requires n > 0 && j < n
    ensures (start + j) % n == if start % n + j < n then start % n + j else start % n + j - n
  {
    var r := start % n;
    var q := start / n;
    if r + j < n {
      ModUnique(start + j, n, q, r + j);
    } else {
      assert start + j == (q + 1) * n + (r + j - n);
      ModUnique(start + j, n, q + 1, r + j - n);
    }
  }

  /** n picks in a row are the hot contours rotated to start at `start mod n`. */
  lemma PicksRotate(contours: seq<Item>, start: nat)
    requires |contours| > 0
    ensures var n := |contours|; var r := start % n;
      Picks(contours, start, n) == contours[r..] + contours[..r]
  {
    var n := |contours|;
    var r := start % n;
    var picks := Picks(contours, start, n);
    var rot := contours[r..] + contours[..r];
    forall j | 0 <= j < n ensures picks[j] == rot[j] {
      ShiftedIndex(start, j, n);
    }
  }

  /** n picks over n contours take each exactly once, and in order from
      a start that is a multiple of n. */
  lemma PicksCycle(contours: seq<Item>, start: nat)
    requires |contours| > 0
    ensures var n := |contours|;
      && multiset(Picks(contours, start, n)) == multiset(contours)
      && (start % n == 0 ==> Picks(contours, start, n) == contours)
  {
    var n := |contours|;
    var r := start % n;
    PicksRotate(contours, start);
    assert contours == contours[..r] + contours[r..];
    assert multiset(contours) == multiset(contours[..r]) + multiset(contours[r..]);
    if r == 0 {
      assert contours[0..] + contours[..0] == contours;
    }
  }

  /** k releases over the same k hot contours select each of them exactly
      once, and starting from index 0 they do so in order. */
  lemma ReleasesCycleThroughContours(s: Sel, p: Pointer, hot: seq<Item>)
    requires |HotContours(hot)| > 0
    ensures var contours := HotContours(hot);
      && multiset(ReleaseChain(s, p, hot, |contours|)) == multiset(contours)
      && (s.contourIndex % |contours| == 0 ==> ReleaseChain(s, p, hot, |contours|) == contours)
  {
    ReleaseChainPicks(s, p, hot, |HotContours(hot)|);
    PicksCycle(HotContours(hot), s.contourIndex);
  }

}
