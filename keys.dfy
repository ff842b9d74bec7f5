/** The keyboard change-sets: Escape resets what the selected items were
    dragged to (glyph-canvas lines 722-776), the arrow keys nudge them by one
    unit (lines 835-868). */
module Keys {
  import opened Base
  import opened Items
  import opened Actions

  /** The change-set Escape sends for one selected item, by its type; `None`
      for the types it skips. Handles and on-curve nodes have their manual
      values cleared, skeleton and contour nodes their offsets zeroed. */
  function EscapeChanges(item: Item): (r: Option<ChangeSet>)
    ensures r.None? <==> !IsNodeType(item.kind)
    ensures r.Some? ==> |r.value| == 2
  {
    var pid := item.data.parentId;
    var addr := item.data.modifAddress;
    match item.kind
    case NodeIn => HandleReset(pid, "In")
    case ContourNodeIn => HandleReset(pid, "In")
    case NodeOut => HandleReset(pid, "Out")
    case ContourNodeOut => HandleReset(pid, "Out")
    case Node =>
      assert addr + ".width" != addr + ".angle" by {
        assert (addr + ".width")[|addr| + 1] != (addr + ".angle")[|addr| + 1];
      }
      Some(map[addr + ".width" := Unset, addr + ".angle" := Unset])
    case ContourNode => OffsetReset(addr)
    case NodeSkeleton => OffsetReset(addr)
    case _ => None
  }

  function HandleReset(pid: string, side: string): (r: Option<ChangeSet>)
    ensures r.Some? && |r.value| == 2
  {
    assert |pid + ".dir" + side| != |pid + ".tension" + side|;
    Some(map[pid + ".dir" + side := Unset, pid + ".tension" + side := Unset])
  }

  function OffsetReset(addr: string): (r: Option<ChangeSet>)
    ensures r.Some? && |r.value| == 2
  {
    assert addr + "x" != addr + "y" by { assert (addr + "x")[|addr|] != (addr + "y")[|addr|]; }
    Some(map[addr + "x" := Num(0.0), addr + "y" := Num(0.0)])
  }

  /** The actions of one Escape press, one per selected item of a node type,
      in selection order. */
  function EscapeActions(items: seq<Item>, glyphName: string): (r: seq<Action>)
    ensures |r| == |Filter(items, IsNodeType)|
    ensures forall a :: a in r ==> a.ChangeGlyphNode? && a.glyphName == glyphName && |a.changes| == 2
  {
    if items == [] then []
    else
      match EscapeChanges(items[0])
      case Some(c) => [ChangeGlyphNode(c, glyphName)] + EscapeActions(items[1..], glyphName)
      case None => EscapeActions(items[1..], glyphName)
  }

  /** What Escape writes for each node type: handles have their own side's
      direction and tension cleared, on-curve nodes their width and angle,
      skeleton and contour nodes their two offsets set to zero. */
  lemma EscapeResets(item: Item)
    requires IsNodeType(item.kind)
    ensures var r := EscapeChanges(item).value;
      var pid := item.data.parentId;
      var addr := item.data.modifAddress;
      && ((item.kind == NodeIn || item.kind == ContourNodeIn) ==>
            r.Keys == {pid + ".dirIn", pid + ".tensionIn"} && (forall k :: k in r ==> r[k] == Unset))
      && ((item.kind == NodeOut || item.kind == ContourNodeOut) ==>
            r.Keys == {pid + ".dirOut", pid + ".tensionOut"} && (forall k :: k in r ==> r[k] == Unset))
      && (item.kind == Node ==>
            r.Keys == {addr + ".width", addr + ".angle"} && (forall k :: k in r ==> r[k] == Unset))
      && ((item.kind == NodeSkeleton || item.kind == ContourNode) ==>
            r.Keys == {addr + "x", addr + "y"} && (forall k :: k in r ==> r[k] == Num(0.0)))
  {
    var pid := item.data.parentId;
    assert pid + ".dir" + "In" == pid + ".dirIn";
    assert pid + ".tension" + "In" == pid + ".tensionIn";
    assert pid + ".dir" + "Out" == pid + ".dirOut";
    assert pid + ".tension" + "Out" == pid + ".tensionOut";
  }

  /** The Escape actions are, in selection order, the change-sets of the
      selected items of a node type. */
  lemma {:induction false} EscapeActionsSpec(items: seq<Item>, glyphName: string)
    ensures var r := EscapeActions(items, glyphName);
      var nodes := Filter(items, IsNodeType);
      && |r| == |nodes|
      && forall i :: 0 <= i < |r| ==> r[i] == ChangeGlyphNode(EscapeChanges(nodes[i]).value, glyphName)
    decreases |items|
  {
    if items != [] {
      EscapeActionsSpec(items[1..], glyphName);
      var rest := EscapeActions(items[1..], glyphName);
      var tail := Filter(items[1..], IsNodeType);
      if IsNodeType(items[0].kind) {
        var head := ChangeGlyphNode(EscapeChanges(items[0]).value, glyphName);
        assert Filter(items, IsNodeType) == [items[0]] + tail;
        assert EscapeActions(items, glyphName) == [head] + rest;
      } else {
        assert Filter(items, IsNodeType) == tail;
        assert EscapeActions(items, glyphName) == rest;
      }
    }
  }

  /** Escape clears exactly the two manual values of a handle's own side and
      leaves the other side alone. */
  lemma EscapeClearsHandleSide(item: Item)
    requires item.kind == NodeIn || item.kind == ContourNodeIn
    ensures var r := EscapeChanges(item);
      var pid := item.data.parentId;
      && r.Some?
      && r.value.Keys == {pid + ".dirIn", pid + ".tensionIn"}
      && r.value[pid + ".dirIn"] == Unset && r.value[pid + ".tensionIn"] == Unset
      && pid + ".dirOut" !in r.value && pid + ".tensionOut" !in r.value
  {
    var pid := item.data.parentId;
    var r := EscapeChanges(item);
    assert r == HandleReset(pid, "In");
    assert pid + ".dir" + "In" == pid + ".dirIn";
    assert pid + ".tension" + "In" == pid + ".tensionIn";
    assert r.value == map[pid + ".dirIn" := Unset, pid + ".tensionIn" := Unset];
    assert |pid + ".dirOut"| == |pid| + 7 && |pid + ".tensionOut"| == |pid| + 11;
  }

  /** The arrow keys (lines 844-858): left, up, right, down move by one unit
      in glyph space, whose y axis points up. */
  function Nudge(key: int): (r: Option<Vec>)
    ensures r.Some? <==> 37 <= key <= 40
    ensures r.Some? ==> r.value.x * r.value.x + r.value.y * r.value.y == 1.0
    ensures r.Some? ==> (r.value.x == 0.0) != (r.value.y == 0.0)
    ensures key == 37 ==> r == Some(Vec(-1.0, 0.0))   // left
    ensures key == 38 ==> r == Some(Vec(0.0, 1.0))    // up
    ensures key == 39 ==> r == Some(Vec(1.0, 0.0))    // right
    ensures key == 40 ==> r == Some(Vec(0.0, -1.0))   // down
  {
    if key == 37 then Some(Vec(-1.0, 0.0))
    else if key == 38 then Some(Vec(0.0, 1.0))
    else if key == 39 then Some(Vec(1.0, 0.0))
    else if key == 40 then Some(Vec(0.0, -1.0))
    else None
  }

  /** Opposite arrows cancel out, and the four directions are distinct. */
  lemma OppositeArrowsCancel()
    ensures Add(Nudge(37).value, Nudge(39).value) == Vec(0.0, 0.0)
    ensures Add(Nudge(38).value, Nudge(40).value) == Vec(0.0, 0.0)
    ensures forall a, b :: 37 <= a < b <= 40 ==> Nudge(a) != Nudge(b)
  {
  }
}
