/** The interactive items the hit tester reports, and the part of the glyph
    the interaction core reads through `_get(glyph, address)`. */
module Items {
  import opened Base

  /** toileType. Declared in the order the source's `item.type <=
      toileType.CONTOUR_NODE_OUT` test relies on: the seven node kinds first. */
  datatype ItemType =
    | Node | NodeIn | NodeOut | NodeSkeleton
    | ContourNode | ContourNodeIn | ContourNodeOut
    | GlyphContour | GlyphComponentContour
    | ComponentChoice | ComponentNoneChoice
    | ComponentMenuItem | ComponentMenuItemClass | ComponentMenuItemCenter
    | OtherItem

  /** The numeric value of a toileType constant. */
  function Rank(t: ItemType): nat
  {
    match t
    case Node => 0
    case NodeIn => 1
    case NodeOut => 2
    case NodeSkeleton => 3
    case ContourNode => 4
    case ContourNodeIn => 5
    case ContourNodeOut => 6
    case GlyphContour => 7
    case GlyphComponentContour => 8
    case ComponentChoice => 9
    case ComponentNoneChoice => 10
    case ComponentMenuItem => 11
    case ComponentMenuItemClass => 12
    case ComponentMenuItemCenter => 13
    case OtherItem => 14
  }

  /** `item.type <= toileType.CONTOUR_NODE_OUT`. */
  predicate IsNodeType(t: ItemType)
  {
    Rank(t) <= Rank(ContourNodeOut)
  }

  /** The base-geometry snapshot an item carries in `item.data`. Each item
      kind fills the fields it uses; the others are irrelevant to it. */
  datatype ItemData = ItemData(
    // handles
    parentId: string,
    skeletonId: string,
    otherNode: Vec,
    otherDir: real,
    transforms: seq<string>,
    // on-curve nodes
    baseWidth: real,
    oppositeId: string,
    baseAngle: real,
    skeleton: Vec,
    angleOffset: real,
    // skeleton and contour nodes
    modifAddress: string,
    base: Vec,
    expandedFrom: Vec,          // the source's expandedTo[0]: where the skeleton segment starts
    expandedTo: Vec,            // the source's expandedTo[1]: where it ends
    width: real,
    baseDistr: real,
    // component menu entries
    componentId: string,
    baseId: string,
    componentClass: string)

  datatype Item = Item(id: string, kind: ItemType, data: ItemData)

  /** What `_get(glyph, address)` yields for a node address. A base tension
      of 0.0 stands for both 0 and `undefined`: the source treats them alike. */
  datatype GlyphNode = GlyphNode(
    pos: Vec,
    baseDirIn: real,
    baseDirOut: real,
    baseTensionIn: real,
    baseTensionOut: real,
    dirIn: real,
    dirOut: real)

  datatype Glyph = Glyph(name: string, nodes: map<string, GlyphNode>)

  /** `_get(glyph, address)` for a node: `undefined` when the address misses. */
  function Lookup(g: Glyph, address: string): Option<GlyphNode>
  {
    if address in g.nodes then Some(g.nodes[address]) else None
  }

  /** `items.filter(item => keep(item.type))`. */
  function Filter(items: seq<Item>, keep: ItemType -> bool): (r: seq<Item>)
    ensures |r| <= |items|
    ensures forall x :: x in r <==> x in items && keep(x.kind)
  {
    if items == [] then []
    else if keep(items[0].kind) then [items[0]] + Filter(items[1..], keep)
    else Filter(items[1..], keep)
  }

  /** Filtering keeps the order: filtering two lists one after the other is
      filtering their concatenation. */
  lemma {:induction false} FilterAppend(a: seq<Item>, b: seq<Item>, keep: ItemType -> bool)
    ensures Filter(a + b, keep) == Filter(a, keep) + Filter(b, keep)
    decreases |a|
  {
    if a != [] {
      assert (a + b)[0] == a[0];
      assert (a + b)[1..] == a[1..] + b;
      FilterAppend(a[1..], b, keep);
    } else {
      assert a + b == b;
    }
  }

  /** Filtering never duplicates an item: the result is a sub-multiset of the
      input. */
  lemma {:induction false} FilterMultiset(items: seq<Item>, keep: ItemType -> bool)
    ensures multiset(Filter(items, keep)) <= multiset(items)
    decreases |items|
  {
    if items != [] {
      FilterMultiset(items[1..], keep);
      assert items == [items[0]] + items[1..];
    }
  }

  /** The first item the filter keeps is the first item of the input whose
      type passes: every item before it fails the test. */
  lemma {:induction false} FilterFirst(items: seq<Item>, keep: ItemType -> bool)
    requires Filter(items, keep) != []
    ensures exists i :: 0 <= i < |items| && items[i] == Filter(items, keep)[0] && keep(items[i].kind)
                        && forall j :: 0 <= j < i ==> !keep(items[j].kind)
    decreases |items|
  {
    if keep(items[0].kind) {
      assert Filter(items, keep)[0] == items[0];
    } else {
      var t := items[1..];
      assert Filter(items, keep) == Filter(t, keep);
      FilterFirst(t, keep);
      var i :| 0 <= i < |t| && t[i] == Filter(t, keep)[0] && keep(t[i].kind)
               && forall j :: 0 <= j < i ==> !keep(t[j].kind);
      assert items[i + 1] == t[i];
      assert forall j :: 0 <= j < i + 1 ==> !keep(items[j].kind) by {
        forall j | 0 <= j < i + 1
          ensures !keep(items[j].kind)
        {
          if j > 0 {
            assert items[j] == t[j - 1];
          }
        }
      }
    }
  }

  /** The hot nodes of select-points mode (line 438). */
  function HotNodes(hot: seq<Item>): seq<Item>
  {
    Filter(hot, IsNodeType)
  }

  /** The hot contours of select-points mode (lines 439-441). */
  function HotContours(hot: seq<Item>): seq<Item>
  {
    Filter(hot, t => t == GlyphContour || t == GlyphComponentContour)
  }

  /** `contours.find(c => c.id === selected.id)` is truthy. */
  predicate HitsContour(contours: seq<Item>, selected: Item)
  {
    exists c :: c in contours && c.id == selected.id
  }

  /** `selected.find(s => s.id === node.id)` is truthy. */
  predicate InSelection(selected: seq<Item>, node: Item)
  {
    exists s :: s in selected && s.id == node.id
  }
}
