/** Shared value types of the drag-and-drop engine: items, geometry, drag and selection state. */
module FreeformTypes {

  datatype Option<+T> = None | Some(value: T)

  /** The kind tag of an item: a plain item, or a container that is itself a drop target. */
  datatype ItemKind = Plain | Container

  /** A host-owned item; the engine only ever looks at its identifier. */
  datatype Item = Item(id: string, kind: ItemKind, disabled: bool)

  datatype Position = Position(x: real, y: real)

  /** A bounding box in viewport coordinates, as a DOMRect reports it. */
  datatype Rect = Rect(left: real, top: real, right: real, bottom: real)

  datatype Size = Size(width: real, height: real)

  /** An opaque handle for a mounted element; its geometry comes from a Layout. */
  type Element = nat

  /** The live layout: the bounding box every element has at the moment of the query. */
  type Layout = Element -> Rect

  /** A user-supplied accept predicate over the payload of a drag. */
  type Accept = seq<Item> -> bool

  datatype PointerEvent = PointerEvent(button: int, x: real, y: real)

  /** The drag record of a zone; the source's always-null `offset` is left out. */
  datatype DragState = DragState(
    active: bool,
    items: seq<Item>,
    startPosition: Option<Position>,
    currentPosition: Option<Position>,
    thresholdPassed: bool)

  datatype SelectionState = SelectionState(items: seq<Item>, lassoActive: bool, lassoRect: Option<Rect>)

  /** A container under the pointer, its bounds and whether it accepts the payload. */
  datatype DropTarget = DropTarget(item: Item, bounds: Rect, accepted: bool)

  const IdleDrag := DragState(false, [], None, None, false)

  /** The consistency rule of a drag record: it carries items and positions exactly while active. */
  ghost predicate DragConsistent(d: DragState) {
    && (d.active <==> |d.items| > 0)
    && (d.active ==> d.startPosition.Some? && d.currentPosition.Some?)
    && (!d.active ==> d == IdleDrag)
  }

  function Abs(v: real): (r: real)
    ensures r >= 0.0 && (r == v || r == -v)
  {
    if v < 0.0 then -v else v
  }

  function Width(r: Rect): real { r.right - r.left }

  function Height(r: Rect): real { r.bottom - r.top }

  /** The size a DOMRect reports for a box. */
  function SizeOf(r: Rect): Size { Size(Width(r), Height(r)) }

  /** Whether the pointer lies in the closed box. */
  predicate Contains(r: Rect, p: Position) {
    p.x >= r.left && p.x <= r.right && p.y >= r.top && p.y <= r.bottom
  }

  predicate ContainsId(s: seq<Item>, id: string) {
    exists k | 0 <= k < |s| :: s[k].id == id
  }

  /** `findIndex(i => i.id === id)`: the first position holding `id`, or -1. */
  function IndexOfId(s: seq<Item>, id: string): (r: int)
    ensures -1 <= r < |s|
    ensures r >= 0 <==> ContainsId(s, id)
    ensures r >= 0 ==> s[r].id == id && forall k | 0 <= k < r :: s[k].id != id
    ensures r == -1 ==> forall k | 0 <= k < |s| :: s[k].id != id
  {
    if |s| == 0 then -1
    else if s[0].id == id then 0
    else
      var r := IndexOfId(s[1..], id);
      assert forall k | 1 <= k < |s| :: s[k] == s[1..][k - 1];
      if r == -1 then -1 else r + 1
  }

  /** The `findIndex(i => i.id === id)` loop. */
  method FindIndex(s: seq<Item>, id: string) returns (r: int)
    ensures r == IndexOfId(s, id)
  {
    var i := 0;
    while i < |s|
      invariant 0 <= i <= |s|
      invariant forall k | 0 <= k < i :: s[k].id != id
    {
      if s[i].id == id {
        return i;
      }
      i := i + 1;
    }
    return -1;
  }

  /** The set of identifiers of a payload (`new Set(items.map(i => i.id))`). */
  function Ids(s: seq<Item>): (r: set<string>)
    ensures forall k | 0 <= k < |s| :: s[k].id in r
    ensures forall id | id in r :: ContainsId(s, id)
  {
    set k | 0 <= k < |s| :: s[k].id
  }

  /** `accept ? accept(items) : true`. */
  predicate Accepts(accept: Option<Accept>, items: seq<Item>) {
    accept.None? || accept.value(items)
  }
}
