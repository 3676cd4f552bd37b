/** The drop-zone registry every Freeform instance shares: a table of zones plus the hover state the
    source and the target of a cross-list drag exchange through it. */
module Registry {
  import opened FreeformTypes
  import opened OrderedMaps

  /** A registered zone. Entries are objects: re-registering an id makes a new entry, and the source side
      tells zones apart by identity. */
  class ZoneEntry {
    const id: string
    const element: Element
    const accept: Option<Accept>

    constructor(id: string, element: Element, accept: Option<Accept>)
      ensures this.id == id && this.element == element && this.accept == accept
    {
      this.id := id;
      this.element := element;
      this.accept := accept;
    }
  }

  /** Key k names a zone that is not excluded and whose closed box holds the point. */
  predicate ZoneHit(zones: map<string, ZoneEntry>, k: string, p: Position, exclude: set<string>, layout: Layout) {
    k in zones && k !in exclude && Contains(layout(zones[k].element), p)
  }

  /** The position, in registration order, of the first zone at the point, or -1. */
  function FirstZone(keys: seq<string>, zones: map<string, ZoneEntry>, p: Position, exclude: set<string>,
                     layout: Layout): (r: int)
    ensures -1 <= r < |keys|
    ensures r >= 0 ==> ZoneHit(zones, keys[r], p, exclude, layout)
    ensures r >= 0 ==> forall i | 0 <= i < r :: !ZoneHit(zones, keys[i], p, exclude, layout)
    ensures r == -1 <==> forall i | 0 <= i < |keys| :: !ZoneHit(zones, keys[i], p, exclude, layout)
  {
    if |keys| == 0 then -1
    else if ZoneHit(zones, keys[0], p, exclude, layout) then 0
    else
      var r := FirstZone(keys[1..], zones, p, exclude, layout);
      assert forall i | 1 <= i < |keys| :: keys[i] == keys[1..][i - 1];
      if r == -1 then -1 else r + 1
  }

  /** The zone `findAtPosition` returns. */
  function ZoneAt(zones: OrderedMap<string, ZoneEntry>, p: Position, exclude: set<string>, layout: Layout): ZoneEntry?
  {
    var j := FirstZone(zones.keys, zones.values, p, exclude, layout);
    if j == -1 then null else zones.values[zones.keys[j]]
  }

  /** The hover and resolution fields of the registry, as one value. */
  datatype HoverState = HoverState(
    hoveredZoneId: Option<string>,
    hoveredItems: seq<Item>,
    dragPosition: Option<Position>,
    targetDropIndex: Option<int>,
    targetContainerId: Option<string>,
    targetContainerAccepted: bool)

  /** The hover fields after `setHovered(zoneId, items, position)`. */
  function Hovered(h: HoverState, zoneId: Option<string>, items: seq<Item>, position: Option<Position>): HoverState {
    h.(hoveredZoneId := zoneId, hoveredItems := items, dragPosition := position,
       targetDropIndex := if h.hoveredZoneId != zoneId then None else h.targetDropIndex)
  }

  class DropZoneRegistry {
    var zones: OrderedMap<string, ZoneEntry>
    var hoveredZoneId: Option<string>
    var hoveredItems: seq<Item>
    var dragPosition: Option<Position>
    var targetDropIndex: Option<int>
    var targetContainerId: Option<string>
    var targetContainerAccepted: bool

    function Hover(): HoverState
      reads this
    {
      HoverState(hoveredZoneId, hoveredItems, dragPosition, targetDropIndex, targetContainerId, targetContainerAccepted)
    }

    /** The table is a well-formed map and every entry is filed under its own id. */
    ghost predicate Valid()
      reads this
    {
      && OrderedMaps.Valid(zones)
      && forall k | k in zones.values :: zones.values[k].id == k
    }

    /** A fresh registry: no zones, nothing hovered, no target. */
    constructor()
      ensures Valid()
      ensures zones.values == map[] && hoveredZoneId.None? && hoveredItems == [] && dragPosition.None?
      ensures targetDropIndex.None? && targetContainerId.None? && !targetContainerAccepted
    {
      zones := Empty();
      hoveredZoneId := None;
      hoveredItems := [];
      dragPosition := None;
      targetDropIndex := None;
      targetContainerId := None;
      targetContainerAccepted := false;
    }

    /** `register`: files a new entry under `id`, replacing one already there. */
    method Register(id: string, element: Element, accept: Option<Accept>) returns (entry: ZoneEntry)
      requires Valid()
      modifies this
      ensures Valid() && fresh(entry)
      ensures entry.id == id && entry.element == element && entry.accept == accept
      ensures zones == Set(old(zones), id, entry)
      ensures hoveredZoneId == old(hoveredZoneId) && hoveredItems == old(hoveredItems)
      ensures dragPosition == old(dragPosition) && targetDropIndex == old(targetDropIndex)
      ensures targetContainerId == old(targetContainerId) && targetContainerAccepted == old(targetContainerAccepted)
    {
      entry := new ZoneEntry(id, element, accept);
      zones := Set(zones, id, entry);
    }

    /** `unregister`: removes the entry; if it was the hovered zone, the hover is cleared. */
    method Unregister(id: string)
      requires Valid()
      modifies this
      ensures Valid()
      ensures zones == Delete(old(zones), id)
      ensures old(hoveredZoneId) == Some(id) ==> hoveredZoneId.None? && hoveredItems == []
      ensures old(hoveredZoneId) != Some(id) ==> hoveredZoneId == old(hoveredZoneId) && hoveredItems == old(hoveredItems)
      ensures dragPosition == old(dragPosition) && targetDropIndex == old(targetDropIndex)
      ensures targetContainerId == old(targetContainerId) && targetContainerAccepted == old(targetContainerAccepted)
    {
      zones := Delete(zones, id);
      if hoveredZoneId == Some(id) {
        hoveredZoneId := None;
        hoveredItems := [];
      }
    }

    /** `getAll`: the table itself. */
    method GetAll() returns (all: OrderedMap<string, ZoneEntry>)
      ensures all == zones
    {
      return zones;
    }

    /** `findAtPosition`: the first zone, in registration order, not excluded and holding the point. */
    method FindAtPosition(x: real, y: real, exclude: set<string>, layout: Layout) returns (zone: ZoneEntry?)
      requires Valid()
      ensures zone == ZoneAt(zones, Position(x, y), exclude, layout)
      ensures zone != null ==> zone.id in zones.values && zones.values[zone.id] == zone
                               && zone.id !in exclude && Contains(layout(zone.element), Position(x, y))
    {
      var keys := zones.keys;
      var i := 0;
      while i < |keys|
        invariant 0 <= i <= |keys|
        invariant forall j | 0 <= j < i :: !ZoneHit(zones.values, keys[j], Position(x, y), exclude, layout)
      {
        var id := keys[i];
        if id !in exclude {
          var entry := zones.values[id];
          var rect := layout(entry.element);
          if x >= rect.left && x <= rect.right && y >= rect.top && y <= rect.bottom {
            assert ZoneHit(zones.values, keys[i], Position(x, y), exclude, layout);
            assert FirstZone(keys, zones.values, Position(x, y), exclude, layout) == i;
            return entry;
          }
        }
        i := i + 1;
      }
      return null;
    }

    /** `setHovered`: records the zone, its payload and the position; a change of zone forgets the
        target drop index until the target recomputes it. */
    method SetHovered(zoneId: Option<string>, items: seq<Item>, position: Option<Position>)
      modifies this
      ensures hoveredZoneId == zoneId && hoveredItems == items && dragPosition == position
      ensures old(hoveredZoneId) != zoneId ==> targetDropIndex.None?
      ensures old(hoveredZoneId) == zoneId ==> targetDropIndex == old(targetDropIndex)
      ensures zones == old(zones)
      ensures targetContainerId == old(targetContainerId) && targetContainerAccepted == old(targetContainerAccepted)
      ensures Hover() == Hovered(old(Hover()), zoneId, items, position)
    {
      if hoveredZoneId != zoneId {
        targetDropIndex := None;
      }
      hoveredZoneId := zoneId;
      hoveredItems := items;
      dragPosition := position;
    }

    /** `updatePosition`: only the drag position changes. */
    method UpdatePosition(position: Position)
      modifies this
      ensures dragPosition == Some(position)
      ensures zones == old(zones) && hoveredZoneId == old(hoveredZoneId) && hoveredItems == old(hoveredItems)
      ensures targetDropIndex == old(targetDropIndex) && targetContainerId == old(targetContainerId)
      ensures targetContainerAccepted == old(targetContainerAccepted)
    {
      dragPosition := Some(position);
    }

    /** `setTargetDropIndex`: only the target drop index changes. */
    method SetTargetDropIndex(index: Option<int>)
      modifies this
      ensures targetDropIndex == index
      ensures zones == old(zones) && hoveredZoneId == old(hoveredZoneId) && hoveredItems == old(hoveredItems)
      ensures dragPosition == old(dragPosition) && targetContainerId == old(targetContainerId)
      ensures targetContainerAccepted == old(targetContainerAccepted)
    {
      targetDropIndex := index;
    }

    /** `setTargetContainer(containerId, accepted)`: only the target container and its verdict change. */
    method SetTargetContainer(containerId: Option<string>, accepted: bool)
      modifies this
      ensures targetContainerId == containerId && targetContainerAccepted == accepted
      ensures zones == old(zones) && hoveredZoneId == old(hoveredZoneId) && hoveredItems == old(hoveredItems)
      ensures dragPosition == old(dragPosition) && targetDropIndex == old(targetDropIndex)
    {
      targetContainerId := containerId;
      targetContainerAccepted := accepted;
    }
  }

  /** A point in no registered zone finds nothing; a point in only excluded zones finds nothing either. */
  lemma ZoneAtNone(zones: OrderedMap<string, ZoneEntry>, p: Position, exclude: set<string>, layout: Layout)
    requires OrderedMaps.Valid(zones)
    requires forall k | k in zones.values && k !in exclude :: !Contains(layout(zones.values[k].element), p)
    ensures ZoneAt(zones, p, exclude, layout) == null
  {
    forall i | 0 <= i < |zones.keys| ensures !ZoneHit(zones.values, zones.keys[i], p, exclude, layout) {
      assert zones.keys[i] in zones.values;
    }
  }

  /** When the i-th registered zone holds the point, a zone is found, and it is that one or one registered
      before it: overlapping zones resolve to the earliest registration. */
  lemma ZoneAtFirstInOrder(zones: OrderedMap<string, ZoneEntry>, p: Position, exclude: set<string>, layout: Layout,
                           i: nat)
    requires OrderedMaps.Valid(zones) && i < |zones.keys|
    requires ZoneHit(zones.values, zones.keys[i], p, exclude, layout)
    ensures ZoneAt(zones, p, exclude, layout) != null
    ensures var j := FirstZone(zones.keys, zones.values, p, exclude, layout);
            0 <= j <= i && ZoneAt(zones, p, exclude, layout) == zones.values[zones.keys[j]]
  {
  }
}
