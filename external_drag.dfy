/** The source side of a cross-list drag: tracks the foreign zone under the pointer through the shared
    registry and, on release, reads back where the target placed the payload. */
module ExternalDragSource {
  import opened FreeformTypes
  import opened OrderedMaps
  import opened Registry

  /** What a successful drop into another zone reports. */
  datatype DropInfo = DropInfo(zoneId: string, dropIndex: int, containerId: Option<string>)

  /** JavaScript truthiness of an optional string: absent and empty both count as false. */
  predicate Truthy(s: Option<string>) {
    s.Some? && s.value != ""
  }

  /** The zone a pointer position is tracked against: the zone found there, unless it is the source's
      own zone, which yields no zone at all. */
  function ExternalZone(found: ZoneEntry?, own: Option<string>): ZoneEntry? {
    if found != null && Truthy(own) && found.id == own.value then null else found
  }

  /** The verdict of `finishExternalDrag` for a tracked zone and the registry's target fields: a target
      container decides by its recorded verdict, otherwise the zone's own accept predicate does. */
  function FinishResult(zone: ZoneEntry, h: HoverState, dragged: seq<Item>): Option<DropInfo> {
    if Truthy(h.targetContainerId) && !h.targetContainerAccepted then None
    else if !Truthy(h.targetContainerId) && !Accepts(zone.accept, dragged) then None
    else Some(DropInfo(zone.id, if h.targetDropIndex.Some? then h.targetDropIndex.value else 0, h.targetContainerId))
  }

  /** The hover fields after `cleanup`: `setHovered(null)` then `setTargetContainer(null)`. */
  function CleanedHover(h: HoverState): HoverState {
    Hovered(h, None, [], None).(targetContainerId := None, targetContainerAccepted := false)
  }

  class ExternalDrag {
    const registry: DropZoneRegistry
    const ownDropZoneId: Option<string>
    var currentExternalZone: ZoneEntry?

    constructor(registry: DropZoneRegistry, ownDropZoneId: Option<string>)
      ensures this.registry == registry && this.ownDropZoneId == ownDropZoneId && currentExternalZone == null
    {
      this.registry := registry;
      this.ownDropZoneId := ownDropZoneId;
      currentExternalZone := null;
    }

    /** `detectExternalZone`: on a change of zone, one `setHovered` with the new zone (or none); on the
        same zone, only the position moves; with no zone before or after, the registry is untouched. */
    method DetectExternalZone(pos: Position, dragged: seq<Item>, layout: Layout)
      requires registry.Valid()
      modifies this, registry
      ensures registry.Valid() && registry.zones == old(registry.zones)
      ensures var zone := ExternalZone(ZoneAt(old(registry.zones), pos, {}, layout), ownDropZoneId);
              && currentExternalZone == zone
              && (zone != old(currentExternalZone) ==>
                    registry.Hover() == Hovered(old(registry.Hover()), if zone == null then None else Some(zone.id),
                                                dragged, Some(pos)))
              && (zone == old(currentExternalZone) && zone != null ==>
                    registry.Hover() == old(registry.Hover()).(dragPosition := Some(pos)))
              && (zone == old(currentExternalZone) && zone == null ==> registry.Hover() == old(registry.Hover()))
    {
      var zone := registry.FindAtPosition(pos.x, pos.y, {}, layout);
      if zone != null && ownDropZoneId.Some? && ownDropZoneId.value != "" && zone.id == ownDropZoneId.value {
        zone := null;
      }
      if zone != currentExternalZone {
        currentExternalZone := zone;
        registry.SetHovered(if zone == null then None else Some(zone.id), dragged, Some(pos));
      } else if zone != null {
        registry.UpdatePosition(pos);
      }
    }

    /** `cleanup`: forget the tracked zone and clear the hover and the target container. */
    method Cleanup()
      modifies this, registry
      ensures currentExternalZone == null
      ensures registry.zones == old(registry.zones) && registry.Hover() == CleanedHover(old(registry.Hover()))
    {
      currentExternalZone := null;
      registry.SetHovered(None, [], None);
      registry.SetTargetContainer(None, false);
    }

    /** `finishExternalDrag`: with no tracked zone, nothing and no registry write; otherwise the verdict
        over the registry's target fields, and a cleanup every time. */
    method FinishExternalDrag(dragged: seq<Item>) returns (r: Option<DropInfo>)
      modifies this, registry
      ensures registry.zones == old(registry.zones) && currentExternalZone == null
      ensures old(currentExternalZone) == null ==> r.None? && registry.Hover() == old(registry.Hover())
      ensures old(currentExternalZone) != null ==>
                && r == FinishResult(old(currentExternalZone), old(registry.Hover()), dragged)
                && registry.Hover() == CleanedHover(old(registry.Hover()))
    {
      var zone := currentExternalZone;
      if zone == null {
        return None;
      }
      var containerId := registry.targetContainerId;
      var containerAccepted := registry.targetContainerAccepted;
      if containerId.Some? && containerId.value != "" {
        if !containerAccepted {
          Cleanup();
          return None;
        }
      } else {
        var accepted := Accepts(zone.accept, dragged);
        if !accepted {
          Cleanup();
          return None;
        }
      }
      var index := if registry.targetDropIndex.Some? then registry.targetDropIndex.value else 0;
      r := Some(DropInfo(zone.id, index, containerId));
      Cleanup();
    }
  }

  /** The source's own zone hides every zone behind it: when it is the first zone at the point, no zone is
      tracked, whatever other zones also hold the point. */
  lemma OwnZoneShadows(zones: OrderedMap<string, ZoneEntry>, p: Position, layout: Layout, own: string, other: nat)
    requires OrderedMaps.Valid(zones) && forall k | k in zones.values :: zones.values[k].id == k
    requires own != "" && own in zones.values && Contains(layout(zones.values[own].element), p)
    requires forall i | 0 <= i < |zones.keys| && zones.keys[i] != own ::
               zones.keys[i] in zones.values && Contains(layout(zones.values[zones.keys[i]].element), p) ==>
                 exists j | 0 <= j < i :: zones.keys[j] == own
    ensures ExternalZone(ZoneAt(zones, p, {}, layout), Some(own)) == null
  {
    var j := FirstZone(zones.keys, zones.values, p, {}, layout);
    var o :| 0 <= o < |zones.keys| && zones.keys[o] == own;
    assert ZoneHit(zones.values, zones.keys[o], p, {}, layout);
    assert j != -1;
  }

  /** No tracked zone means no result. A rejecting target container gives none; without a container the
      zone's accept predicate decides, and a zone without one accepts. */
  lemma FinishVerdicts(zone: ZoneEntry, h: HoverState, dragged: seq<Item>)
    ensures Truthy(h.targetContainerId) && !h.targetContainerAccepted ==> FinishResult(zone, h, dragged).None?
    ensures !Truthy(h.targetContainerId) ==> (FinishResult(zone, h, dragged).Some? <==> Accepts(zone.accept, dragged))
    ensures !Truthy(h.targetContainerId) && zone.accept.None? ==> FinishResult(zone, h, dragged).Some?
    ensures FinishResult(zone, h, dragged).Some? ==>
              FinishResult(zone, h, dragged).value
                == DropInfo(zone.id, if h.targetDropIndex.Some? then h.targetDropIndex.value else 0, h.targetContainerId)
  {
  }

  /** After cleanup nothing is hovered and no container is targeted. */
  lemma CleanupClears(h: HoverState)
    ensures var c := CleanedHover(h);
            c.hoveredZoneId.None? && c.hoveredItems == [] && c.dragPosition.None?
            && c.targetContainerId.None? && !c.targetContainerAccepted
            && (h.hoveredZoneId.Some? ==> c.targetDropIndex.None?)
  {
  }
}
