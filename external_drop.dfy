/** The target side of a cross-list drag: while another zone's payload hovers over this zone, resolve
    where it would land and publish that through the shared registry. */
module ExternalDropTarget {
  import opened FreeformTypes
  import OrderedMaps
  import Registry
  import ZoneMachine
  import ZoneContext
  import ExternalDragSource

  /** `isReceiving`: this zone has an id, it is the hovered zone, a payload hovers, and the zone is not
      itself the source of a drag. */
  predicate Receiving(dropZoneId: Option<string>, h: Registry.HoverState, drag: DragState) {
    && ExternalDragSource.Truthy(dropZoneId)
    && h.hoveredZoneId == dropZoneId
    && |h.hoveredItems| > 0
    && !drag.active
  }

  datatype StepOutcome = StepOutcome(zone: ZoneMachine.ZoneState, hover: Registry.HoverState)

  /** One invocation of the watch callback. Not receiving: clear the zone's local state and leave the registry
      alone. Receiving: resolve the hovered payload at the drag position and publish the drop index, the
      container and its acceptance. */
  function Step(dropZoneId: Option<string>, z: ZoneMachine.ZoneState, h: Registry.HoverState, layout: Layout): StepOutcome
    requires OrderedMaps.Valid(z.elements)
  {
    if !Receiving(dropZoneId, h, z.drag) then
      StepOutcome(ZoneMachine.ExternalDrop(z, None, [], layout).state, h)
    else
      var o := ZoneMachine.ExternalDrop(z, h.dragPosition, h.hoveredItems, layout);
      StepOutcome(o.state, h.(targetDropIndex := o.result.dropIndex, targetContainerId := o.result.containerId,
                              targetContainerAccepted := o.result.containerId.Some?))
  }

  class ExternalDrop {
    const registry: Registry.DropZoneRegistry
    const dropZoneId: Option<string>
    const zone: ZoneContext.FreeformContext
    /** The watch's last seen sources: the registry's drag position and the receiving flag. */
    var lastPosition: Option<Position>
    var lastReceiving: bool

    predicate IsReceiving()
      reads registry, zone
    {
      Receiving(dropZoneId, registry.Hover(), zone.drag)
    }

    /** `useExternalDrop`: sets up the watch, which runs once immediately. */
    constructor(registry: Registry.DropZoneRegistry, dropZoneId: Option<string>, zone: ZoneContext.FreeformContext,
                layout: Layout)
      requires zone.Valid()
      modifies registry, zone
      ensures this.registry == registry && this.dropZoneId == dropZoneId && this.zone == zone
      ensures zone.Valid() && registry.zones == old(registry.zones)
      ensures StepOutcome(zone.State(), registry.Hover()) == Step(dropZoneId, old(zone.State()), old(registry.Hover()), layout)
      ensures lastPosition == registry.dragPosition && lastReceiving == IsReceiving()
    {
      this.registry := registry;
      this.dropZoneId := dropZoneId;
      this.zone := zone;
      lastPosition := registry.dragPosition;
      lastReceiving := Receiving(dropZoneId, registry.Hover(), zone.drag);
      new;
      RunStep(layout);
    }

    /** The watch callback. */
    method RunStep(layout: Layout)
      requires zone.Valid()
      modifies registry, zone
      ensures zone.Valid() && registry.zones == old(registry.zones)
      ensures StepOutcome(zone.State(), registry.Hover()) == Step(dropZoneId, old(zone.State()), old(registry.Hover()), layout)
      ensures registry.dragPosition == old(registry.dragPosition) && IsReceiving() == old(IsReceiving())
    {
      if !IsReceiving() {
        var _, _, _ := zone.HandleExternalDrop(None, [], layout);
        return;
      }
      var index, containerId, accepted := zone.HandleExternalDrop(registry.dragPosition, registry.hoveredItems, layout);
      registry.SetTargetDropIndex(index);
      registry.SetTargetContainer(containerId, accepted);
    }

    /** The watch trigger: the callback runs when the drag position or the receiving flag differs from
        what it last saw, and otherwise nothing happens. */
    method Observe(layout: Layout)
      requires zone.Valid()
      modifies this, registry, zone
      ensures zone.Valid() && registry.zones == old(registry.zones)
      ensures lastPosition == registry.dragPosition && lastReceiving == IsReceiving()
      ensures (old(registry.dragPosition) == old(lastPosition) && old(IsReceiving()) == old(lastReceiving)) ==>
                zone.State() == old(zone.State()) && registry.Hover() == old(registry.Hover())
      ensures (old(registry.dragPosition) != old(lastPosition) || old(IsReceiving()) != old(lastReceiving)) ==>
                StepOutcome(zone.State(), registry.Hover()) == Step(dropZoneId, old(zone.State()), old(registry.Hover()), layout)
    {
      var position := registry.dragPosition;
      var receiving := IsReceiving();
      if position == lastPosition && receiving == lastReceiving {
        return;
      }
      lastPosition := position;
      lastReceiving := receiving;
      RunStep(layout);
    }
  }

  /** A zone that is dragging is never receiving, and a step then changes nothing at all. */
  lemma SourceNeverReceives(dropZoneId: Option<string>, z: ZoneMachine.ZoneState, h: Registry.HoverState, layout: Layout)
    requires OrderedMaps.Valid(z.elements) && z.drag.active
    ensures !Receiving(dropZoneId, h, z.drag)
    ensures Step(dropZoneId, z, h, layout) == StepOutcome(z, h)
  {
    ZoneMachine.ExternalDropClears(z, None, [], layout);
  }

  /** Not receiving: the registry is left as it was and the zone's external-drop fields are cleared
      unless it is dragging. */
  lemma NotReceivingLeavesRegistry(dropZoneId: Option<string>, z: ZoneMachine.ZoneState, h: Registry.HoverState,
                                   layout: Layout)
    requires OrderedMaps.Valid(z.elements) && !Receiving(dropZoneId, h, z.drag)
    ensures Step(dropZoneId, z, h, layout).hover == h
    ensures !z.drag.active ==>
              Step(dropZoneId, z, h, layout).zone == z.(dropIndex := None, sourceIndex := None, target := None)
  {
    ZoneMachine.ExternalDropClears(z, None, [], layout);
  }

  /** Receiving: what the source later reads back is exactly what the zone resolved. A target container
      is reported only as accepting, and the source's verdict then turns on the zone's own accept (no
      container) or succeeds (a container with a nonempty id). */
  lemma ReceivingPublishes(dropZoneId: Option<string>, z: ZoneMachine.ZoneState, h: Registry.HoverState,
                           layout: Layout, p: Position)
    requires OrderedMaps.Valid(z.elements) && Receiving(dropZoneId, h, z.drag) && h.dragPosition == Some(p)
    ensures var o := ZoneMachine.ExternalDrop(z, Some(p), h.hoveredItems, layout);
            var r := Step(dropZoneId, z, h, layout);
            && r.zone == o.state && r.zone.sourceIndex == Some(-1)
            && r.hover.targetDropIndex == r.zone.dropIndex
            && r.hover.targetContainerId == o.result.containerId
            && (r.hover.targetContainerAccepted <==> r.hover.targetContainerId.Some?)
            && r.hover.hoveredZoneId == h.hoveredZoneId && r.hover.hoveredItems == h.hoveredItems
            && r.hover.dragPosition == h.dragPosition
  {
    ZoneMachine.ExternalDropContainer(z, p, h.hoveredItems, layout);
  }

  /** The hand-off through the shared registry: after the target's step, a source tracking that zone and
      releasing with no target container gets the zone's resolved drop index when its accept agrees. */
  lemma HandOff(dropZoneId: Option<string>, z: ZoneMachine.ZoneState, h: Registry.HoverState, layout: Layout,
                p: Position, entry: Registry.ZoneEntry)
    requires OrderedMaps.Valid(z.elements) && Receiving(dropZoneId, h, z.drag) && h.dragPosition == Some(p)
    requires ZoneMachine.ExternalDrop(z, Some(p), h.hoveredItems, layout).result.containerId.None?
    requires Accepts(entry.accept, h.hoveredItems)
    ensures var r := Step(dropZoneId, z, h, layout);
            ExternalDragSource.FinishResult(entry, r.hover, h.hoveredItems)
              == Some(ExternalDragSource.DropInfo(entry.id, if r.zone.dropIndex.Some? then r.zone.dropIndex.value else 0, None))
  {
    ReceivingPublishes(dropZoneId, z, h, layout, p);
  }

  /** A source releasing over a receiving zone whose accepting container is under the pointer gets a drop
      into that container, at the zone's resolved index. */
  lemma ContainerDropAccepted(dropZoneId: Option<string>, z: ZoneMachine.ZoneState, h: Registry.HoverState,
                              layout: Layout, p: Position, entry: Registry.ZoneEntry)
    requires OrderedMaps.Valid(z.elements) && Receiving(dropZoneId, h, z.drag) && h.dragPosition == Some(p)
    requires ExternalDragSource.Truthy(ZoneMachine.ExternalDrop(z, Some(p), h.hoveredItems, layout).result.containerId)
    ensures var r := Step(dropZoneId, z, h, layout);
            ExternalDragSource.FinishResult(entry, r.hover, h.hoveredItems)
              == Some(ExternalDragSource.DropInfo(entry.id, if r.zone.dropIndex.Some? then r.zone.dropIndex.value else 0,
                                                  r.hover.targetContainerId))
            && r.hover.targetContainerId.Some?
  {
    ReceivingPublishes(dropZoneId, z, h, layout, p);
    ExternalDragSource.FinishVerdicts(entry, Step(dropZoneId, z, h, layout).hover, h.hoveredItems);
  }

  /** The step as the watch callback reads it: `handleExternalDrop` returns no `containerAccepted`, so the
      published acceptance is `undefined`, which the source later reads as false. */
  function StepAsWritten(dropZoneId: Option<string>, z: ZoneMachine.ZoneState, h: Registry.HoverState,
                         layout: Layout): (r: StepOutcome)
    requires OrderedMaps.Valid(z.elements)
    ensures Receiving(dropZoneId, h, z.drag) ==> !r.hover.targetContainerAccepted
    ensures r.zone == Step(dropZoneId, z, h, layout).zone
  {
    var o := Step(dropZoneId, z, h, layout);
    if Receiving(dropZoneId, h, z.drag) then StepOutcome(o.zone, o.hover.(targetContainerAccepted := false)) else o
  }

  /** As written, every release onto a container of another zone is refused: the container is published
      with acceptance false, and the source then gives up. */
  lemma ContainerDropRejectedAsWritten(dropZoneId: Option<string>, z: ZoneMachine.ZoneState, h: Registry.HoverState,
                                       layout: Layout, p: Position, entry: Registry.ZoneEntry)
    requires OrderedMaps.Valid(z.elements) && Receiving(dropZoneId, h, z.drag) && h.dragPosition == Some(p)
    requires ExternalDragSource.Truthy(ZoneMachine.ExternalDrop(z, Some(p), h.hoveredItems, layout).result.containerId)
    ensures ExternalDragSource.FinishResult(entry, StepAsWritten(dropZoneId, z, h, layout).hover, h.hoveredItems).None?
  {
    ReceivingPublishes(dropZoneId, z, h, layout, p);
    ExternalDragSource.FinishVerdicts(entry, StepAsWritten(dropZoneId, z, h, layout).hover, h.hoveredItems);
  }
}
