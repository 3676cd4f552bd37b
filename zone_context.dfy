/** One Freeform zone's context: the reactive fields of the zone and the handlers that update them,
    each proved to make exactly the transition the zone machine describes. */
module ZoneContext {
  import opened FreeformTypes
  import opened OrderedMaps
  import Resolver
  import Compaction
  import Selection
  import ZoneMachine

  class FreeformContext {
    var items: seq<Item>
    /** `itemElements`: the mounted element of every registered item, in registration order. */
    var elements: OrderedMap<string, Element>
    /** `dropZones`: the zone's own containers, in registration order. */
    var containers: OrderedMap<string, ZoneMachine.ContainerEntry>
    /** `containerElement`: the zone's own element once mounted. */
    var root: Option<Element>
    var disabled: bool
    var drag: DragState
    var selection: SelectionState
    var dropIndex: Option<int>
    /** `dragSourceIndex`: the dragged item's index, or -1 while receiving an external drag. */
    var sourceIndex: Option<int>
    var target: Option<DropTarget>
    var draggedSize: Option<Size>

    function State(): ZoneMachine.ZoneState
      reads this
    {
      ZoneMachine.ZoneState(items, elements, containers, root, disabled, drag, selection, dropIndex,
                            sourceIndex, target, draggedSize)
    }

    ghost predicate Valid()
      reads this
    {
      ZoneMachine.Inv(State())
    }

    /** `createFreeformContext`: empty registries, no items, an idle drag and an empty selection. */
    constructor()
      ensures State() == ZoneMachine.Initial && Valid()
    {
      items := [];
      elements := Empty();
      containers := Empty();
      root := None;
      disabled := false;
      drag := IdleDrag;
      selection := SelectionState([], false, None);
      dropIndex := None;
      sourceIndex := None;
      target := None;
      draggedSize := None;
    }

    /** The host writes the item list. */
    method SetItems(newItems: seq<Item>)
      modifies this
      ensures State() == old(State()).(items := newItems)
    {
      items := newItems;
    }

    /** The host writes the disabled flag. */
    method SetDisabled(value: bool)
      modifies this
      ensures State() == old(State()).(disabled := value)
    {
      disabled := value;
    }

    /** The host mounts or unmounts the zone's own element. */
    method SetRoot(element: Option<Element>)
      modifies this
      ensures State() == old(State()).(root := element)
    {
      root := element;
    }

    method RegisterItem(id: string, element: Element)
      requires Valid()
      modifies this
      ensures Valid() && State() == ZoneMachine.RegisterItem(old(State()), id, element)
    {
      elements := Set(elements, id, element);
    }

    method UnregisterItem(id: string)
      requires Valid()
      modifies this
      ensures Valid() && State() == ZoneMachine.UnregisterItem(old(State()), id)
    {
      elements := Delete(elements, id);
    }

    method RegisterDropZone(id: string, element: Element, item: Option<Item>, accept: Option<Accept>)
      requires Valid()
      modifies this
      ensures Valid() && State() == ZoneMachine.RegisterDropZone(old(State()), id, element, item, accept)
    {
      containers := Set(containers, id, ZoneMachine.ContainerEntry(id, element, item, accept));
    }

    method UnregisterDropZone(id: string)
      requires Valid()
      modifies this
      ensures Valid() && State() == ZoneMachine.UnregisterDropZone(old(State()), id)
    {
      containers := Delete(containers, id);
    }

    /** `select`: splices out the first occurrence or pushes under ctrl, replaces otherwise. */
    method Select(item: Item, ctrl: bool)
      modifies this
      ensures State() == ZoneMachine.Select(old(State()), item, ctrl)
    {
      var sel := Selection.ApplySelect(selection.items, item, ctrl);
      selection := selection.(items := sel);
    }

    method ClearSelection()
      modifies this
      ensures State() == old(State()).(selection := old(selection).(items := []))
    {
      selection := selection.(items := []);
    }

    method StartDrag(item: Item, ev: PointerEvent, layout: Layout)
      requires Valid()
      modifies this
      ensures Valid() && State() == ZoneMachine.StartDrag(old(State()), item, ev, layout)
    {
      ZoneMachine.InvPreservedByStartDrag(State(), item, ev, layout);
      if disabled || ev.button != 0 {
        return;
      }
      var found := FindIndex(selection.items, item.id);
      var isSelected := found >= 0;
      var toDrag := if isSelected then selection.items else [item];
      if !isSelected {
        selection := selection.(items := [item]);
      }
      var sourceIdx := FindIndex(items, item.id);
      sourceIndex := Some(sourceIdx);
      dropIndex := None;
      var start := Position(ev.x, ev.y);
      if item.id in elements.values {
        var rect := layout(elements.values[item.id]);
        draggedSize := Some(SizeOf(rect));
      }
      drag := DragState(true, toDrag, Some(start), Some(start), false);
    }

    /** The container loop of the pointer handlers: the first container, in registration order, that
        carries an item, is not skipped, and holds the pointer within its edge padding. */
    method FindContainer(p: Position, skip: set<string>, layout: Layout) returns (hit: Option<ZoneMachine.ContainerEntry>)
      requires Valid()
      ensures hit == ZoneMachine.ContainerAt(containers, p, skip, layout)
    {
      var keys := containers.keys;
      var i := 0;
      while i < |keys|
        invariant 0 <= i <= |keys|
        invariant forall j | 0 <= j < i :: !ZoneMachine.ContainerHit(containers.values, keys[j], p, skip, layout)
      {
        var id := keys[i];
        var entry := containers.values[id];
        if entry.item.Some? && id !in skip {
          var rect := layout(entry.element);
          if ZoneMachine.InsetContains(rect, p) {
            var first := ZoneMachine.FirstContainer(keys, containers.values, p, skip, layout);
            assert ZoneMachine.ContainerHit(containers.values, keys[i], p, skip, layout);
            assert first == i;
            return Some(entry);
          }
        }
        i := i + 1;
      }
      return None;
    }

    /** `updateDropTarget`. */
    method UpdateDropTarget(p: Position, layout: Layout)
      requires Valid()
      modifies this
      ensures State() == ZoneMachine.UpdateDropTarget(old(State()), p, layout)
    {
      if target.Some? {
        return;
      }
      if !ZoneMachine.InsideRoot(root, p, layout) {
        return;
      }
      var n := Resolver.CalculateDropIndex(items, elements, Ids(drag.items), layout, p);
      if n.Some? {
        dropIndex := n;
      }
    }

    /** `handlePointerMove`. */
    method HandlePointerMove(ev: PointerEvent, layout: Layout)
      requires Valid()
      modifies this
      ensures Valid() && State() == ZoneMachine.PointerMove(old(State()), ev, layout)
    {
      ZoneMachine.InvPreservedByPointer(State(), ev, layout);
      if !drag.active || drag.startPosition.None? {
        return;
      }
      var p := Position(ev.x, ev.y);
      TrackContainer(p, layout);
      if !drag.thresholdPassed {
        var start := drag.startPosition.value;
        var dx := Abs(p.x - start.x);
        var dy := Abs(p.y - start.y);
        if dx < ZoneMachine.DragThreshold && dy < ZoneMachine.DragThreshold {
          return;
        }
      }
      AdvanceDrag(p);
      UpdateDropTarget(p, layout);
    }

    /** The container check of `handlePointerMove`: target the first container under the pointer that is
        not being dragged, or clear the target. */
    method TrackContainer(p: Position, layout: Layout)
      requires Valid()
      modifies this
      ensures Valid() && State() == old(State()).(target := ZoneMachine.MoveTarget(old(State()), p, layout))
    {
      var hit := FindContainer(p, Ids(drag.items), layout);
      if hit.Some? {
        var e := hit.value;
        target := Some(DropTarget(e.item.value, layout(e.element), Accepts(e.accept, drag.items)));
      } else if target.Some? {
        target := None;
      }
    }

    /** The threshold crossing and position update of `handlePointerMove`. */
    method AdvanceDrag(p: Position)
      modifies this
      ensures State() == ZoneMachine.Advance(old(State()), p)
    {
      if !drag.thresholdPassed {
        drag := drag.(thresholdPassed := true);
        if sourceIndex.Some? {
          dropIndex := sourceIndex;
        }
      }
      drag := drag.(currentPosition := Some(p));
    }

    /** `handlePointerUp`. */
    method HandlePointerUp()
      requires Valid()
      modifies this
      ensures Valid() && State() == ZoneMachine.PointerUp(old(State()))
    {
      if !drag.active {
        return;
      }
      drag := IdleDrag;
      sourceIndex := None;
      dropIndex := None;
      target := None;
      draggedSize := None;
    }

    /** `setDropTarget`. */
    method SetDropTarget(item: Item, accept: Option<Accept>, layout: Layout)
      modifies this
      ensures State() == ZoneMachine.SetDropTarget(old(State()), item, accept, layout)
    {
      if item.id !in containers.values {
        return;
      }
      var entry := containers.values[item.id];
      var accepted := Accepts(accept, drag.items);
      var rect := layout(entry.element);
      target := Some(DropTarget(item, rect, accepted));
      var containerIndex := FindIndex(items, item.id);
      if containerIndex != -1 {
        dropIndex := Some(containerIndex);
      }
    }

    method ClearDropTarget()
      modifies this
      ensures State() == ZoneMachine.ClearDropTarget(old(State()))
    {
      target := None;
    }

    /** `getVisualIndex`. */
    method GetVisualIndex(id: string) returns (r: int)
      requires Compaction.VisualIndexDefined(items, drag.items, sourceIndex, dropIndex, id)
      ensures r == Compaction.VisualIndexOf(items, drag.items, sourceIndex, dropIndex, id)
    {
      var actual := FindIndex(items, id);
      if actual == -1 {
        return -1;
      }
      if sourceIndex.None? || dropIndex.None? {
        return actual;
      }
      if sourceIndex.value == -1 {
        if actual >= dropIndex.value {
          return actual + 1;
        }
        return actual;
      }
      var draggedIds := Ids(drag.items);
      if id in draggedIds {
        return -1;
      }
      var compacted := Compaction.PlaceholderPosition(items, actual, draggedIds);
      var placeholder := Compaction.PlaceholderPosition(items, dropIndex.value, draggedIds);
      r := if compacted >= placeholder then compacted + |drag.items| else compacted;
    }

    /** `handleExternalDrop`, with the `containerAccepted` its caller reads and the source leaves out: it is
        reported exactly when a container id is. */
    method HandleExternalDrop(pos: Option<Position>, incoming: seq<Item>, layout: Layout)
      returns (resultIndex: Option<int>, containerId: Option<string>, containerAccepted: bool)
      requires Valid()
      modifies this
      ensures Valid()
      ensures ZoneMachine.ExternalDrop(old(State()), pos, incoming, layout)
                == ZoneMachine.ExternalOutcome(State(), ZoneMachine.ExternalResult(resultIndex, containerId))
      ensures containerAccepted <==> containerId.Some?
    {
      ZoneMachine.InvPreservedByTargets(State(), Item("", ItemKind.Plain, false), false, None, layout, pos, incoming);
      if pos.None? || |incoming| == 0 {
        if !drag.active {
          dropIndex := None;
          sourceIndex := None;
          target := None;
        }
        return None, None, false;
      }
      var p := pos.value;
      sourceIndex := Some(-1);
      var found: Option<Item> := None;
      var hit := FindContainer(p, {}, layout);
      if hit.Some? {
        var e := hit.value;
        if Accepts(e.accept, incoming) {
          found := e.item;
          target := Some(DropTarget(e.item.value, layout(e.element), true));
        }
      }
      if found.None? {
        target := None;
      }
      containerId := if found.Some? then Some(found.value.id) else None;
      containerAccepted := containerId.Some?;
      if !ZoneMachine.InsideRoot(root, p, layout) {
        resultIndex := dropIndex;
        return;
      }
      var n := Resolver.CalculateDropIndex(items, elements, {}, layout, p);
      if n.Some? {
        dropIndex := n;
      }
      resultIndex := dropIndex;
    }
  }
}
