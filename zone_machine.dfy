/** The state of one Freeform zone and the transitions its pointer handlers, container hooks and
    external-drop entry point make on it, as functions of the state before. */
module ZoneMachine {
  import opened FreeformTypes
  import opened OrderedMaps
  import Resolver
  import Compaction
  import Selection

  const DragThreshold := 5.0
  /** Horizontal padding of a container: the pointer must be this far inside its left and right edges. */
  const ContainerEdgePx := 20.0

  /** A zone-local container drop target: the host item it stands for and its accept predicate. */
  datatype ContainerEntry = ContainerEntry(id: string, element: Element, item: Option<Item>, accept: Option<Accept>)

  datatype ZoneState = ZoneState(
    items: seq<Item>,
    elements: OrderedMap<string, Element>,
    containers: OrderedMap<string, ContainerEntry>,
    root: Option<Element>,
    disabled: bool,
    drag: DragState,
    selection: SelectionState,
    dropIndex: Option<int>,
    sourceIndex: Option<int>,
    target: Option<DropTarget>,
    draggedSize: Option<Size>)

  const Initial := ZoneState([], Empty(), Empty(), None, false, IdleDrag, SelectionState([], false, None),
                             None, None, None, None)

  /** Both registries are well-formed maps and the drag record is consistent. */
  ghost predicate Inv(s: ZoneState) {
    Valid(s.elements) && Valid(s.containers) && DragConsistent(s.drag)
  }

  /** The index fields hold what the handlers write into them: -1 (an unknown source item, or an external
      drag) up to the one-past-the-end insertion index. */
  predicate IndexBounds(s: ZoneState) {
    && (s.sourceIndex.None? || -1 <= s.sourceIndex.value <= |s.items|)
    && (s.dropIndex.None? || -1 <= s.dropIndex.value <= |s.items|)
  }

  // ---------------------------------------------------------------------------
  // Geometry queries
  // ---------------------------------------------------------------------------

  /** The container's box shrunk by the edge padding on the left and the right, closed. */
  predicate InsetContains(r: Rect, p: Position) {
    p.x >= r.left + ContainerEdgePx && p.x <= r.right - ContainerEdgePx && p.y >= r.top && p.y <= r.bottom
  }

  /** Key k names a container the pointer is over: it carries an item, is not skipped, and holds p. */
  predicate ContainerHit(containers: map<string, ContainerEntry>, k: string, p: Position, skip: set<string>,
                         layout: Layout) {
    k in containers && containers[k].item.Some? && k !in skip && InsetContains(layout(containers[k].element), p)
  }

  /** The position, in registration order, of the first container the pointer is over, or -1. */
  function FirstContainer(keys: seq<string>, containers: map<string, ContainerEntry>, p: Position,
                          skip: set<string>, layout: Layout): (r: int)
    ensures -1 <= r < |keys|
    ensures r >= 0 ==> ContainerHit(containers, keys[r], p, skip, layout)
    ensures r >= 0 ==> forall i | 0 <= i < r :: !ContainerHit(containers, keys[i], p, skip, layout)
    ensures r == -1 <==> forall i | 0 <= i < |keys| :: !ContainerHit(containers, keys[i], p, skip, layout)
  {
    if |keys| == 0 then -1
    else if ContainerHit(containers, keys[0], p, skip, layout) then 0
    else
      var r := FirstContainer(keys[1..], containers, p, skip, layout);
      assert forall i | 1 <= i < |keys| :: keys[i] == keys[1..][i - 1];
      if r == -1 then -1 else r + 1
  }

  /** The container entry the pointer is over, if any. */
  function ContainerAt(containers: OrderedMap<string, ContainerEntry>, p: Position, skip: set<string>,
                       layout: Layout): Option<ContainerEntry>
  {
    var j := FirstContainer(containers.keys, containers.values, p, skip, layout);
    if j == -1 then None else Some(containers.values[containers.keys[j]])
  }

  /** `isInsideContainer`: inside the zone's own closed box; with no zone element, always inside. */
  predicate InsideRoot(root: Option<Element>, p: Position, layout: Layout) {
    root.None? || Contains(layout(root.value), p)
  }

  // ---------------------------------------------------------------------------
  // Transitions
  // ---------------------------------------------------------------------------

  /** `select`: ctrl toggles the item's first occurrence, otherwise the item becomes the selection. */
  function Select(s: ZoneState, item: Item, ctrl: bool): ZoneState {
    s.(selection := s.selection.(items := Selection.SelectResult(s.selection.items, item, ctrl)))
  }

  /** `startDrag`: arms a drag of the selection (or of the item alone, which then becomes the selection). */
  function StartDrag(s: ZoneState, item: Item, ev: PointerEvent, layout: Layout): ZoneState {
    if s.disabled || ev.button != 0 then s
    else
      var selected := ContainsId(s.selection.items, item.id);
      var toDrag := if selected then s.selection.items else [item];
      var start := Position(ev.x, ev.y);
      s.(selection := if selected then s.selection else s.selection.(items := [item]),
         sourceIndex := Some(IndexOfId(s.items, item.id)),
         dropIndex := None,
         draggedSize := if item.id in s.elements.values then Some(SizeOf(layout(s.elements.values[item.id])))
                        else s.draggedSize,
         drag := DragState(true, toDrag, Some(start), Some(start), false))
  }

  /** The drop target a pointer move records: the first container under the pointer that is not itself
      being dragged, with its accept verdict over the payload. */
  function MoveTarget(s: ZoneState, p: Position, layout: Layout): Option<DropTarget> {
    var hit := ContainerAt(s.containers, p, Ids(s.drag.items), layout);
    if hit.None? then None
    else
      var e := hit.value;
      Some(DropTarget(e.item.value, layout(e.element), Accepts(e.accept, s.drag.items)))
  }

  /** Whether the pointer is still within the dead zone around the start of a drag not yet visible. */
  predicate Armed(s: ZoneState, p: Position)
    requires s.drag.startPosition.Some?
  {
    var start := s.drag.startPosition.value;
    !s.drag.thresholdPassed && Abs(p.x - start.x) < DragThreshold && Abs(p.y - start.y) < DragThreshold
  }

  /** `updateDropTarget`: reorder only when no container is targeted and the pointer is inside the zone;
      a null resolver result keeps the previous index. */
  function UpdateDropTarget(s: ZoneState, p: Position, layout: Layout): ZoneState
    requires Valid(s.elements)
  {
    if s.target.Some? || !InsideRoot(s.root, p, layout) then s
    else
      var n := Resolver.DropIndex(s.items, s.elements, Ids(s.drag.items), layout, p);
      if n.Some? then s.(dropIndex := n) else s
  }

  /** Past the dead zone: the first crossing makes the drag visible and seeds the drop index with the
      source index; every move then records the pointer. */
  function Advance(s: ZoneState, p: Position): ZoneState {
    var s1 := if s.drag.thresholdPassed then s
              else s.(drag := s.drag.(thresholdPassed := true),
                      dropIndex := if s.sourceIndex.Some? then s.sourceIndex else s.dropIndex);
    s1.(drag := s1.drag.(currentPosition := Some(p)))
  }

  /** `handlePointerMove`: the container check first, then the dead zone, then reorder. */
  function PointerMove(s: ZoneState, ev: PointerEvent, layout: Layout): ZoneState
    requires Valid(s.elements)
  {
    if !s.drag.active || s.drag.startPosition.None? then s
    else
      var p := Position(ev.x, ev.y);
      var s1 := s.(target := MoveTarget(s, p, layout));
      if Armed(s1, p) then s1
      else UpdateDropTarget(Advance(s1, p), p, layout)
  }

  /** `handlePointerUp`. */
  function PointerUp(s: ZoneState): ZoneState {
    if !s.drag.active then s
    else s.(drag := IdleDrag, sourceIndex := None, dropIndex := None, target := None, draggedSize := None)
  }

  /** `setDropTarget`: for a registered container, target it with the given accept verdict and move the
      drop index onto the container's own position. */
  function SetDropTarget(s: ZoneState, item: Item, accept: Option<Accept>, layout: Layout): ZoneState {
    if item.id !in s.containers.values then s
    else
      var entry := s.containers.values[item.id];
      var i := IndexOfId(s.items, item.id);
      s.(target := Some(DropTarget(item, layout(entry.element), Accepts(accept, s.drag.items))),
         dropIndex := if i != -1 then Some(i) else s.dropIndex)
  }

  function ClearDropTarget(s: ZoneState): ZoneState {
    s.(target := None)
  }

  datatype ExternalResult = ExternalResult(dropIndex: Option<int>, containerId: Option<string>)

  /** `handleExternalDrop`: the new state and what the zone reports back. */
  datatype ExternalOutcome = ExternalOutcome(state: ZoneState, result: ExternalResult)

  /** `handleExternalDrop(position, incomingItems)`. */
  function ExternalDrop(s: ZoneState, pos: Option<Position>, incoming: seq<Item>, layout: Layout): ExternalOutcome
    requires Valid(s.elements)
  {
    if pos.None? || |incoming| == 0 then
      var s1 := if s.drag.active then s else s.(dropIndex := None, sourceIndex := None, target := None);
      ExternalOutcome(s1, ExternalResult(None, None))
    else
      var p := pos.value;
      var hit := ContainerAt(s.containers, p, {}, layout);
      var accepted := hit.Some? && Accepts(hit.value.accept, incoming);
      var found: Option<string> := if accepted then Some(hit.value.item.value.id) else None;
      var s1 := s.(sourceIndex := Some(-1),
                   target := if accepted then Some(DropTarget(hit.value.item.value, layout(hit.value.element), true))
                             else None);
      if !InsideRoot(s.root, p, layout) then ExternalOutcome(s1, ExternalResult(s1.dropIndex, found))
      else
        var n := Resolver.DropIndex(s.items, s.elements, {}, layout, p);
        var s2 := if n.Some? then s1.(dropIndex := n) else s1;
        ExternalOutcome(s2, ExternalResult(s2.dropIndex, found))
  }

  function RegisterItem(s: ZoneState, id: string, element: Element): ZoneState
    requires Valid(s.elements)
  {
    s.(elements := Set(s.elements, id, element))
  }

  function UnregisterItem(s: ZoneState, id: string): ZoneState
    requires Valid(s.elements)
  {
    s.(elements := Delete(s.elements, id))
  }

  function RegisterDropZone(s: ZoneState, id: string, element: Element, item: Option<Item>,
                            accept: Option<Accept>): ZoneState
    requires Valid(s.containers)
  {
    s.(containers := Set(s.containers, id, ContainerEntry(id, element, item, accept)))
  }

  function UnregisterDropZone(s: ZoneState, id: string): ZoneState
    requires Valid(s.containers)
  {
    s.(containers := Delete(s.containers, id))
  }

  // ---------------------------------------------------------------------------
  // Properties of the transitions
  // ---------------------------------------------------------------------------

  /** Every transition keeps the maps well-formed and the drag record consistent. */
  lemma InvPreservedByStartDrag(s: ZoneState, item: Item, ev: PointerEvent, layout: Layout)
    requires Inv(s)
    ensures Inv(StartDrag(s, item, ev, layout))
  {
    if !s.disabled && ev.button == 0 && ContainsId(s.selection.items, item.id) {
      var k :| 0 <= k < |s.selection.items| && s.selection.items[k].id == item.id;
      assert |s.selection.items| > 0;
    }
  }

  lemma InvPreservedByPointer(s: ZoneState, ev: PointerEvent, layout: Layout)
    requires Inv(s)
    ensures Inv(PointerMove(s, ev, layout))
    ensures Inv(PointerUp(s))
  {
  }

  lemma InvPreservedByTargets(s: ZoneState, item: Item, ctrl: bool, accept: Option<Accept>, layout: Layout,
                              pos: Option<Position>, incoming: seq<Item>)
    requires Inv(s)
    ensures Inv(Select(s, item, ctrl))
    ensures Inv(SetDropTarget(s, item, accept, layout))
    ensures Inv(ClearDropTarget(s))
    ensures Inv(ExternalDrop(s, pos, incoming, layout).state)
  {
  }

  lemma InvPreservedByRegistration(s: ZoneState, id: string, element: Element, container: Option<Item>,
                                   accept: Option<Accept>)
    requires Inv(s)
    ensures Inv(RegisterItem(s, id, element)) && Inv(UnregisterItem(s, id))
    ensures Inv(RegisterDropZone(s, id, element, container, accept)) && Inv(UnregisterDropZone(s, id))
  {
  }

  lemma InvInitial()
    ensures Inv(Initial) && IndexBounds(Initial)
  {
  }

  /** A disabled zone, or any button but the primary one, leaves the state exactly as it was. */
  lemma StartDragIgnored(s: ZoneState, item: Item, ev: PointerEvent, layout: Layout)
    requires s.disabled || ev.button != 0
    ensures StartDrag(s, item, ev, layout) == s
  {
  }

  /** A primary press in an enabled zone arms a drag from the press position. The dragged items are a
      copy of the selection when the item is selected; otherwise the item alone, which also becomes the
      selection. Items, registries and the drop target are untouched. */
  lemma StartDragArms(s: ZoneState, item: Item, ev: PointerEvent, layout: Layout)
    requires !s.disabled && ev.button == 0
    ensures var r := StartDrag(s, item, ev, layout);
            && r.drag.active && !r.drag.thresholdPassed
            && r.drag.startPosition == r.drag.currentPosition == Some(Position(ev.x, ev.y))
            && r.dropIndex.None?
            && r.sourceIndex == Some(IndexOfId(s.items, item.id))
            && (ContainsId(s.selection.items, item.id) ==> r.drag.items == s.selection.items && r.selection == s.selection)
            && (!ContainsId(s.selection.items, item.id) ==> r.drag.items == [item] && r.selection.items == [item])
            && r.items == s.items && r.elements == s.elements && r.containers == s.containers
            && r.target == s.target && r.disabled == s.disabled && r.root == s.root
  {
  }

  /** With no active drag, pointer moves and releases change nothing. */
  lemma IdleIgnoresPointer(s: ZoneState, ev: PointerEvent, layout: Layout)
    requires Valid(s.elements) && !s.drag.active
    ensures PointerMove(s, ev, layout) == s
    ensures PointerUp(s) == s
  {
  }

  /** Inside the dead zone only the container target follows the pointer: the drag record, the drop
      index and everything else stay as they were. */
  lemma ArmedDragHolds(s: ZoneState, ev: PointerEvent, layout: Layout)
    requires Valid(s.elements) && s.drag.active && s.drag.startPosition.Some?
    requires Armed(s, Position(ev.x, ev.y))
    ensures PointerMove(s, ev, layout) == s.(target := MoveTarget(s, Position(ev.x, ev.y), layout))
  {
  }

  /** The first move out of the dead zone makes the drag visible and, when a container or the zone's
      bounds keep the resolver from running, leaves the drop index on the source index. */
  lemma FirstCrossing(s: ZoneState, ev: PointerEvent, layout: Layout)
    requires Valid(s.elements) && s.drag.active && s.drag.startPosition.Some? && !s.drag.thresholdPassed
    requires !Armed(s, Position(ev.x, ev.y))
    requires s.sourceIndex.Some?
    requires MoveTarget(s, Position(ev.x, ev.y), layout).Some? || !InsideRoot(s.root, Position(ev.x, ev.y), layout)
    ensures var r := PointerMove(s, ev, layout);
            && r.drag.thresholdPassed && r.drag.currentPosition == Some(Position(ev.x, ev.y))
            && r.dropIndex == s.sourceIndex
  {
  }

  /** The drop index moves only on the first crossing (onto the source index) or when the resolver runs
      outside every container, inside the zone, and returns an index. */
  lemma DropIndexChangesOnlyWhenResolved(s: ZoneState, ev: PointerEvent, layout: Layout)
    requires Valid(s.elements)
    requires PointerMove(s, ev, layout).dropIndex != s.dropIndex
    ensures var p := Position(ev.x, ev.y);
            var n := Resolver.DropIndex(s.items, s.elements, Ids(s.drag.items), layout, p);
            var r := PointerMove(s, ev, layout);
            && s.drag.active && s.drag.startPosition.Some? && !Armed(s, p)
            && ((!s.drag.thresholdPassed && r.dropIndex == s.sourceIndex)
                || (MoveTarget(s, p, layout).None? && InsideRoot(s.root, p, layout) && n.Some? && r.dropIndex == n))
  {
  }

  /** Past the dead zone, outside every container and inside the zone, a resolver answer becomes the
      drop index. */
  lemma PointerMoveResolves(s: ZoneState, ev: PointerEvent, layout: Layout)
    requires Valid(s.elements) && s.drag.active && s.drag.startPosition.Some?
    requires !Armed(s, Position(ev.x, ev.y))
    requires MoveTarget(s, Position(ev.x, ev.y), layout).None? && InsideRoot(s.root, Position(ev.x, ev.y), layout)
    requires Resolver.DropIndex(s.items, s.elements, Ids(s.drag.items), layout, Position(ev.x, ev.y)).Some?
    ensures PointerMove(s, ev, layout).dropIndex
              == Resolver.DropIndex(s.items, s.elements, Ids(s.drag.items), layout, Position(ev.x, ev.y))
  {
  }

  /** A release ends the drag and clears every transient field, leaving the rest as it was. */
  lemma PointerUpResets(s: ZoneState)
    requires s.drag.active
    ensures PointerUp(s) == s.(drag := IdleDrag, sourceIndex := None, dropIndex := None, target := None,
                              draggedSize := None)
  {
  }

  lemma PointerUpIdempotent(s: ZoneState)
    ensures PointerUp(PointerUp(s)) == PointerUp(s)
  {
  }

  /** Every handler keeps the index fields within the item list. (Only the host, by replacing the item
      list, can break this.) */
  lemma IndexBoundsPreservedByMove(s: ZoneState, ev: PointerEvent, layout: Layout)
    requires Valid(s.elements) && IndexBounds(s)
    ensures IndexBounds(PointerMove(s, ev, layout))
  {
    if s.drag.active && s.drag.startPosition.Some? {
      var p := Position(ev.x, ev.y);
      var s1 := s.(target := MoveTarget(s, p, layout));
      if !Armed(s1, p) {
        assert IndexBounds(Advance(s1, p));
        UpdateKeepsBounds(Advance(s1, p), p, layout);
      }
    }
  }

  lemma UpdateKeepsBounds(s: ZoneState, p: Position, layout: Layout)
    requires Valid(s.elements) && IndexBounds(s)
    ensures IndexBounds(UpdateDropTarget(s, p, layout))
  {
    Resolver.DropIndexInRange(s.items, s.elements, Ids(s.drag.items), layout, p);
  }

  lemma IndexBoundsPreservedByExternalDrop(s: ZoneState, pos: Option<Position>, incoming: seq<Item>, layout: Layout)
    requires Valid(s.elements) && IndexBounds(s)
    ensures IndexBounds(ExternalDrop(s, pos, incoming, layout).state)
  {
    var r := ExternalDrop(s, pos, incoming, layout).state;
    if pos.Some? && |incoming| > 0 {
      var p := pos.value;
      var n := Resolver.DropIndex(s.items, s.elements, {}, layout, p);
      Resolver.DropIndexInRange(s.items, s.elements, {}, layout, p);
      assert r.sourceIndex == Some(-1);
      assert r.dropIndex == s.dropIndex || r.dropIndex == n;
    }
  }

  lemma IndexBoundsPreserved(s: ZoneState, item: Item, ev: PointerEvent, layout: Layout, ctrl: bool,
                             accept: Option<Accept>)
    requires IndexBounds(s)
    ensures IndexBounds(Select(s, item, ctrl))
    ensures IndexBounds(StartDrag(s, item, ev, layout))
    ensures IndexBounds(PointerUp(s))
    ensures IndexBounds(SetDropTarget(s, item, accept, layout))
    ensures IndexBounds(ClearDropTarget(s))
  {
  }

  /** In a state with bounded indices, `getVisualIndex` is defined for every id. */
  lemma BoundedStateHasVisualIndex(s: ZoneState, id: string)
    requires IndexBounds(s)
    ensures Compaction.VisualIndexDefined(s.items, s.drag.items, s.sourceIndex, s.dropIndex, id)
  {
  }

  /** A null position or an empty payload reports nothing, and clears the external-drop fields unless the
      zone is itself dragging. */
  lemma ExternalDropClears(s: ZoneState, pos: Option<Position>, incoming: seq<Item>, layout: Layout)
    requires Valid(s.elements) && (pos.None? || |incoming| == 0)
    ensures var o := ExternalDrop(s, pos, incoming, layout);
            && o.result == ExternalResult(None, None)
            && (s.drag.active ==> o.state == s)
            && (!s.drag.active ==> o.state == s.(dropIndex := None, sourceIndex := None, target := None))
  {
  }

  /** An external drag marks the zone's source as outside (-1), and a reported container is the first one
      under the pointer, it accepted the payload, and it is the recorded drop target. */
  lemma ExternalDropContainer(s: ZoneState, p: Position, incoming: seq<Item>, layout: Layout)
    requires Valid(s.elements) && |incoming| > 0
    ensures var o := ExternalDrop(s, Some(p), incoming, layout);
            var hit := ContainerAt(s.containers, p, {}, layout);
            && o.state.sourceIndex == Some(-1)
            && (o.result.containerId.Some? <==> hit.Some? && Accepts(hit.value.accept, incoming))
            && (o.result.containerId.Some? ==>
                  && o.state.target.Some? && o.state.target.value.accepted
                  && o.state.target.value.item == hit.value.item.value
                  && o.result.containerId.value == hit.value.item.value.id)
            && (o.result.containerId.None? ==> o.state.target.None?)
            && o.result.dropIndex == o.state.dropIndex
  {
  }

  /** During an external drag the zone's items make room for the one incoming placeholder at the drop
      index. */
  lemma ExternalDropShiftsItems(s: ZoneState, p: Position, incoming: seq<Item>, layout: Layout, id: string)
    requires Valid(s.elements) && |incoming| > 0
    requires ExternalDrop(s, Some(p), incoming, layout).state.dropIndex.Some?
    requires ContainsId(s.items, id)
    ensures var r := ExternalDrop(s, Some(p), incoming, layout).state;
            Compaction.VisualIndexOf(r.items, r.drag.items, r.sourceIndex, r.dropIndex, id) != r.dropIndex.value
  {
    var r := ExternalDrop(s, Some(p), incoming, layout).state;
    Compaction.ExternalShift(r.items, r.drag.items, r.dropIndex.value, id);
  }
}
