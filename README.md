# nuxt-freeform drag-and-drop core, modelled in Dafny

This project models the engine behind nuxt-freeform's sortable zones.

- **One zone.** A zone (a "Freeform") holds an ordered list of items. The user selects items (plain click or ctrl-click), then presses and drags them. Movement past a 5 px dead zone makes the drag visible. From then on, every pointer move resolves an insertion index from the pointer position and the live rectangles of the items that are not dragged.
- **The resolver.** It collects the visible items and sorts them by position. It groups them into rows using a 20 px row threshold. Then it scans the rows and the gaps between the items of a row. Each gap reaches inward from an item's vertical edges by 40 % of its width, and never less than 20 px. A pointer over the body of an item gives "no change" (hysteresis).
- **Containers.** Items that are drop containers take precedence over reordering while the pointer is inside them, within a 20 px edge padding.
- **The placeholder.** While a placeholder is open, every item reports a visual index. During an internal drag this is computed in "compacted space", the list without the dragged items. During an external drag it is shifted by one.
- **Cross-list drags.** These go through one registry shared by all zones. The source zone tracks the foreign zone under the pointer and publishes the hover state. The target zone watches that state, resolves where the payload would land and publishes the answer back. On release, the source reads that answer.

The model has these modules. A class stands for each object whose fields the source updates in place. Every class method is proved to make exactly the transition a pure function describes. The properties the source promises are proved as lemmas about those functions.

| module | file | what it holds |
|---|---|---|
| `FreeformTypes` | types.dfy | items, positions, rectangles, the drag and selection records, `findIndex` (`IndexOfId`, `FindIndex`) |
| `OrderedMaps` | ordered_map.dfy | a JavaScript `Map`: keys in insertion order, where `set` on a present key keeps its place |
| `Resolver` | resolver.dfy | `getEdgeThreshold`, `collectVisibleItems`, `sortAndGroupByRow`, `findDropIndexInRow`, `calculateDropIndex` |
| `Compaction` | compaction.dfy | `getPlaceholderPosition` and `getVisualIndex` |
| `Selection` | selection.dfy | `select`, shared by both zone contexts |
| `ZoneMachine` | zone_machine.dfy | the zone state as a value and every handler as a pure transition |
| `ZoneContext` | zone_context.dfy | the zone context as a class whose methods make those transitions |
| `Registry` | registry.dfy | the shared drop-zone registry |
| `ExternalDragSource` | external_drag.dfy | `useExternalDrag`, the source side |
| `ExternalDropTarget` | external_drop.dfy | `useExternalDrop`, the target side |
| `EarlyContext` | early_context.dfy | the earlier, smaller zone context of `src/` |

Things the source reads from the page become parameters:
- **Rectangles.** Element rectangles come from a `Layout` function from element handles to rectangles. It stands for `getBoundingClientRect` at the moment of the call.
- **Accept predicates.** These are values of type `seq<Item> -> bool`.
- **Pointer events.** These are records of the position and the button.

Coordinates are `real`. `-Infinity` and `+Infinity` in gap and row bounds are written as `None`.

## Model

| member | source | states |
|---|---|---|
| FreeformTypes.FindIndex | packages/nuxt-freeform/src/runtime/composables/useFreeform.ts:221 | the `findIndex` scan returns the first index whose id matches, or -1 when none does |
| Resolver.EdgeThreshold | packages/nuxt-freeform/src/runtime/composables/useFreeform.ts:47-49 | the gap band is the larger of 40 % of the width and 20 px, and is one of the two |
| Resolver.CollectVisibleItems | packages/nuxt-freeform/src/runtime/composables/useFreeform.ts:84-98 | the loop yields, in registration order, every registered element whose id is not excluded and is in the item list, with its item index and rectangle |
| Resolver.VisibleWithout | packages/nuxt-freeform/src/runtime/composables/useFreeform.ts:84-98 | unregistering the element of an excluded or unknown id leaves the visible items unchanged |
| Resolver.Visible | packages/nuxt-freeform/src/runtime/composables/useFreeform.ts:84-98 | soundness: every listed entry has a registered element, is not excluded, and carries the index of its item and its element's rectangle |
| Resolver.VisibleComplete | packages/nuxt-freeform/src/runtime/composables/useFreeform.ts:84-98 | completeness: every registered key that is not excluded and names an item is listed, with its index and rectangle |
| Resolver.VisibleAppend | packages/nuxt-freeform/src/runtime/composables/useFreeform.ts:84-98 | the list follows registration order: the keys of a concatenation contribute part by part, in order |
| Resolver.SortByPosition | packages/nuxt-freeform/src/runtime/composables/useFreeform.ts:100-108 | the sorted items are ordered by top, then left, and are a permutation of the visible items |
| Resolver.SortMatchesComparator | packages/nuxt-freeform/src/runtime/composables/useFreeform.ts:102-108 | when tops closer than 20 px are equal, the order agrees with the source's tolerance comparator: no later item compares before an earlier one |
| Resolver.SortDiffersOnNearTops | packages/nuxt-freeform/src/runtime/composables/useFreeform.ts:102-108 | two items whose tops are 5 px apart: the model puts the higher one first, the comparator the one further left |
| Resolver.RowsOf | packages/nuxt-freeform/src/runtime/composables/useFreeform.ts:110-126 | the rows are non-empty, there is at least one row exactly when there is an item, and the rows concatenated give back the sorted items |
| Resolver.RowsOfShape | packages/nuxt-freeform/src/runtime/composables/useFreeform.ts:115-125 | within a row each item's top is within 20 px of the previous item's top; each new row starts at least 20 px from the top of the item before it |
| Resolver.RowTopsAscend | packages/nuxt-freeform/src/runtime/composables/useFreeform.ts:100-126 | for sorted input the first tops of the rows never decrease |
| Resolver.SortAndGroupByRow | packages/nuxt-freeform/src/runtime/composables/useFreeform.ts:100-129 | the method returns exactly the rows of the sorted visible items |
| Resolver.GroupRows | packages/nuxt-freeform/src/runtime/composables/useFreeform.ts:110-128 | the grouping loop, with its empty-open-row and -Infinity start, yields exactly those rows |
| Resolver.GroupStep | packages/nuxt-freeform/src/runtime/composables/useFreeform.ts:115-125 | one item either joins the open row (empty, or within 20 px of the last top) or closes it and opens a new one, keeping the scan equal to the rows of the prefix |
| Resolver.FindDropIndexInRow | packages/nuxt-freeform/src/runtime/composables/useFreeform.ts:131-158 | the gap loop returns the index of the first gap, from left to right, holding x; that is the next item's index, or one past the last item; null when no gap holds x |
| Resolver.DropIndexInRowFirstMatch | packages/nuxt-freeform/src/runtime/composables/useFreeform.ts:131-155 | the first gap that holds x decides the answer |
| Resolver.DropIndexInRowNone | packages/nuxt-freeform/src/runtime/composables/useFreeform.ts:131-158 | "no change" is returned if and only if x lies in no gap |
| Resolver.DropIndexInRowLeftEdge | packages/nuxt-freeform/src/runtime/composables/useFreeform.ts:139-153 | left of the first item's inner band, the item is inserted before the first item |
| Resolver.DropIndexInRowRightEdge | packages/nuxt-freeform/src/runtime/composables/useFreeform.ts:143-153 | in the last item's right band, with no earlier gap holding x, the item is appended after the last item |
| Resolver.ThreeItemRow | packages/nuxt-freeform/src/runtime/composables/useFreeform.ts:131-158 | three 100-px items: x = 95 gives index 1, and x = 50 (over the body of the first item) gives no change |
| Resolver.ScanRows | packages/nuxt-freeform/src/runtime/composables/useFreeform.ts:347-371 | the row loop: above a row, the row's first index; within a row (down to the next row's top), the row's gap answer; otherwise the next row |
| Resolver.CalculateDropIndex | packages/nuxt-freeform/src/runtime/composables/useFreeform.ts:336-374 | the composed method equals the resolver function for every registry, item list, exclusion set and pointer |
| Resolver.ResolveRowsStopsAtARow | packages/nuxt-freeform/src/runtime/composables/useFreeform.ts:347-373 | the scan always stops at a row, so the end-of-list fallback is never reached |
| Resolver.DropIndexBelowLastRow | packages/nuxt-freeform/src/runtime/composables/useFreeform.ts:347-373 | a pointer at or below the last row's top is resolved by that row's gaps |
| Resolver.DropIndexNothingVisible | packages/nuxt-freeform/src/runtime/composables/useFreeform.ts:337-342 | with no visible item the answer is index 0 |
| Resolver.DropIndexIgnoresExcluded | packages/nuxt-freeform/src/runtime/composables/useFreeform.ts:336-344 | unregistering an excluded or unknown element never changes the answer |
| Resolver.DropIndexInRange | packages/nuxt-freeform/src/runtime/composables/useFreeform.ts:336-374 | every resolved index is an insertion position of the item list, from 0 to its length |
| Compaction.Kept | packages/nuxt-freeform/src/runtime/composables/useFreeform.ts:64-76 | the compacted position never exceeds the target index, and is 0 for a target of 0 or less |
| Compaction.PlaceholderPosition | packages/nuxt-freeform/src/runtime/composables/useFreeform.ts:64-76 | the loop counts the undragged items below the target index |
| Compaction.KeptIsCount | packages/nuxt-freeform/src/runtime/composables/useFreeform.ts:64-76 | that count is the size of the set of undragged positions below the target |
| Compaction.KeptNothingDragged | packages/nuxt-freeform/src/runtime/composables/useFreeform.ts:64-76 | with nothing dragged, compacted space is the list itself |
| Compaction.KeptMonotone | packages/nuxt-freeform/src/runtime/composables/useFreeform.ts:64-76 | a later target never has a smaller compacted position |
| Compaction.VisualIndexOf | packages/nuxt-freeform/src/runtime/composables/useFreeform.ts:418-451 | the visual index is never below -1; it is -1 exactly for an unknown id or a dragged item during an internal drag |
| Compaction.VisualIndexIdle | packages/nuxt-freeform/src/runtime/composables/useFreeform.ts:422-425 | with no source or drop index, every item shows at its own index |
| Compaction.ExternalShift | packages/nuxt-freeform/src/runtime/composables/useFreeform.ts:427-434 | external drag: an item moves one step on exactly when it lies at or after the drop index, and no item shows on the drop slot |
| Compaction.VisualIndexStrictlyMonotone | packages/nuxt-freeform/src/runtime/composables/useFreeform.ts:436-451 | internal drag: undragged items keep their list order, strictly |
| Compaction.VisualIndexInjective | packages/nuxt-freeform/src/runtime/composables/useFreeform.ts:436-451 | internal drag: two different undragged items never share a visual index |
| Compaction.PlaceholderSlotsFree | packages/nuxt-freeform/src/runtime/composables/useFreeform.ts:443-450 | internal drag: the slots from the placeholder position up to the number of dragged items are left to the placeholder |
| Compaction.FiveItemExample | packages/nuxt-freeform/src/runtime/composables/useFreeform.ts:418-451 | five items with the second and fourth dragged to index 2 show at 0, hidden, 3 and 4 |
| Selection.ApplySelect | packages/nuxt-freeform/src/runtime/composables/useFreeform.ts:186-199 | ctrl toggles (splices out the first occurrence, or pushes); a plain click replaces the selection |
| Selection.PlainClickSelectsOne | packages/nuxt-freeform/src/runtime/composables/useFreeform.ts:196-198 | a plain click selects exactly the item |
| Selection.CtrlRemovesFirstOccurrence | packages/nuxt-freeform/src/runtime/composables/useFreeform.ts:187-191 | ctrl on a selected id removes its first occurrence and keeps the others in order |
| Selection.CtrlAppends | packages/nuxt-freeform/src/runtime/composables/useFreeform.ts:192-194 | ctrl on an unselected id appends the item |
| Selection.CtrlTwiceRestores | packages/nuxt-freeform/src/runtime/composables/useFreeform.ts:187-195 | ctrl-selecting an unselected item twice restores the selection |
| Selection.SelectKeepsDistinct | packages/nuxt-freeform/src/runtime/composables/useFreeform.ts:186-199 | a selection without repeated ids keeps that property under every select |
| ZoneMachine.FirstContainer | packages/nuxt-freeform/src/runtime/composables/useFreeform.ts:249-265 | the first container in registration order that has an item, is not skipped, and holds the pointer inside its 20 px padding; -1 exactly when there is none |
| ZoneMachine.InvInitial | packages/nuxt-freeform/src/runtime/composables/useFreeform.ts:160-184 | the initial state has well-formed registries, a consistent idle drag and index fields in range |
| ZoneMachine.InvPreservedByStartDrag | packages/nuxt-freeform/src/runtime/composables/useFreeform.ts:205-242 | starting a drag keeps the registries well-formed and the drag record consistent |
| ZoneMachine.InvPreservedByPointer | packages/nuxt-freeform/src/runtime/composables/useFreeform.ts:244-291 | pointer moves and releases keep the invariant |
| ZoneMachine.InvPreservedByTargets | packages/nuxt-freeform/src/runtime/composables/useFreeform.ts:301-327 | select, setDropTarget, clearDropTarget and handleExternalDrop keep the invariant |
| ZoneMachine.InvPreservedByRegistration | packages/nuxt-freeform/src/runtime/composables/useFreeform.ts:293-299 | registering and unregistering items and drop zones keep the invariant |
| ZoneMachine.StartDragIgnored | packages/nuxt-freeform/src/runtime/composables/useFreeform.ts:205-207 | a disabled zone, or any button other than the primary one, leaves the state unchanged |
| ZoneMachine.StartDragArms | packages/nuxt-freeform/src/runtime/composables/useFreeform.ts:205-242 | a primary press arms a drag at the press position, of the selection or of the item alone (which then becomes the selection), with the source index set and the drop index cleared |
| ZoneMachine.IdleIgnoresPointer | packages/nuxt-freeform/src/runtime/composables/useFreeform.ts:245 | with no active drag, moves and releases change nothing |
| ZoneMachine.ArmedDragHolds | packages/nuxt-freeform/src/runtime/composables/useFreeform.ts:247-277 | inside the dead zone only the container target follows the pointer |
| ZoneMachine.FirstCrossing | packages/nuxt-freeform/src/runtime/composables/useFreeform.ts:273-290 | the first move past the dead zone makes the drag visible and, when the resolver is skipped, leaves the drop index on the source index |
| ZoneMachine.DropIndexChangesOnlyWhenResolved | packages/nuxt-freeform/src/runtime/composables/useFreeform.ts:244-291 | the drop index changes only on the first crossing, or when the resolver answers outside every container and inside the zone |
| ZoneMachine.PointerMoveResolves | packages/nuxt-freeform/src/runtime/composables/useFreeform.ts:383-396 | past the dead zone, outside containers and inside the zone, a resolver answer becomes the drop index |
| ZoneMachine.PointerUpResets | packages/nuxt-freeform/src/runtime/composables/useFreeform.ts:398-416 | a release resets the drag and clears the source index, drop index, target and dragged size, changing nothing else |
| ZoneMachine.PointerUpIdempotent | packages/nuxt-freeform/src/runtime/composables/useFreeform.ts:398-416 | a second release changes nothing |
| ZoneMachine.IndexBoundsPreservedByMove | packages/nuxt-freeform/src/runtime/composables/useFreeform.ts:244-291 | pointer moves keep the index fields between -1 and the list length |
| ZoneMachine.UpdateKeepsBounds | packages/nuxt-freeform/src/runtime/composables/useFreeform.ts:383-396 | updateDropTarget keeps those bounds |
| ZoneMachine.IndexBoundsPreservedByExternalDrop | packages/nuxt-freeform/src/runtime/composables/useFreeform.ts:457-515 | handleExternalDrop keeps those bounds |
| ZoneMachine.IndexBoundsPreserved | packages/nuxt-freeform/src/runtime/composables/useFreeform.ts:186-416 | select, startDrag, pointer up, setDropTarget and clearDropTarget keep those bounds |
| ZoneMachine.BoundedStateHasVisualIndex | packages/nuxt-freeform/src/runtime/composables/useFreeform.ts:418-451 | in a state within bounds, getVisualIndex is defined for every id (it never reads past the list) |
| ZoneMachine.ExternalDropClears | packages/nuxt-freeform/src/runtime/composables/useFreeform.ts:458-466 | no position or no payload: reports nothing, and clears the external-drop fields unless the zone is dragging |
| ZoneMachine.ExternalDropContainer | packages/nuxt-freeform/src/runtime/composables/useFreeform.ts:468-514 | the source index becomes -1; a container is reported exactly when the first container under the pointer accepts the payload, and it is then the accepted drop target; the reported index is the state's drop index |
| ZoneMachine.ExternalDropShiftsItems | packages/nuxt-freeform/src/runtime/composables/useFreeform.ts:427-434 | after an external drop step, no item shows on the drop index, which is left to the incoming placeholder |
| ZoneContext.FreeformContext.constructor | packages/nuxt-freeform/src/runtime/composables/useFreeform.ts:160-184 | empty registries, no items, an idle drag and an empty selection |
| ZoneContext.FreeformContext.SetItems | packages/nuxt-freeform/src/runtime/composables/useFreeform.ts:164 | the host's write of the item list changes that field only |
| ZoneContext.FreeformContext.SetDisabled | packages/nuxt-freeform/src/runtime/composables/useFreeform.ts:165 | the host's write of the disabled flag changes that field only |
| ZoneContext.FreeformContext.SetRoot | packages/nuxt-freeform/src/runtime/composables/useFreeform.ts:163 | mounting the zone element changes that field only |
| ZoneContext.FreeformContext.RegisterItem | packages/nuxt-freeform/src/runtime/composables/useFreeform.ts:526 | sets one element key, keeping its place when present |
| ZoneContext.FreeformContext.UnregisterItem | packages/nuxt-freeform/src/runtime/composables/useFreeform.ts:527 | deletes one element key |
| ZoneContext.FreeformContext.RegisterDropZone | packages/nuxt-freeform/src/runtime/composables/useFreeform.ts:293-295 | files the container entry under its id |
| ZoneContext.FreeformContext.UnregisterDropZone | packages/nuxt-freeform/src/runtime/composables/useFreeform.ts:297-299 | deletes the container entry |
| ZoneContext.FreeformContext.Select | packages/nuxt-freeform/src/runtime/composables/useFreeform.ts:186-199 | makes exactly the select transition |
| ZoneContext.FreeformContext.ClearSelection | packages/nuxt-freeform/src/runtime/composables/useFreeform.ts:201-203 | empties the selected items only |
| ZoneContext.FreeformContext.StartDrag | packages/nuxt-freeform/src/runtime/composables/useFreeform.ts:205-242 | makes exactly the startDrag transition and keeps the invariant |
| ZoneContext.FreeformContext.FindContainer | packages/nuxt-freeform/src/runtime/composables/useFreeform.ts:249-265 | the loop finds the first container under the pointer, as the pure definition does |
| ZoneContext.FreeformContext.TrackContainer | packages/nuxt-freeform/src/runtime/composables/useFreeform.ts:247-268 | the target becomes the first container under the pointer that is not dragged, with its accept verdict, or is cleared |
| ZoneContext.FreeformContext.AdvanceDrag | packages/nuxt-freeform/src/runtime/composables/useFreeform.ts:279-287 | the first crossing sets the threshold flag and seeds the drop index; every move records the position |
| ZoneContext.FreeformContext.UpdateDropTarget | packages/nuxt-freeform/src/runtime/composables/useFreeform.ts:383-396 | makes exactly the updateDropTarget transition |
| ZoneContext.FreeformContext.HandlePointerMove | packages/nuxt-freeform/src/runtime/composables/useFreeform.ts:244-291 | makes exactly the pointer-move transition and keeps the invariant |
| ZoneContext.FreeformContext.HandlePointerUp | packages/nuxt-freeform/src/runtime/composables/useFreeform.ts:398-416 | makes exactly the release transition |
| ZoneContext.FreeformContext.SetDropTarget | packages/nuxt-freeform/src/runtime/composables/useFreeform.ts:301-323 | for a registered container: targets it with the accept verdict and moves the drop index onto the container's index when it is listed; otherwise nothing |
| ZoneContext.FreeformContext.ClearDropTarget | packages/nuxt-freeform/src/runtime/composables/useFreeform.ts:325-327 | clears the target only |
| ZoneContext.FreeformContext.GetVisualIndex | packages/nuxt-freeform/src/runtime/composables/useFreeform.ts:418-451 | returns the visual index of the pure definition |
| ZoneContext.FreeformContext.HandleExternalDrop | packages/nuxt-freeform/src/runtime/composables/useFreeform.ts:457-515 | makes exactly the external-drop transition and returns its report; the container verdict is true exactly when a container is reported |
| Registry.ZoneEntry.constructor | src/runtime/composables/useDropZoneRegistry.ts:21-23 | a new entry with the given id, element and accept predicate |
| Registry.FirstZone | src/runtime/composables/useDropZoneRegistry.ts:37-46 | the first zone in registration order that is not excluded and holds the point; -1 exactly when there is none |
| Registry.DropZoneRegistry.constructor | src/runtime/composables/useDropZoneRegistry.ts:10-18 | an empty table, nothing hovered, no target |
| Registry.DropZoneRegistry.Register | src/runtime/composables/useDropZoneRegistry.ts:21-23 | files a fresh entry under the id, leaving the hover fields alone |
| Registry.DropZoneRegistry.Unregister | src/runtime/composables/useDropZoneRegistry.ts:25-31 | deletes the entry; clears the hovered zone and items exactly when it was the hovered zone |
| Registry.DropZoneRegistry.GetAll | src/runtime/composables/useDropZoneRegistry.ts:33-35 | returns the table itself |
| Registry.DropZoneRegistry.FindAtPosition | src/runtime/composables/useDropZoneRegistry.ts:37-46 | returns the first registered zone at the point, or null; a returned zone is in the table under its id, not excluded, and holds the point |
| Registry.DropZoneRegistry.SetHovered | src/runtime/composables/useDropZoneRegistry.ts:48-56 | records zone, payload and position; forgets the target drop index exactly when the zone changes |
| Registry.DropZoneRegistry.UpdatePosition | src/runtime/composables/useDropZoneRegistry.ts:58-60 | only the drag position changes |
| Registry.DropZoneRegistry.SetTargetDropIndex | src/runtime/composables/useDropZoneRegistry.ts:62-64 | only the target drop index changes |
| Registry.DropZoneRegistry.SetTargetContainer | src/runtime/composables/useDropZoneRegistry.ts:66-68 | only the target container and its verdict change |
| Registry.ZoneAtNone | src/runtime/composables/useDropZoneRegistry.ts:37-46 | a point in no non-excluded zone finds nothing |
| Registry.ZoneAtFirstInOrder | src/runtime/composables/useDropZoneRegistry.ts:37-46 | when some zone holds the point, one is found, and it is the earliest registered one |
| ExternalDragSource.ExternalDrag.constructor | packages/nuxt-freeform/src/runtime/composables/useExternalDrag.ts:10-12 | no zone tracked at first |
| ExternalDragSource.ExternalDrag.DetectExternalZone | packages/nuxt-freeform/src/runtime/composables/useExternalDrag.ts:18-34 | tracks the zone at the point (none for the own zone); on a change, one setHovered; on the same zone, only the position; with no zone before or after, no write |
| ExternalDragSource.OwnZoneShadows | packages/nuxt-freeform/src/runtime/composables/useExternalDrag.ts:18-24 | when the own zone is the first zone at the point, no zone is tracked, whatever other zones also hold it |
| ExternalDragSource.ExternalDrag.FinishExternalDrag | packages/nuxt-freeform/src/runtime/composables/useExternalDrag.ts:43-76 | with no tracked zone: null and no write; otherwise the verdict over the registry's target fields, always followed by cleanup |
| ExternalDragSource.FinishVerdicts | packages/nuxt-freeform/src/runtime/composables/useExternalDrag.ts:43-76 | a rejecting container gives null; without a container the zone's accept decides (no predicate accepts); a result carries the zone id, the target index or 0, and the container |
| ExternalDragSource.ExternalDrag.Cleanup | packages/nuxt-freeform/src/runtime/composables/useExternalDrag.ts:78-82 | forgets the tracked zone and clears the hover and the target container |
| ExternalDragSource.CleanupClears | packages/nuxt-freeform/src/runtime/composables/useExternalDrag.ts:78-82 | after cleanup nothing is hovered and no container is targeted |
| ExternalDropTarget.ExternalDrop.constructor | packages/nuxt-freeform/src/runtime/composables/useExternalDrop.ts:33-46 | the watch callback is invoked once immediately |
| ExternalDropTarget.ExternalDrop.RunStep | packages/nuxt-freeform/src/runtime/composables/useExternalDrop.ts:33-46 | the callback makes exactly the step: clears local state when not receiving, otherwise resolves and publishes the index and the container |
| ExternalDropTarget.ExternalDrop.Observe | packages/nuxt-freeform/src/runtime/composables/useExternalDrop.ts:33 | the callback is invoked exactly when the drag position or the receiving flag changed |
| ExternalDropTarget.SourceNeverReceives | packages/nuxt-freeform/src/runtime/composables/useExternalDrop.ts:25-30 | a zone that is dragging never receives, and a step then changes nothing |
| ExternalDropTarget.NotReceivingLeavesRegistry | packages/nuxt-freeform/src/runtime/composables/useExternalDrop.ts:35-39 | not receiving: the registry is untouched |
| ExternalDropTarget.ReceivingPublishes | packages/nuxt-freeform/src/runtime/composables/useExternalDrop.ts:41-45 | receiving: the published index and container are what the zone resolved, and the hover fields stay |
| ExternalDropTarget.HandOff | packages/nuxt-freeform/src/runtime/composables/useExternalDrop.ts:41-45 | a source releasing over that zone with no container gets the zone's resolved index, when its accept agrees |
| ExternalDropTarget.ContainerDropAccepted | packages/nuxt-freeform/src/runtime/composables/useExternalDrop.ts:41-45 | with the acceptance published, a source releasing over an accepting container of that zone gets a drop into the container at the zone's resolved index |
| ExternalDropTarget.StepAsWritten | packages/nuxt-freeform/src/runtime/composables/useExternalDrop.ts:41-45 | the step as written: the zone's state is that of the corrected step, and the published acceptance is false while receiving |
| ExternalDropTarget.ContainerDropRejectedAsWritten | packages/nuxt-freeform/src/runtime/composables/useExternalDrag.ts:49-57 | as written, a release over any accepting container of another zone yields null |
| EarlyContext.FreeformContext.constructor | src/runtime/composables/useFreeform.ts:16-34 | no items, an idle drag, an empty selection with the lasso off, no elements |
| EarlyContext.FreeformContext.RegisterItem | src/runtime/composables/useFreeform.ts:41-43 | sets one element key |
| EarlyContext.FreeformContext.UnregisterItem | src/runtime/composables/useFreeform.ts:45-47 | deletes one element key |
| EarlyContext.FreeformContext.Select | src/runtime/composables/useFreeform.ts:49-62 | the same select as the current context |
| EarlyContext.FreeformContext.ClearSelection | src/runtime/composables/useFreeform.ts:64-66 | empties the selected items only |

## Left out

- Resolver.SortByPosition: orders by exact (top, left), where the source sorts with a tolerance comparator (tops closer than 20 px compare by left). That comparator is not a consistent order, so the source's result depends on the engine's sort algorithm. The two agree when any two tops are either equal or at least 20 px apart (`SortMatchesComparator`). They can differ whenever two tops are less than 20 px apart without being equal. For example, an item at left 200, top 0 and one at left 0, top 5 come out higher-first in the model, but the comparator puts the one at left 0 first (`SortDiffersOnNearTops`).
- ZoneContext.FreeformContext.HandleExternalDrop: the core's `handleExternalDrop` returns only the drop index and the container id, while `useExternalDrop` also reads a `containerAccepted` field from it. As written, that field is `undefined`, and every drop into another zone's container is refused (see Findings). The model returns the evidently intended value, "a container was found": a container is reported only when it accepts the payload.
- Compaction.Kept: the source reads `items[i]!.id` for every `i` below the target index, and throws a `TypeError` once the target index exceeds the number of items. The model requires the target index to be at most the length instead, so the thrown error is not modelled.
- ZoneContext.FreeformContext.GetVisualIndex: requires the drop index to lie within the items (`VisualIndexDefined`). This can fail, and the source then throws (see `Compaction.Kept`), when the host replaces the items with a shorter list through `SetItems` while an internal drag has a drop index open. The zone's own handlers never lead there (`ZoneMachine.BoundedStateHasVisualIndex` and the `IndexBounds` lemmas).
- Registry.DropZoneRegistry.SetTargetContainer: the registry of `src/` has no `targetContainerAccepted`, but both cross-list composables use it. The model adds that field, which `setTargetContainer(id, accepted)` writes. The one-argument call in `cleanup` writes `false`.
- Floating point: coordinates are exact reals, so rounding, `NaN` and arithmetic on the infinities are not modelled. The infinite gap and row bounds are `None`.
- The DOM: `getBoundingClientRect` is the `Layout` parameter, read once at each call. `domRectToRect`'s x/y/width/height format is not modelled; the target stores the rectangle itself. `preventDefault` and the event object's other fields are left out.
- The drag record's `offset` field is always `null` in the core and is not modelled.
- Vue reactivity: `ref`, `computed` and `provide`/`inject` are left out, including the error when no context is provided. The `watch` of `useExternalDrop` is the explicit `Observe`, which compares the drag position by value, not by object identity.
- Sharing one registry among every zone is modelled by passing one `DropZoneRegistry` object to both composables.
- Aliasing: `setHovered` stores the source's dragged-items array in the registry. In the model it stores a copy of the value, so later in-place changes by the source are not seen.
- The `row.length === 0` check in `calculateDropIndex` is not modelled (`RowsOf` proves rows are never empty). Neither is the `lastRow?.length` null fallback, which `ResolveRowsStopsAtARow` proves can never be reached.
- `shift` in the select options and the lasso fields are not read by the core, and are kept only as inert state.
- Not part of this model: `useAutoScroll`, the type declarations, `module.ts` and the documentation and playground configuration.

## Findings

| source | as written | input that shows it | evidently intended | confidence | as-written member | corrected member |
|---|---|---|---|---|---|---|
| packages/nuxt-freeform/src/runtime/composables/useFreeform.ts:499-514 | `handleExternalDrop` returns `{ dropIndex, containerId }` with no `containerAccepted`, so `useExternalDrop` publishes `undefined` as the acceptance (useExternalDrop.ts:45), and `finishExternalDrag` returns null for any truthy container id (useExternalDrag.ts:52-57) | any external drag released over a container of the target zone that accepts the payload | the acceptance is `containerId !== null`, since a container is only reported when it accepted | not executed | ExternalDropTarget.ContainerDropRejectedAsWritten | ExternalDropTarget.ContainerDropAccepted |
