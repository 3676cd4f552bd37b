/** The earlier zone context: item registration and selection only, with the drag record kept idle. */
module EarlyContext {
  import opened FreeformTypes
  import opened OrderedMaps
  import Selection

  class FreeformContext {
    var items: seq<Item>
    var drag: DragState
    var selection: SelectionState
    /** `itemElements`: the mounted element of every registered item, in registration order. */
    var itemElements: OrderedMap<string, Element>

    ghost predicate Valid()
      reads this
    {
      OrderedMaps.Valid(itemElements)
    }

    /** `createFreeformContext`: no items, an idle drag with no positions, an empty selection with the
        lasso off, and no registered elements. */
    constructor()
      ensures Valid()
      ensures items == [] && drag == IdleDrag && selection == SelectionState([], false, None)
      ensures itemElements.values == map[]
    {
      items := [];
      drag := IdleDrag;
      selection := SelectionState([], false, None);
      itemElements := Empty();
    }

    /** `registerItem`: sets one key, leaving the other keys as they were. */
    method RegisterItem(id: string, element: Element)
      requires Valid()
      modifies this
      ensures Valid() && itemElements == Set(old(itemElements), id, element)
      ensures itemElements.values == old(itemElements.values)[id := element]
      ensures items == old(items) && drag == old(drag) && selection == old(selection)
    {
      itemElements := Set(itemElements, id, element);
    }

    /** `unregisterItem`: deletes one key, leaving the other keys as they were. */
    method UnregisterItem(id: string)
      requires Valid()
      modifies this
      ensures Valid() && itemElements == Delete(old(itemElements), id)
      ensures itemElements.values == old(itemElements.values) - {id}
      ensures items == old(items) && drag == old(drag) && selection == old(selection)
    {
      itemElements := Delete(itemElements, id);
    }

    /** `select`: splices out the first occurrence or pushes under ctrl, replaces otherwise. */
    method Select(item: Item, ctrl: bool)
      modifies this
      ensures selection == old(selection).(items := Selection.SelectResult(old(selection.items), item, ctrl))
      ensures items == old(items) && drag == old(drag) && itemElements == old(itemElements)
    {
      var sel := Selection.ApplySelect(selection.items, item, ctrl);
      selection := selection.(items := sel);
    }

    /** `clearSelection`: empties the selected items only. */
    method ClearSelection()
      modifies this
      ensures selection == old(selection).(items := [])
      ensures items == old(items) && drag == old(drag) && itemElements == old(itemElements)
    {
      selection := selection.(items := []);
    }
  }
}
