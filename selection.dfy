/** `select`, shared by the earlier and the current zone context: ctrl toggles, a plain click replaces. */
module Selection {
  import opened FreeformTypes

  /** The selected items after `select(item, { ctrl })`; the shift option has no effect. */
  function SelectResult(sel: seq<Item>, item: Item, ctrl: bool): seq<Item> {
    if !ctrl then [item]
    else
      var i := IndexOfId(sel, item.id);
      if i >= 0 then sel[..i] + sel[i + 1..] else sel + [item]
  }

  /** The splice-or-push of `select` on the selected items. */
  method ApplySelect(sel: seq<Item>, item: Item, ctrl: bool) returns (r: seq<Item>)
    ensures r == SelectResult(sel, item, ctrl)
  {
    if ctrl {
      var idx := FindIndex(sel, item.id);
      if idx >= 0 {
        r := sel[..idx] + sel[idx + 1..];
      } else {
        r := sel + [item];
      }
    } else {
      r := [item];
    }
  }

  /** No identifier is selected twice. */
  predicate DistinctIds(sel: seq<Item>) {
    forall i, j | 0 <= i < j < |sel| :: sel[i].id != sel[j].id
  }

  /** A plain click selects exactly the clicked item. */
  lemma PlainClickSelectsOne(sel: seq<Item>, item: Item)
    ensures SelectResult(sel, item, false) == [item]
  {
  }

  /** Ctrl on a selected item removes its first occurrence and keeps the others in order. */
  lemma CtrlRemovesFirstOccurrence(sel: seq<Item>, item: Item)
    requires ContainsId(sel, item.id)
    ensures var r := SelectResult(sel, item, true);
            exists i | 0 <= i < |sel| ::
              && sel[i].id == item.id
              && (forall k | 0 <= k < i :: sel[k].id != item.id)
              && r == sel[..i] + sel[i + 1..]
  {
    var i := IndexOfId(sel, item.id);
    assert sel[i].id == item.id;
  }

  /** Ctrl on an unselected item appends it. */
  lemma CtrlAppends(sel: seq<Item>, item: Item)
    requires !ContainsId(sel, item.id)
    ensures SelectResult(sel, item, true) == sel + [item]
  {
  }

  /** Appending an item whose id is not yet present puts its first occurrence at the end. */
  lemma IndexOfAppended(sel: seq<Item>, item: Item)
    requires !ContainsId(sel, item.id)
    ensures IndexOfId(sel + [item], item.id) == |sel|
  {
    var s := sel + [item];
    assert s[|sel|].id == item.id;
    assert forall k | 0 <= k < |sel| :: s[k] == sel[k];
  }

  /** Ctrl-selecting an unselected item twice gives the selection back unchanged. */
  lemma CtrlTwiceRestores(sel: seq<Item>, item: Item)
    requires !ContainsId(sel, item.id)
    ensures SelectResult(SelectResult(sel, item, true), item, true) == sel
  {
    IndexOfAppended(sel, item);
    assert (sel + [item])[..|sel|] == sel;
  }

  /** Removing the first occurrence of a distinct id leaves no occurrence behind. */
  lemma RemoveKeepsDistinct(sel: seq<Item>, item: Item)
    requires DistinctIds(sel) && ContainsId(sel, item.id)
    ensures DistinctIds(SelectResult(sel, item, true))
    ensures !ContainsId(SelectResult(sel, item, true), item.id)
  {
    var i := IndexOfId(sel, item.id);
    var r := sel[..i] + sel[i + 1..];
    assert SelectResult(sel, item, true) == r;
    assert forall k | 0 <= k < |r| :: r[k] == (if k < i then sel[k] else sel[k + 1]);
    forall k | 0 <= k < |r| ensures r[k].id != item.id {
      if k >= i { assert sel[k + 1].id != sel[i].id; }
    }
    forall a, b | 0 <= a < b < |r| ensures r[a].id != r[b].id {
      var a' := if a < i then a else a + 1;
      var b' := if b < i then b else b + 1;
      assert r[a] == sel[a'] && r[b] == sel[b'] && a' < b';
    }
  }

  /** Appending an id that is absent keeps ids distinct and makes it present. */
  lemma AppendKeepsDistinct(sel: seq<Item>, item: Item)
    requires DistinctIds(sel) && !ContainsId(sel, item.id)
    ensures DistinctIds(SelectResult(sel, item, true))
    ensures ContainsId(SelectResult(sel, item, true), item.id)
  {
    var r := sel + [item];
    assert SelectResult(sel, item, true) == r;
    assert r[|sel|] == item;
    assert forall k | 0 <= k < |sel| :: r[k] == sel[k];
  }

  /** Selections never hold an id twice, and with distinct ids ctrl flips the item's membership. */
  lemma SelectKeepsDistinct(sel: seq<Item>, item: Item, ctrl: bool)
    requires DistinctIds(sel)
    ensures DistinctIds(SelectResult(sel, item, ctrl))
    ensures ctrl ==> (ContainsId(SelectResult(sel, item, ctrl), item.id) <==> !ContainsId(sel, item.id))
  {
    if ctrl {
      if ContainsId(sel, item.id) {
        RemoveKeepsDistinct(sel, item);
      } else {
        AppendKeepsDistinct(sel, item);
      }
    }
  }
}
