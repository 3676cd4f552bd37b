/** Compacted space: positions in the item list once the dragged items are taken out, and the visual
    index every item shows while a placeholder is open. */
module Compaction {
  import opened FreeformTypes

  /** How many of the first t items are not dragged; a t of zero or less counts nothing.
      The source reads `items[i]` for every i below t, so t may not pass the end of the list. */
  function Kept(items: seq<Item>, t: int, dragged: set<string>): (n: nat)
    requires t <= |items|
    ensures n <= (if t <= 0 then 0 else t)
    decreases if t <= 0 then 0 else t
  {
    if t <= 0 then 0
    else Kept(items, t - 1, dragged) + (if items[t - 1].id in dragged then 0 else 1)
  }

  /** `getPlaceholderPosition`: counts the undragged items below `targetIndex`. */
  method PlaceholderPosition(items: seq<Item>, targetIndex: int, dragged: set<string>) returns (pos: nat)
    requires targetIndex <= |items|
    ensures pos == Kept(items, targetIndex, dragged)
  {
    pos := 0;
    var i := 0;
    while i < targetIndex
      invariant 0 <= i <= (if targetIndex <= 0 then 0 else targetIndex)
      invariant pos == Kept(items, i, dragged)
    {
      if items[i].id !in dragged {
        pos := pos + 1;
      }
      i := i + 1;
    }
  }

  /** The positions below t whose item is not dragged. */
  function KeptPositions(items: seq<Item>, t: nat, dragged: set<string>): set<nat>
    requires t <= |items|
  {
    set i: nat | i < t && items[i].id !in dragged
  }

  /** The count is exactly the number of undragged positions below t. */
  lemma {:induction false} KeptIsCount(items: seq<Item>, t: nat, dragged: set<string>)
    requires t <= |items|
    ensures Kept(items, t, dragged) == |KeptPositions(items, t, dragged)|
  {
    if t == 0 {
      assert KeptPositions(items, 0, dragged) == {};
    } else {
      KeptIsCount(items, t - 1, dragged);
      var below := KeptPositions(items, t - 1, dragged);
      assert t - 1 !in below;
      if items[t - 1].id in dragged {
        assert KeptPositions(items, t, dragged) == below;
      } else {
        assert KeptPositions(items, t, dragged) == below + {t - 1};
      }
    }
  }

  /** With nothing dragged, compacted space is the list itself. */
  lemma {:induction false} KeptNothingDragged(items: seq<Item>, t: int)
    requires t <= |items|
    ensures Kept(items, t, {}) == (if t <= 0 then 0 else t)
  {
    if t > 0 {
      KeptNothingDragged(items, t - 1);
    }
  }

  /** A later target never has a smaller compacted position. */
  lemma {:induction false} KeptMonotone(items: seq<Item>, s: int, t: int, dragged: set<string>)
    requires s <= t <= |items|
    ensures Kept(items, s, dragged) <= Kept(items, t, dragged)
    decreases t - s
  {
    if s < t {
      KeptMonotone(items, s, t - 1, dragged);
    }
  }

  /** An undragged item lying below t is counted. */
  lemma KeptPast(items: seq<Item>, a: nat, t: int, dragged: set<string>)
    requires a < t <= |items| && items[a].id !in dragged
    ensures Kept(items, a, dragged) < Kept(items, t, dragged)
  {
    KeptMonotone(items, a + 1, t, dragged);
  }

  /** When `getVisualIndex` is defined: an internal drag reads the item list up to the drop index for
      every known undragged item, so the drop index may not lie past the end. */
  predicate VisualIndexDefined(items: seq<Item>, dragged: seq<Item>, source: Option<int>, drop: Option<int>,
                               id: string)
  {
    (ContainsId(items, id) && source.Some? && drop.Some? && source.value != -1 && id !in Ids(dragged))
      ==> drop.value <= |items|
  }

  /** `getVisualIndex`: where an item shows while a placeholder of the dragged items is open. */
  function VisualIndexOf(items: seq<Item>, dragged: seq<Item>, source: Option<int>, drop: Option<int>,
                         id: string): (r: int)
    requires VisualIndexDefined(items, dragged, source, drop, id)
    ensures r >= -1
    ensures r == -1 <==> !ContainsId(items, id)
                         || (source.Some? && drop.Some? && source.value != -1 && id in Ids(dragged))
  {
    var actual := IndexOfId(items, id);
    if actual == -1 then -1
    else if source.None? || drop.None? then actual
    else if source.value == -1 then
      if actual >= drop.value then actual + 1 else actual
    else if id in Ids(dragged) then -1
    else
      var c := Kept(items, actual, Ids(dragged));
      var p := Kept(items, drop.value, Ids(dragged));
      if c >= p then c + |dragged| else c
  }

  /** With no drag or no drop index recorded, every item shows at its own index. */
  lemma VisualIndexIdle(items: seq<Item>, dragged: seq<Item>, source: Option<int>, drop: Option<int>, id: string)
    requires source.None? || drop.None?
    ensures VisualIndexOf(items, dragged, source, drop, id) == IndexOfId(items, id)
  {
  }

  /** External drag: the incoming placeholder takes the drop slot and pushes what follows one step on. */
  lemma ExternalShift(items: seq<Item>, dragged: seq<Item>, drop: int, id: string)
    requires ContainsId(items, id)
    ensures (VisualIndexOf(items, dragged, Some(-1), Some(drop), id) == IndexOfId(items, id) + 1)
              <==> IndexOfId(items, id) >= drop
    ensures VisualIndexOf(items, dragged, Some(-1), Some(drop), id) != drop
  {
  }

  /** Internal drag: the visual indices of undragged items keep their list order, strictly. */
  lemma VisualIndexStrictlyMonotone(items: seq<Item>, dragged: seq<Item>, source: int, drop: int,
                                    a: string, b: string)
    requires source != -1 && drop <= |items|
    requires ContainsId(items, a) && ContainsId(items, b)
    requires a !in Ids(dragged) && b !in Ids(dragged)
    requires IndexOfId(items, a) < IndexOfId(items, b)
    ensures VisualIndexOf(items, dragged, Some(source), Some(drop), a)
              < VisualIndexOf(items, dragged, Some(source), Some(drop), b)
  {
    KeptPast(items, IndexOfId(items, a), IndexOfId(items, b), Ids(dragged));
  }

  /** Internal drag: two different undragged items never show at the same place. */
  lemma VisualIndexInjective(items: seq<Item>, dragged: seq<Item>, source: int, drop: int, a: string, b: string)
    requires source != -1 && drop <= |items|
    requires ContainsId(items, a) && ContainsId(items, b)
    requires a !in Ids(dragged) && b !in Ids(dragged)
    requires a != b
    ensures VisualIndexOf(items, dragged, Some(source), Some(drop), a)
              != VisualIndexOf(items, dragged, Some(source), Some(drop), b)
  {
    assert items[IndexOfId(items, a)].id == a && items[IndexOfId(items, b)].id == b;
    if IndexOfId(items, a) < IndexOfId(items, b) {
      VisualIndexStrictlyMonotone(items, dragged, source, drop, a, b);
    } else {
      VisualIndexStrictlyMonotone(items, dragged, source, drop, b, a);
    }
  }

  /** Internal drag: the |dragged| slots from the placeholder position on are left to the placeholder. */
  lemma PlaceholderSlotsFree(items: seq<Item>, dragged: seq<Item>, source: int, drop: int, id: string)
    requires source != -1 && drop <= |items|
    requires ContainsId(items, id) && id !in Ids(dragged)
    ensures var v := VisualIndexOf(items, dragged, Some(source), Some(drop), id);
            var p := Kept(items, drop, Ids(dragged));
            !(p <= v < p + |dragged|)
  {
  }

  /** Five items with the second and fourth dragged to drop index 2: the first item stays, the third
      moves past the two placeholder slots, and the fifth follows it. */
  lemma FiveItemExample(items: seq<Item>, dragged: seq<Item>)
    requires |items| == 5
    requires items[0].id == "a" && items[1].id == "b" && items[2].id == "c"
    requires items[3].id == "d" && items[4].id == "e"
    requires dragged == [items[1], items[3]]
    ensures VisualIndexOf(items, dragged, Some(1), Some(2), "a") == 0
    ensures VisualIndexOf(items, dragged, Some(1), Some(2), "b") == -1
    ensures VisualIndexOf(items, dragged, Some(1), Some(2), "c") == 3
    ensures VisualIndexOf(items, dragged, Some(1), Some(2), "e") == 4
  {
    var d := Ids(dragged);
    assert dragged[0].id == "b" && dragged[1].id == "d";
    assert "b" in d && "d" in d;
    assert "a" !in d && "c" !in d && "e" !in d by {
      forall id | id in d ensures id == "b" || id == "d" {
        var k :| 0 <= k < |dragged| && dragged[k].id == id;
      }
    }
    assert IndexOfId(items, "a") == 0;
    assert IndexOfId(items, "c") == 2 by {
      assert items[0].id != "c" && items[1].id != "c";
    }
    assert IndexOfId(items, "e") == 4 by {
      assert forall k | 0 <= k < 4 :: items[k].id != "e";
    }
    assert Kept(items, 1, d) == 1;
    assert Kept(items, 2, d) == 1;
    assert Kept(items, 3, d) == 2;
    assert Kept(items, 4, d) == 2;
  }
}
