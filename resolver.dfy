/** The geometry resolver: from a pointer position and the live item rectangles to an insertion
    index, or to "no change" (None) while the pointer is over the body of an item. */
module Resolver {
  import opened FreeformTypes
  import opened OrderedMaps

  const EdgePercent: real := 0.4
  const EdgeMinPx: real := 20.0
  const RowThreshold: real := 20.0

  /** The width of the band, measured inward from each vertical edge of an item, that counts as gap. */
  function EdgeThreshold(width: real): (t: real)
    ensures t >= EdgeMinPx && t >= width * EdgePercent
    ensures t == EdgeMinPx || t == width * EdgePercent
  {
    if width * EdgePercent > EdgeMinPx then width * EdgePercent else EdgeMinPx
  }

  /** A registered element that is not excluded and whose id is in the item list. */
  datatype VisibleItem = VisibleItem(id: string, index: nat, rect: Rect)

  /** What a registered id contributes to the visible items: nothing when excluded or unknown.
      (A listed key always has an element; the last guard only keeps the function total.) */
  function VisibleEntry(id: string, elements: map<string, Element>, items: seq<Item>,
                        excluded: set<string>, layout: Layout): seq<VisibleItem>
  {
    var idx := IndexOfId(items, id);
    if id in excluded || idx == -1 || id !in elements then [] else [VisibleItem(id, idx, layout(elements[id]))]
  }

  /** The visible items, in the registration order of their elements. */
  function Visible(keys: seq<string>, elements: map<string, Element>, items: seq<Item>,
                   excluded: set<string>, layout: Layout): (r: seq<VisibleItem>)
    ensures |r| <= |keys|
    ensures forall j | 0 <= j < |r| ::
      && r[j].id !in excluded
      && r[j].id in keys
      && r[j].index < |items|
      && items[r[j].index].id == r[j].id
      && r[j].id in elements && r[j].rect == layout(elements[r[j].id])
  {
    if |keys| == 0 then []
    else VisibleEntry(keys[0], elements, items, excluded, layout) + Visible(keys[1..], elements, items, excluded, layout)
  }

  /** `collectVisibleItems`: scans the element registry in insertion order. */
  method CollectVisibleItems(elements: OrderedMap<string, Element>, items: seq<Item>,
                             excluded: set<string>, layout: Layout) returns (result: seq<VisibleItem>)
    requires Valid(elements)
    ensures result == Visible(elements.keys, elements.values, items, excluded, layout)
  {
    var keys := elements.keys;
    var values := elements.values;
    result := [];
    var i := 0;
    while i < |keys|
      invariant 0 <= i <= |keys|
      invariant result == Visible(keys[..i], values, items, excluded, layout)
    {
      var id := keys[i];
      VisibleSnoc(keys, i, values, items, excluded, layout);
      if id in excluded {
        i := i + 1;
        continue;
      }
      var idx := IndexOfId(items, id);
      if idx != -1 {
        result := result + [VisibleItem(id, idx, layout(values[id]))];
      }
      i := i + 1;
    }
    assert keys[..|keys|] == keys;
  }

  /** Visible items of a concatenation are the visible items of each part, in order. */
  lemma {:induction false} VisibleAppend(a: seq<string>, b: seq<string>, elements: map<string, Element>,
                                         items: seq<Item>, excluded: set<string>, layout: Layout)
    ensures Visible(a + b, elements, items, excluded, layout)
         == Visible(a, elements, items, excluded, layout) + Visible(b, elements, items, excluded, layout)
  {
    if |a| == 0 {
      assert a + b == b;
    } else {
      assert (a + b)[0] == a[0] && (a + b)[1..] == a[1..] + b;
      VisibleAppend(a[1..], b, elements, items, excluded, layout);
    }
  }

  /** Completeness: every registered key that is not excluded and names an item is listed, with its
      item index and its element's rectangle. */
  lemma VisibleComplete(keys: seq<string>, elements: map<string, Element>, items: seq<Item>,
                        excluded: set<string>, layout: Layout, k: nat)
    requires k < |keys| && keys[k] !in excluded && keys[k] in elements && IndexOfId(items, keys[k]) != -1
    ensures VisibleItem(keys[k], IndexOfId(items, keys[k]), layout(elements[keys[k]]))
              in Visible(keys, elements, items, excluded, layout)
  {
    var x := keys[k];
    assert keys == keys[..k] + ([x] + keys[k + 1..]);
    VisibleAppend(keys[..k], [x] + keys[k + 1..], elements, items, excluded, layout);
    VisibleAppend([x], keys[k + 1..], elements, items, excluded, layout);
    assert Visible([x], elements, items, excluded, layout) == [VisibleItem(x, IndexOfId(items, x), layout(elements[x]))];
  }

  /** One more registered key adds its own entry, if any, at the end. */
  lemma VisibleSnoc(keys: seq<string>, i: nat, elements: map<string, Element>, items: seq<Item>,
                    excluded: set<string>, layout: Layout)
    requires i < |keys| && keys[i] in elements
    ensures var before := Visible(keys[..i], elements, items, excluded, layout);
            var after := Visible(keys[..i + 1], elements, items, excluded, layout);
            && (keys[i] in excluded || IndexOfId(items, keys[i]) == -1 ==> after == before)
            && (keys[i] !in excluded && IndexOfId(items, keys[i]) != -1 ==>
                  after == before + [VisibleItem(keys[i], IndexOfId(items, keys[i]), layout(elements[keys[i]]))])
  {
    assert keys[..i + 1] == keys[..i] + [keys[i]];
    VisibleAppend(keys[..i], [keys[i]], elements, items, excluded, layout);
    assert Visible([keys[i]], elements, items, excluded, layout) == VisibleEntry(keys[i], elements, items, excluded, layout);
  }

  /** An element whose id is excluded or unknown can be unregistered without changing what is visible. */
  lemma {:induction false} VisibleWithout(keys: seq<string>, elements: map<string, Element>, items: seq<Item>,
                                          excluded: set<string>, layout: Layout, id: string)
    requires id in excluded || !ContainsId(items, id)
    ensures Visible(Without(keys, id), elements - {id}, items, excluded, layout)
         == Visible(keys, elements, items, excluded, layout)
  {
    if |keys| > 0 {
      VisibleWithout(keys[1..], elements, items, excluded, layout, id);
    }
  }

  // ---------------------------------------------------------------------------
  // Sorting by visual position
  // ---------------------------------------------------------------------------

  /** The ordering used to sort visible items: by top, then by left. */
  predicate Before(a: VisibleItem, b: VisibleItem) {
    a.rect.top < b.rect.top || (a.rect.top == b.rect.top && a.rect.left <= b.rect.left)
  }

  predicate SortedByPosition(s: seq<VisibleItem>) {
    forall i, j | 0 <= i < j < |s| :: Before(s[i], s[j])
  }

  function InsertByPosition(x: VisibleItem, s: seq<VisibleItem>): (r: seq<VisibleItem>)
    requires SortedByPosition(s)
    ensures SortedByPosition(r)
    ensures multiset(r) == multiset(s) + multiset{x}
  {
    if |s| == 0 then [x]
    else if Before(x, s[0]) then [x] + s
    else
      var rest := InsertByPosition(x, s[1..]);
      assert s == [s[0]] + s[1..];
      assert forall j | 0 <= j < |rest| :: Before(s[0], rest[j]) by {
        forall j | 0 <= j < |rest| ensures Before(s[0], rest[j]) {
          assert rest[j] in multiset(rest);
          if rest[j] != x {
            assert rest[j] in multiset(s[1..]);
            var k :| 0 <= k < |s[1..]| && s[1..][k] == rest[j];
            assert s[1..][k] == s[k + 1];
          }
        }
      }
      [s[0]] + rest
  }

  /** Sorts the visible items by visual position (an insertion sort). */
  function SortByPosition(s: seq<VisibleItem>): (r: seq<VisibleItem>)
    ensures SortedByPosition(r)
    ensures multiset(r) == multiset(s)
  {
    if |s| == 0 then []
    else
      assert s == [s[0]] + s[1..];
      InsertByPosition(s[0], SortByPosition(s[1..]))
  }

  /** The comparator handed to the sort: tops closer than the row threshold compare by left, others by
      top. A negative or zero value puts a first. */
  function Compare(a: VisibleItem, b: VisibleItem): real {
    var rowDiff := a.rect.top - b.rect.top;
    if Abs(rowDiff) < RowThreshold then a.rect.left - b.rect.left else rowDiff
  }

  /** Items whose tops are closer than the row threshold have the same top. */
  predicate AlignedTops(s: seq<VisibleItem>) {
    forall i, j | 0 <= i < |s| && 0 <= j < |s| :: Abs(s[i].rect.top - s[j].rect.top) < RowThreshold ==> s[i].rect.top == s[j].rect.top
  }

  /** When tops are aligned, the (top, left) order is one the comparator accepts: no later item
      compares before an earlier one. */
  lemma SortMatchesComparator(s: seq<VisibleItem>)
    requires AlignedTops(s)
    ensures var r := SortByPosition(s);
            forall i, j | 0 <= i < j < |r| :: Compare(r[i], r[j]) <= 0.0
  {
    var r := SortByPosition(s);
    forall i, j | 0 <= i < j < |r| ensures Compare(r[i], r[j]) <= 0.0 {
      assert r[i] in multiset(s) && r[j] in multiset(s);
      var a :| 0 <= a < |s| && s[a] == r[i];
      var b :| 0 <= b < |s| && s[b] == r[j];
      assert Before(r[i], r[j]);
    }
  }

  /** Tops 5 px apart are not aligned, and there the orders part: the model puts the higher item first,
      while the comparator puts the item further left first. */
  lemma SortDiffersOnNearTops()
    ensures var a := VisibleItem("a", 0, Rect(200.0, 0.0, 300.0, 100.0));
            var b := VisibleItem("b", 1, Rect(0.0, 5.0, 100.0, 105.0));
            SortByPosition([b, a]) == [a, b] && Compare(b, a) < 0.0 && !AlignedTops([b, a])
  {
    var a := VisibleItem("a", 0, Rect(200.0, 0.0, 300.0, 100.0));
    var b := VisibleItem("b", 1, Rect(0.0, 5.0, 100.0, 105.0));
    assert [b, a][1..] == [a];
    assert SortByPosition([a]) == [a] by { assert [a][1..] == []; }
    assert !Before(b, a);
    assert InsertByPosition(b, []) == [b];
    assert [a][1..] == [];
  }

  // ---------------------------------------------------------------------------
  // Row grouping
  // ---------------------------------------------------------------------------

  function Flatten(rows: seq<seq<VisibleItem>>): seq<VisibleItem> {
    if |rows| == 0 then [] else Flatten(rows[..|rows| - 1]) + rows[|rows| - 1]
  }

  predicate NonEmptyRows(rows: seq<seq<VisibleItem>>) {
    forall k | 0 <= k < |rows| :: |rows[k]| > 0
  }

  /** The rows of a sorted sequence: an item joins the current row when its top is within the
      row threshold of the top of the item just before it, and starts a new row otherwise. */
  function RowsOf(s: seq<VisibleItem>): (rows: seq<seq<VisibleItem>>)
    ensures |rows| > 0 <==> |s| > 0
    ensures NonEmptyRows(rows)
    ensures Flatten(rows) == s
    decreases |s|
  {
    if |s| == 0 then []
    else
      var init := s[..|s| - 1];
      var item := s[|s| - 1];
      var prev: seq<seq<VisibleItem>> := RowsOf(init);
      assert s == init + [item];
      if |init| == 0 then
        assert Flatten([[item]]) == Flatten([]) + [item];
        [[item]]
      else if Abs(item.rect.top - init[|init| - 1].rect.top) < RowThreshold then
        var n := |prev|;
        var rows := prev[..n - 1] + [prev[n - 1] + [item]];
        assert rows[..n - 1] == prev[..n - 1];
        assert prev == prev[..n - 1] + [prev[n - 1]];
        rows
      else
        var rows := prev + [[item]];
        assert rows[..|prev|] == prev;
        rows
  }

  /** `sortAndGroupByRow`: sorts the visible items, then groups them into rows in one scan. */
  method SortAndGroupByRow(visible: seq<VisibleItem>) returns (rows: seq<seq<VisibleItem>>)
    ensures rows == RowsOf(SortByPosition(visible))
  {
    var sorted := SortByPosition(visible);
    rows := GroupRows(sorted);
  }

  /** The grouping scan of `sortAndGroupByRow`, over the already sorted items. */
  method GroupRows(sorted: seq<VisibleItem>) returns (rows: seq<seq<VisibleItem>>)
    ensures rows == RowsOf(sorted)
  {
    rows := [];
    var currentRow: seq<VisibleItem> := [];
    var lastTop: Option<real> := None;  // None stands for -Infinity
    var i := 0;
    while i < |sorted|
      invariant 0 <= i <= |sorted|
      invariant Scanned(sorted, i, rows, currentRow, lastTop)
    {
      rows, currentRow, lastTop := GroupStep(sorted, i, rows, currentRow, lastTop);
      i := i + 1;
    }
    if |currentRow| > 0 {
      rows := rows + [currentRow];
    }
    assert sorted[..|sorted|] == sorted;
  }

  /** The scan state after the first i sorted items: the closed rows and the open one are the rows of
      that prefix, and the last top seen is the top of the item just before. */
  ghost predicate Scanned(sorted: seq<VisibleItem>, i: nat, rows: seq<seq<VisibleItem>>,
                          currentRow: seq<VisibleItem>, lastTop: Option<real>)
    requires i <= |sorted|
  {
    && (i == 0 ==> rows == [] && currentRow == [] && lastTop.None?)
    && (i > 0 ==> && |currentRow| > 0
                  && rows + [currentRow] == RowsOf(sorted[..i])
                  && lastTop == Some(sorted[i - 1].rect.top))
  }

  /** One item of the grouping scan: it joins the open row when that row is empty or its top is within the
      row threshold of the last top, and otherwise closes the open row and starts a new one. */
  method GroupStep(sorted: seq<VisibleItem>, i: nat, rows: seq<seq<VisibleItem>>, currentRow: seq<VisibleItem>,
                   lastTop: Option<real>) returns (rows': seq<seq<VisibleItem>>, currentRow': seq<VisibleItem>,
                                                   lastTop': Option<real>)
    requires i < |sorted| && Scanned(sorted, i, rows, currentRow, lastTop)
    ensures Scanned(sorted, i + 1, rows', currentRow', lastTop')
  {
    var item := sorted[i];
    if |currentRow| == 0 || (lastTop.Some? && Abs(item.rect.top - lastTop.value) < RowThreshold) {
      if i == 0 {
        GroupFirst(sorted);
        assert rows + [currentRow + [item]] == [[item]];
      } else {
        GroupJoin(sorted, i, rows, currentRow);
      }
      rows' := rows;
      currentRow' := currentRow + [item];
    } else {
      GroupNew(sorted, i, rows, currentRow);
      rows' := rows + [currentRow];
      currentRow' := [item];
    }
    lastTop' := Some(item.rect.top);
  }

  lemma GroupFirst(s: seq<VisibleItem>)
    requires 0 < |s|
    ensures RowsOf(s[..1]) == [[s[0]]]
  {
    assert s[..1][..0] == [];
  }

  /** An item within the row threshold of the one before it extends the last row. */
  lemma GroupJoin(s: seq<VisibleItem>, i: nat, rows: seq<seq<VisibleItem>>, currentRow: seq<VisibleItem>)
    requires 0 < i < |s| && rows + [currentRow] == RowsOf(s[..i])
    requires Abs(s[i].rect.top - s[i - 1].rect.top) < RowThreshold
    ensures rows + [currentRow + [s[i]]] == RowsOf(s[..i + 1])
  {
    var t := s[..i + 1];
    var prev := rows + [currentRow];
    var n := |prev|;
    assert t[..|t| - 1] == s[..i] && t[|t| - 1] == s[i];
    assert s[..i][i - 1] == s[i - 1];
    assert prev[..n - 1] == rows && prev[n - 1] == currentRow;
    assert RowsOf(t) == prev[..n - 1] + [prev[n - 1] + [s[i]]];
  }

  /** An item farther from the one before it than the row threshold opens a new row. */
  lemma GroupNew(s: seq<VisibleItem>, i: nat, rows: seq<seq<VisibleItem>>, currentRow: seq<VisibleItem>)
    requires 0 < i < |s| && rows + [currentRow] == RowsOf(s[..i])
    requires !(Abs(s[i].rect.top - s[i - 1].rect.top) < RowThreshold)
    ensures rows + [currentRow] + [[s[i]]] == RowsOf(s[..i + 1])
  {
    var t := s[..i + 1];
    assert t[..i] == s[..i];
    assert t[i] == s[i] && s[..i][i - 1] == s[i - 1];
  }

  lemma {:induction false} InFlatten(rows: seq<seq<VisibleItem>>, k: nat, j: nat)
    requires k < |rows| && j < |rows[k]|
    ensures rows[k][j] in Flatten(rows)
  {
    var n := |rows|;
    if k < n - 1 {
      InFlatten(rows[..n - 1], k, j);
    } else {
      assert Flatten(rows)[|Flatten(rows[..n - 1])| + j] == rows[k][j];
    }
  }

  /** Within a row, every item has a top within the threshold of the item before it. */
  ghost predicate RowsChained(rows: seq<seq<VisibleItem>>) {
    forall k, j | 0 <= k < |rows| && 0 < j < |rows[k]| ::
      Abs(rows[k][j].rect.top - rows[k][j - 1].rect.top) < RowThreshold
  }

  /** Every row after the first starts with an item whose top is at least the threshold away
      from the top of the last item of the row before. */
  ghost predicate RowsSeparated(rows: seq<seq<VisibleItem>>)
    requires NonEmptyRows(rows)
  {
    forall k | 0 < k < |rows| ::
      Abs(rows[k][0].rect.top - rows[k - 1][|rows[k - 1]| - 1].rect.top) >= RowThreshold
  }

  lemma ChainedJoin(prev: seq<seq<VisibleItem>>, item: VisibleItem)
    requires 0 < |prev| && 0 < |prev[|prev| - 1]| && RowsChained(prev)
    requires var last := prev[|prev| - 1]; Abs(item.rect.top - last[|last| - 1].rect.top) < RowThreshold
    ensures RowsChained(prev[..|prev| - 1] + [prev[|prev| - 1] + [item]])
  {
    var n := |prev|;
    var last := prev[n - 1];
    var rows: seq<seq<VisibleItem>> := prev[..n - 1] + [last + [item]];
    forall k: int, j: int | 0 <= k < |rows| && 0 < j < |rows[k]|
      ensures Abs(rows[k][j].rect.top - rows[k][j - 1].rect.top) < RowThreshold
    {
      if k < n - 1 {
        assert rows[k] == prev[k];
      } else if j < |last| {
        assert rows[k][j] == last[j] && rows[k][j - 1] == last[j - 1];
      }
    }
  }

  lemma ChainedNew(prev: seq<seq<VisibleItem>>, item: VisibleItem)
    requires RowsChained(prev)
    ensures RowsChained(prev + [[item]])
  {
    var rows: seq<seq<VisibleItem>> := prev + [[item]];
    forall k: int, j: int | 0 <= k < |rows| && 0 < j < |rows[k]|
      ensures Abs(rows[k][j].rect.top - rows[k][j - 1].rect.top) < RowThreshold
    {
      assert rows[k] == prev[k];
    }
  }

  lemma SeparatedJoin(prev: seq<seq<VisibleItem>>, item: VisibleItem)
    requires 0 < |prev| && NonEmptyRows(prev) && RowsSeparated(prev)
    ensures NonEmptyRows(prev[..|prev| - 1] + [prev[|prev| - 1] + [item]])
    ensures RowsSeparated(prev[..|prev| - 1] + [prev[|prev| - 1] + [item]])
  {
    var n := |prev|;
    var rows := prev[..n - 1] + [prev[n - 1] + [item]];
    assert forall k | 0 <= k < n - 1 :: rows[k] == prev[k];
    assert rows[n - 1][0] == prev[n - 1][0];
  }

  lemma SeparatedNew(prev: seq<seq<VisibleItem>>, item: VisibleItem)
    requires NonEmptyRows(prev) && RowsSeparated(prev)
    requires 0 < |prev| ==>
      var last := prev[|prev| - 1]; Abs(item.rect.top - last[|last| - 1].rect.top) >= RowThreshold
    ensures NonEmptyRows(prev + [[item]]) && RowsSeparated(prev + [[item]])
  {
    var rows: seq<seq<VisibleItem>> := prev + [[item]];
    assert forall k | 0 <= k < |prev| :: rows[k] == prev[k];
  }

  /** Row grouping in its own terms: items within a row are chained by the threshold, rows are
      separated by it. */
  lemma {:induction false} RowsOfShape(s: seq<VisibleItem>)
    ensures RowsChained(RowsOf(s)) && RowsSeparated(RowsOf(s))
    decreases |s|
  {
    if |s| > 1 {
      var init := s[..|s| - 1];
      var item := s[|s| - 1];
      var prev: seq<seq<VisibleItem>> := RowsOf(init);
      RowsOfShape(init);
      LastOfRows(init);
      if Abs(item.rect.top - init[|init| - 1].rect.top) < RowThreshold {
        ChainedJoin(prev, item);
        SeparatedJoin(prev, item);
      } else {
        ChainedNew(prev, item);
        SeparatedNew(prev, item);
      }
    }
  }

  /** The last item of the last row is the last item of the input. */
  lemma {:induction false} LastOfRows(s: seq<VisibleItem>)
    requires |s| > 0
    ensures var rows := RowsOf(s); rows[|rows| - 1][|rows[|rows| - 1]| - 1] == s[|s| - 1]
  {
  }

  function RowTop(rows: seq<seq<VisibleItem>>, k: nat): real
    requires NonEmptyRows(rows) && k < |rows|
  {
    rows[k][0].rect.top
  }

  predicate TopsAscend(rows: seq<seq<VisibleItem>>)
    requires NonEmptyRows(rows)
  {
    forall k | 0 <= k < |rows| - 1 :: RowTop(rows, k) <= RowTop(rows, k + 1)
  }

  lemma AscendJoin(prev: seq<seq<VisibleItem>>, item: VisibleItem)
    requires 0 < |prev| && NonEmptyRows(prev) && TopsAscend(prev)
    ensures NonEmptyRows(prev[..|prev| - 1] + [prev[|prev| - 1] + [item]])
    ensures TopsAscend(prev[..|prev| - 1] + [prev[|prev| - 1] + [item]])
  {
    var n := |prev|;
    var rows: seq<seq<VisibleItem>> := prev[..n - 1] + [prev[n - 1] + [item]];
    assert forall k | 0 <= k < n - 1 :: rows[k] == prev[k];
    assert rows[n - 1][0] == prev[n - 1][0];
    assert forall k | 0 <= k < n :: RowTop(rows, k) == RowTop(prev, k);
  }

  lemma AscendNew(prev: seq<seq<VisibleItem>>, item: VisibleItem)
    requires NonEmptyRows(prev) && TopsAscend(prev)
    requires 0 < |prev| ==> RowTop(prev, |prev| - 1) <= item.rect.top
    ensures NonEmptyRows(prev + [[item]]) && TopsAscend(prev + [[item]])
  {
    var rows: seq<seq<VisibleItem>> := prev + [[item]];
    assert forall k | 0 <= k < |prev| :: rows[k] == prev[k];
    assert forall k | 0 <= k < |prev| :: RowTop(rows, k) == RowTop(prev, k);
    assert RowTop(rows, |prev|) == item.rect.top;
  }

  /** For sorted input the rows are stacked top to bottom: their first tops never decrease. */
  lemma {:induction false} RowTopsAscend(s: seq<VisibleItem>)
    requires SortedByPosition(s)
    ensures TopsAscend(RowsOf(s))
    decreases |s|
  {
    if |s| > 1 {
      var init := s[..|s| - 1];
      var item := s[|s| - 1];
      assert SortedByPosition(init);
      RowTopsAscend(init);
      var prev: seq<seq<VisibleItem>> := RowsOf(init);
      if Abs(item.rect.top - init[|init| - 1].rect.top) < RowThreshold {
        AscendJoin(prev, item);
      } else {
        InFlatten(prev, |prev| - 1, 0);
        var first := prev[|prev| - 1][0];
        assert first in init;
        var i :| 0 <= i < |init| && init[i] == first;
        assert Before(s[i], s[|s| - 1]);
        AscendNew(prev, item);
      }
    }
  }

  // ---------------------------------------------------------------------------
  // Gaps within a row
  // ---------------------------------------------------------------------------

  /** Left end of gap i (before item i); None stands for -Infinity. */
  function GapLow(row: seq<VisibleItem>, i: nat): Option<real>
    requires 0 < |row| && i <= |row|
  {
    if i == 0 then None else Some(row[i - 1].rect.right - EdgeThreshold(Width(row[i - 1].rect)))
  }

  /** Right end of gap i; None stands for +Infinity. */
  function GapHigh(row: seq<VisibleItem>, i: nat): Option<real>
    requires 0 < |row| && i <= |row|
  {
    if i == |row| then None else Some(row[i].rect.left + EdgeThreshold(Width(row[i].rect)))
  }

  predicate InGap(row: seq<VisibleItem>, i: nat, x: real)
    requires 0 < |row| && i <= |row|
  {
    (GapLow(row, i).None? || x >= GapLow(row, i).value) && (GapHigh(row, i).None? || x < GapHigh(row, i).value)
  }

  /** The insertion index a gap stands for: the index of the item after it, or one past the last. */
  function GapIndex(row: seq<VisibleItem>, i: nat): int
    requires 0 < |row| && i <= |row|
  {
    if i < |row| then row[i].index else row[i - 1].index + 1
  }

  /** The first gap, from gap i on, that holds x. */
  function ScanGaps(row: seq<VisibleItem>, x: real, i: nat): Option<int>
    requires 0 < |row| && i <= |row| + 1
    decreases |row| + 1 - i
  {
    if i == |row| + 1 then None
    else if InGap(row, i, x) then Some(GapIndex(row, i))
    else ScanGaps(row, x, i + 1)
  }

  function DropIndexInRow(row: seq<VisibleItem>, x: real): Option<int>
    requires 0 < |row|
  {
    ScanGaps(row, x, 0)
  }

  /** `findDropIndexInRow`: scans the gaps left to right and returns at the first that holds x. */
  method FindDropIndexInRow(row: seq<VisibleItem>, x: real) returns (r: Option<int>)
    requires 0 < |row|
    ensures r == DropIndexInRow(row, x)
  {
    var i := 0;
    while i <= |row|
      invariant 0 <= i <= |row| + 1
      invariant ScanGaps(row, x, i) == DropIndexInRow(row, x)
    {
      var gapLeft: Option<real>;
      var gapRight: Option<real>;
      if i == 0 {
        gapLeft := None;
        gapRight := Some(row[i].rect.left + EdgeThreshold(Width(row[i].rect)));
      } else if i == |row| {
        gapLeft := Some(row[i - 1].rect.right - EdgeThreshold(Width(row[i - 1].rect)));
        gapRight := None;
      } else {
        gapLeft := Some(row[i - 1].rect.right - EdgeThreshold(Width(row[i - 1].rect)));
        gapRight := Some(row[i].rect.left + EdgeThreshold(Width(row[i].rect)));
      }
      if (gapLeft.None? || x >= gapLeft.value) && (gapRight.None? || x < gapRight.value) {
        return Some(if i < |row| then row[i].index else row[i - 1].index + 1);
      }
      i := i + 1;
    }
    return None;
  }

  /** The first gap that holds x decides the result. */
  lemma {:induction false} ScanGapsFirstMatch(row: seq<VisibleItem>, x: real, i: nat, j: nat)
    requires 0 < |row| && i <= j <= |row|
    requires InGap(row, j, x)
    requires forall k | i <= k < j :: !InGap(row, k, x)
    ensures ScanGaps(row, x, i) == Some(GapIndex(row, j))
    decreases j - i
  {
    if i < j {
      ScanGapsFirstMatch(row, x, i + 1, j);
    }
  }

  /** "No change" exactly when x lies in no gap at all. */
  lemma {:induction false} ScanGapsNone(row: seq<VisibleItem>, x: real, i: nat)
    requires 0 < |row| && i <= |row| + 1
    ensures ScanGaps(row, x, i).None? <==> forall k | i <= k <= |row| :: !InGap(row, k, x)
    decreases |row| + 1 - i
  {
    if i <= |row| {
      ScanGapsNone(row, x, i + 1);
    }
  }

  lemma DropIndexInRowFirstMatch(row: seq<VisibleItem>, x: real, j: nat)
    requires 0 < |row| && j <= |row|
    requires InGap(row, j, x)
    requires forall k | 0 <= k < j :: !InGap(row, k, x)
    ensures DropIndexInRow(row, x) == Some(GapIndex(row, j))
  {
    ScanGapsFirstMatch(row, x, 0, j);
  }

  lemma DropIndexInRowNone(row: seq<VisibleItem>, x: real)
    requires 0 < |row|
    ensures DropIndexInRow(row, x).None? <==> forall k | 0 <= k <= |row| :: !InGap(row, k, x)
  {
    ScanGapsNone(row, x, 0);
  }

  /** A pointer inside the left band of the first item inserts before it. */
  lemma DropIndexInRowLeftEdge(row: seq<VisibleItem>, x: real)
    requires 0 < |row|
    requires x < row[0].rect.left + EdgeThreshold(Width(row[0].rect))
    ensures DropIndexInRow(row, x) == Some(row[0].index)
  {
    DropIndexInRowFirstMatch(row, x, 0);
  }

  /** A pointer inside the right band of the last item, when no earlier gap holds it, appends. */
  lemma DropIndexInRowRightEdge(row: seq<VisibleItem>, x: real)
    requires 0 < |row|
    requires x >= row[|row| - 1].rect.right - EdgeThreshold(Width(row[|row| - 1].rect))
    requires forall k | 0 <= k < |row| :: !InGap(row, k, x)
    ensures DropIndexInRow(row, x) == Some(row[|row| - 1].index + 1)
  {
    DropIndexInRowFirstMatch(row, x, |row|);
  }

  /** Three 100-wide items side by side at 0, 100 and 200: x = 95 lies in the gap before the
      second item and gives its index; x = 50 lies in the body of the first and gives no change. */
  lemma ThreeItemRow()
    ensures var row := [VisibleItem("a", 0, Rect(0.0, 0.0, 100.0, 50.0)),
                        VisibleItem("b", 1, Rect(100.0, 0.0, 200.0, 50.0)),
                        VisibleItem("c", 2, Rect(200.0, 0.0, 300.0, 50.0))];
      DropIndexInRow(row, 95.0) == Some(1) && DropIndexInRow(row, 50.0) == None
  {
    var row := [VisibleItem("a", 0, Rect(0.0, 0.0, 100.0, 50.0)),
                VisibleItem("b", 1, Rect(100.0, 0.0, 200.0, 50.0)),
                VisibleItem("c", 2, Rect(200.0, 0.0, 300.0, 50.0))];
    assert EdgeThreshold(100.0) == 40.0;
    assert !InGap(row, 0, 95.0) && InGap(row, 1, 95.0);
    DropIndexInRowFirstMatch(row, 95.0, 1);
    DropIndexInRowNone(row, 50.0);
  }

  // ---------------------------------------------------------------------------
  // Choosing the row and the index
  // ---------------------------------------------------------------------------

  /** The top of the next row; None stands for +Infinity below the last row. */
  function RowBottom(rows: seq<seq<VisibleItem>>, k: nat): Option<real>
    requires NonEmptyRows(rows) && k < |rows|
  {
    if k + 1 < |rows| then Some(rows[k + 1][0].rect.top) else None
  }

  /** What row k answers once the scan stops there. */
  function RowAnswer(rows: seq<seq<VisibleItem>>, k: nat, p: Position): Option<int>
    requires NonEmptyRows(rows) && k < |rows|
  {
    if p.y < RowTop(rows, k) then Some(rows[k][0].index) else DropIndexInRow(rows[k], p.x)
  }

  /** The scan over rows from row k on: above a row inserts before its first item; within a row
      asks the row; below every row appends after the last item. */
  function ResolveRows(rows: seq<seq<VisibleItem>>, p: Position, k: nat): Option<int>
    requires 0 < |rows| && NonEmptyRows(rows) && k <= |rows|
    decreases |rows| - k
  {
    if k == |rows| then
      var last := rows[|rows| - 1];
      Some(last[|last| - 1].index + 1)
    else if p.y < RowTop(rows, k) then Some(rows[k][0].index)
    else if p.y >= RowTop(rows, k) && (RowBottom(rows, k).None? || p.y < RowBottom(rows, k).value) then
      DropIndexInRow(rows[k], p.x)
    else ResolveRows(rows, p, k + 1)
  }

  /** `calculateDropIndex` on a given registry and item list. */
  function DropIndex(items: seq<Item>, elements: OrderedMap<string, Element>, excluded: set<string>,
                     layout: Layout, p: Position): Option<int>
    requires Valid(elements)
  {
    var visible := Visible(elements.keys, elements.values, items, excluded, layout);
    if |visible| == 0 then Some(0) else ResolveRows(RowsOf(SortByPosition(visible)), p, 0)
  }

  /** The row loop of `calculateDropIndex` over the sorted, grouped rows. */
  method ScanRows(rows: seq<seq<VisibleItem>>, p: Position) returns (r: Option<int>)
    requires 0 < |rows| && NonEmptyRows(rows)
    ensures r == ResolveRows(rows, p, 0)
  {
    var k := 0;
    while k < |rows|
      invariant 0 <= k <= |rows|
      invariant ResolveRows(rows, p, k) == ResolveRows(rows, p, 0)
    {
      var row := rows[k];
      var first := row[0];
      var rowTop := first.rect.top;
      var rowBottom: Option<real> := if k + 1 < |rows| then Some(rows[k + 1][0].rect.top) else None;
      if p.y < rowTop {
        return Some(first.index);
      }
      if p.y >= rowTop && (rowBottom.None? || p.y < rowBottom.value) {
        r := FindDropIndexInRow(row, p.x);
        return;
      }
      ResolveRowsSkip(rows, p, k);
      k := k + 1;
    }
    var lastRow := rows[|rows| - 1];
    return Some(lastRow[|lastRow| - 1].index + 1);
  }

  /** `calculateDropIndex`: collects, sorts and groups the visible items, then scans the rows. */
  method CalculateDropIndex(items: seq<Item>, elements: OrderedMap<string, Element>, excluded: set<string>,
                            layout: Layout, p: Position) returns (r: Option<int>)
    requires Valid(elements)
    ensures r == DropIndex(items, elements, excluded, layout, p)
  {
    var visible := CollectVisibleItems(elements, items, excluded, layout);
    if |visible| == 0 {
      return Some(0);
    }
    var rows := SortAndGroupByRow(visible);
    DropIndexByRows(items, elements, excluded, layout, p, rows);
    r := ScanRows(rows, p);
  }

  lemma DropIndexByRows(items: seq<Item>, elements: OrderedMap<string, Element>, excluded: set<string>,
                        layout: Layout, p: Position, rows: seq<seq<VisibleItem>>)
    requires Valid(elements)
    requires |Visible(elements.keys, elements.values, items, excluded, layout)| > 0
    requires rows == RowsOf(SortByPosition(Visible(elements.keys, elements.values, items, excluded, layout)))
    ensures 0 < |rows| && NonEmptyRows(rows)
    ensures DropIndex(items, elements, excluded, layout, p) == ResolveRows(rows, p, 0)
  {
  }

  /** A row that neither lies below the pointer nor holds it passes the scan on. */
  lemma ResolveRowsSkip(rows: seq<seq<VisibleItem>>, p: Position, k: nat)
    requires 0 < |rows| && NonEmptyRows(rows) && k < |rows|
    requires p.y >= RowTop(rows, k) && RowBottom(rows, k).Some? && p.y >= RowBottom(rows, k).value
    ensures ResolveRows(rows, p, k) == ResolveRows(rows, p, k + 1)
  {
  }

  // ---------------------------------------------------------------------------
  // Properties of the resolver
  // ---------------------------------------------------------------------------

  /** The scan over rows always stops at some row: the end-of-list fallback is never reached,
      because the last row reaches down to +Infinity. */
  lemma {:induction false} ResolveRowsStopsAtARow(rows: seq<seq<VisibleItem>>, p: Position, k: nat)
    requires 0 < |rows| && NonEmptyRows(rows) && k < |rows|
    ensures exists j | k <= j < |rows| :: ResolveRows(rows, p, k) == RowAnswer(rows, j, p)
    decreases |rows| - k
  {
    if p.y < RowTop(rows, k) || RowBottom(rows, k).None? || p.y < RowBottom(rows, k).value {
      assert ResolveRows(rows, p, k) == RowAnswer(rows, k, p);
    } else {
      ResolveRowsStopsAtARow(rows, p, k + 1);
    }
  }

  /** With rows stacked top to bottom, a pointer at or below the top of the last row is resolved
      inside the last row. */
  lemma {:induction false} BelowLastRowTop(rows: seq<seq<VisibleItem>>, p: Position, k: nat)
    requires 0 < |rows| && NonEmptyRows(rows) && k < |rows|
    requires TopsAscend(rows)
    requires p.y >= RowTop(rows, |rows| - 1)
    ensures ResolveRows(rows, p, k) == DropIndexInRow(rows[|rows| - 1], p.x)
    decreases |rows| - k
  {
    if k < |rows| - 1 {
      TopsAscendFrom(rows, k + 1, |rows| - 1);
      TopsAscendFrom(rows, k, |rows| - 1);
      BelowLastRowTop(rows, p, k + 1);
    }
  }

  lemma {:induction false} TopsAscendFrom(rows: seq<seq<VisibleItem>>, i: nat, j: nat)
    requires 0 < |rows| && NonEmptyRows(rows) && i <= j < |rows|
    requires TopsAscend(rows)
    ensures RowTop(rows, i) <= RowTop(rows, j)
    decreases j - i
  {
    if i < j {
      TopsAscendFrom(rows, i + 1, j);
    }
  }

  /** The end-to-end form: a pointer at or below the top of the last row of the visible items is
      resolved by that row's gap scan. */
  lemma DropIndexBelowLastRow(items: seq<Item>, elements: OrderedMap<string, Element>, excluded: set<string>,
                              layout: Layout, p: Position)
    requires Valid(elements)
    requires var visible := Visible(elements.keys, elements.values, items, excluded, layout);
      |visible| > 0 && var rows := RowsOf(SortByPosition(visible)); p.y >= RowTop(rows, |rows| - 1)
    ensures var rows := RowsOf(SortByPosition(Visible(elements.keys, elements.values, items, excluded, layout)));
      DropIndex(items, elements, excluded, layout, p) == DropIndexInRow(rows[|rows| - 1], p.x)
  {
    var visible := Visible(elements.keys, elements.values, items, excluded, layout);
    RowTopsAscend(SortByPosition(visible));
    BelowLastRowTop(RowsOf(SortByPosition(visible)), p, 0);
  }

  /** When no registered element is both visible and known, the only answer is index 0. */
  lemma {:induction false} NothingVisible(keys: seq<string>, elements: map<string, Element>, items: seq<Item>,
                                          excluded: set<string>, layout: Layout)
    requires forall i | 0 <= i < |keys| :: keys[i] in excluded || !ContainsId(items, keys[i])
    ensures Visible(keys, elements, items, excluded, layout) == []
  {
    if |keys| > 0 {
      NothingVisible(keys[1..], elements, items, excluded, layout);
    }
  }

  lemma DropIndexNothingVisible(items: seq<Item>, elements: OrderedMap<string, Element>, excluded: set<string>,
                                layout: Layout, p: Position)
    requires Valid(elements)
    requires forall i | 0 <= i < |elements.keys| :: elements.keys[i] in excluded || !ContainsId(items, elements.keys[i])
    ensures DropIndex(items, elements, excluded, layout, p) == Some(0)
  {
    NothingVisible(elements.keys, elements.values, items, excluded, layout);
  }

  /** Unregistering the element of an excluded or unknown id never changes the result. */
  lemma DropIndexIgnoresExcluded(items: seq<Item>, elements: OrderedMap<string, Element>, excluded: set<string>,
                                 layout: Layout, p: Position, id: string)
    requires Valid(elements)
    requires id in excluded || !ContainsId(items, id)
    ensures DropIndex(items, Delete(elements, id), excluded, layout, p) == DropIndex(items, elements, excluded, layout, p)
  {
    if id in elements.values {
      VisibleWithout(elements.keys, elements.values, items, excluded, layout, id);
    }
  }

  predicate IndicesBelow(s: seq<VisibleItem>, n: int) {
    forall j | 0 <= j < |s| :: s[j].index < n
  }

  lemma {:induction false} ScanGapsRange(row: seq<VisibleItem>, x: real, i: nat, n: int)
    requires 0 < |row| && i <= |row| + 1 && IndicesBelow(row, n)
    ensures ScanGaps(row, x, i).Some? ==> 0 <= ScanGaps(row, x, i).value <= n
    decreases |row| + 1 - i
  {
    if i <= |row| && !InGap(row, i, x) {
      ScanGapsRange(row, x, i + 1, n);
    }
  }

  lemma {:induction false} ResolveRowsRange(rows: seq<seq<VisibleItem>>, p: Position, k: nat, n: int)
    requires 0 < |rows| && NonEmptyRows(rows) && k <= |rows|
    requires forall m | 0 <= m < |rows| :: IndicesBelow(rows[m], n)
    ensures ResolveRows(rows, p, k).Some? ==> 0 <= ResolveRows(rows, p, k).value <= n
    decreases |rows| - k
  {
    if k < |rows| {
      ScanGapsRange(rows[k], p.x, 0, n);
      ResolveRowsRange(rows, p, k + 1, n);
    }
  }

  /** A resolved index is always a valid insertion position of the item list. */
  lemma DropIndexInRange(items: seq<Item>, elements: OrderedMap<string, Element>, excluded: set<string>,
                         layout: Layout, p: Position)
    requires Valid(elements)
    ensures var r := DropIndex(items, elements, excluded, layout, p); r.Some? ==> 0 <= r.value <= |items|
  {
    var visible := Visible(elements.keys, elements.values, items, excluded, layout);
    if |visible| > 0 {
      var sorted := SortByPosition(visible);
      var rows := RowsOf(sorted);
      forall m | 0 <= m < |rows| ensures IndicesBelow(rows[m], |items|) {
        forall j | 0 <= j < |rows[m]| ensures rows[m][j].index < |items| {
          InFlatten(rows, m, j);
          assert rows[m][j] in multiset(visible);
        }
      }
      ResolveRowsRange(rows, p, 0, |items|);
    }
  }
}
