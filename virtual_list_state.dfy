/**
 * `VirtualListState` (src/utils/virtualListState.js): a prefix-sum index over
 * per-row heights that maps pixel offsets to row indices for a windowed list,
 * plus a table of heights and start offsets for group-header rows.
 */
module VirtualList {
  import opened Wrappers
  import opened PrefixSums

  /** The value `getGroupHeight` returns for a group-header index. */
  datatype GroupHeight = GroupHeight(height: nat, from: nat)

  /** The result of `findVisibleIndex`; `None` stands for JavaScript's `undefined`. */
  datatype VisibleIndex = VisibleIndex(from: Option<nat>, to: Option<nat>, fromPosition: nat, toPosition: Option<nat>)

  /** The result of `findOverScanIndex`; `to` is -1 for an empty list. */
  datatype OverScanIndex = OverScanIndex(from: nat, to: int, fromPosition: nat, toPosition: Option<nat>)

  // ---------------------------------------------------------------------
  // `_.find(list, sum => sum >= p)`, a left-to-right scan

  /** The position of the first element that is at least `p`, or `|s|` when there is none. */
  function FirstAtLeast(s: seq<nat>, p: int): (k: nat)
    ensures k <= |s|
    ensures forall j :: 0 <= j < k ==> s[j] < p
    ensures k < |s| ==> s[k] >= p
  {
    if s == [] then 0
    else if s[0] >= p then 0
    else 1 + FirstAtLeast(s[1..], p)
  }

  function Find(s: seq<nat>, p: int): (r: Option<nat>)
    ensures r.Some? ==> r.value in s && r.value >= p
    ensures r.None? ==> forall k :: 0 <= k < |s| ==> s[k] < p
  {
    var k := FirstAtLeast(s, p);
    if k < |s| then Some(s[k]) else None
  }

  /** The key `_.find` returns is the first one at or past `p`: every earlier key lies before it. */
  lemma FindIsFirst(s: seq<nat>, p: int)
    ensures Find(s, p).Some? ==>
      exists k :: 0 <= k < |s| && s[k] == Find(s, p).value && forall j :: 0 <= j < k ==> s[j] < p
  {
    var k := FirstAtLeast(s, p);
  }

  /** `Map.prototype.get`, including `get(undefined)`. */
  function Get(m: map<nat, nat>, key: Option<nat>): (r: Option<nat>)
    ensures r.Some? <==> key.Some? && key.value in m
    ensures r.Some? ==> r.value == m[key.value]
  {
    match key
    case Some(x) => if x in m then Some(m[x]) else None
    case None => None
  }

  // ---------------------------------------------------------------------
  // The loop of `_setGroupIndices`, as functions of the indices seen so far

  function LastIndex(gs: seq<nat>): nat
  {
    if gs == [] then 0 else gs[|gs| - 1]
  }

  /**
   * A table written one index at a time: index `gs[i]` gets `entry(gs[..i], gs[i])`,
   * the entry computed from the indices seen before it, and a repeated index is
   * overwritten by its later entry.
   */
  function Written<V>(gs: seq<nat>, entry: (seq<nat>, nat) -> V): (r: map<nat, V>)
    ensures gs != [] ==> gs[|gs| - 1] in r
  {
    if gs == [] then map[]
    else
      var init := gs[..|gs| - 1];
      Written(init, entry)[gs[|gs| - 1] := entry(init, gs[|gs| - 1])]
  }

  /** Exactly the written indices are keys. */
  lemma {:induction false} WrittenKeys<V>(gs: seq<nat>, entry: (seq<nat>, nat) -> V)
    ensures forall g :: g in Written(gs, entry) <==> g in gs
  {
    if gs != [] {
      var init := gs[..|gs| - 1];
      WrittenKeys(init, entry);
      assert gs == init + [gs[|gs| - 1]];
    }
  }

  /**
   * An index that no later index repeats keeps the entry written for it: no
   * later write touches its key.
   */
  lemma {:induction false} WrittenKeeps<V>(gs: seq<nat>, entry: (seq<nat>, nat) -> V, k: nat)
    requires k < |gs|
    requires forall j :: k < j < |gs| ==> gs[j] != gs[k]
    ensures gs[k] in Written(gs, entry) && Written(gs, entry)[gs[k]] == entry(gs[..k], gs[k])
  {
    var init := gs[..|gs| - 1];
    if k + 1 < |gs| {
      WrittenKeeps(init, entry, k);
      assert init[..k] == gs[..k] && init[k] == gs[k];
    }
  }

  /** The height the loop computes for `index` after the indices `seen`. */
  function GroupHeightAfter(hs: seq<nat>, seen: seq<nat>, index: nat): nat
  {
    Sum(Slice(hs, LastIndex(seen), index))
  }

  /** `sumOfHeights` after the loop has visited every index of `gs`. */
  function SumOfGroupHeights(hs: seq<nat>, gs: seq<nat>): nat
  {
    if gs == [] then 0
    else
      var init := gs[..|gs| - 1];
      SumOfGroupHeights(hs, init) + GroupHeightAfter(hs, init, gs[|gs| - 1])
  }

  /** The entry the loop writes for `index` after the indices `seen`. */
  function GroupEntries(hs: seq<nat>): (seq<nat>, nat) -> GroupHeight
  {
    (seen: seq<nat>, index: nat) => GroupHeight(GroupHeightAfter(hs, seen, index), SumOfGroupHeights(hs, seen))
  }

  /** `groupHeights` after the loop has visited every index of `gs`; a repeated index is overwritten. */
  function GroupTable(hs: seq<nat>, gs: seq<nat>): (r: map<nat, GroupHeight>)
    ensures gs != [] ==> gs[|gs| - 1] in r
  {
    Written(gs, GroupEntries(hs))
  }

  /** Exactly the given indices get an entry. */
  lemma GroupTableKeys(hs: seq<nat>, gs: seq<nat>)
    ensures forall g :: g in GroupTable(hs, gs) <==> g in gs
  {
    WrittenKeys(gs, GroupEntries(hs));
  }

  ghost predicate NonDecreasing(gs: seq<nat>)
  {
    forall i, j :: 0 <= i <= j < |gs| ==> gs[i] <= gs[j]
  }

  /**
   * For ascending indices the groups tile the list: the running sum of group
   * heights is the start offset of the last group index (clamped to the length).
   */
  lemma {:induction false} GroupsTile(hs: seq<nat>, gs: seq<nat>)
    requires NonDecreasing(gs)
    ensures SumOfGroupHeights(hs, gs) == Prefix(hs, Min(LastIndex(gs), |hs|))
  {
    if gs == [] {
      assert hs[..0] == [];
    } else {
      var init := gs[..|gs| - 1];
      assert NonDecreasing(init);
      GroupsTile(hs, init);
      assert LastIndex(init) <= gs[|gs| - 1];
      SliceSum(hs, LastIndex(init), gs[|gs| - 1]);
    }
  }

  /** The group index before position `k` of `gs`, 0 for the first. */
  function PreviousIndex(gs: seq<nat>, k: nat): nat
    requires k < |gs|
  {
    if k == 0 then 0 else gs[k - 1]
  }

  /** A prefix of strictly ascending indices is strictly ascending. */
  lemma TakeIncreasing(gs: seq<nat>, m: nat)
    requires StrictlyIncreasing(gs) && m <= |gs|
    ensures StrictlyIncreasing(gs[..m]) && NonDecreasing(gs[..m])
  {
  }

  /**
   * For strictly ascending indices, the entry of the k-th index covers the rows
   * from the previous index (inclusive) up to its own index (exclusive), and
   * starts where those rows start: `from + height` is the start of its own row.
   */
  lemma GroupTableEntry(hs: seq<nat>, gs: seq<nat>, k: nat)
    requires StrictlyIncreasing(gs)
    requires k < |gs|
    ensures gs[k] in GroupTable(hs, gs)
    ensures var prev, cur := Prefix(hs, Min(PreviousIndex(gs, k), |hs|)), Prefix(hs, Min(gs[k], |hs|));
      prev <= cur && GroupTable(hs, gs)[gs[k]] == GroupHeight(cur - prev, prev)
  {
    // the entry is the one written when the loop reached index k
    var seen := gs[..k];
    WrittenKeeps(gs, GroupEntries(hs), k);
    TakeIncreasing(gs, k);
    assert LastIndex(seen) == PreviousIndex(gs, k) by {
      if k > 0 {
        assert seen[k - 1] == gs[k - 1];
      }
    }
    GroupsTile(hs, seen);
    SliceSum(hs, PreviousIndex(gs, k), gs[k]);
  }

  /** Consecutive groups leave no gap: each one starts where the previous one ends. */
  lemma GroupsAdjacent(hs: seq<nat>, gs: seq<nat>, k: nat)
    requires StrictlyIncreasing(gs)
    requires k + 1 < |gs|
    ensures gs[k] in GroupTable(hs, gs) && gs[k + 1] in GroupTable(hs, gs)
    ensures GroupTable(hs, gs)[gs[k + 1]].from
         == GroupTable(hs, gs)[gs[k]].from + GroupTable(hs, gs)[gs[k]].height
  {
    GroupTableEntry(hs, gs, k);
    GroupTableEntry(hs, gs, k + 1);
  }

  /** Later keys of the `Map` belong to later rows. */
  lemma LookupOrdered(hs: seq<nat>, a: nat, b: nat)
    requires a <= b < |Ends(hs)|
    ensures Ends(hs)[a] in RowOf(hs) && Ends(hs)[b] in RowOf(hs)
    ensures RowOf(hs)[Ends(hs)[a]] <= RowOf(hs)[Ends(hs)[b]]
  {
    var ea, eb := Ends(hs)[a], Ends(hs)[b];
    assert ea in RowOf(hs) && eb in RowOf(hs) && (a < b ==> ea < eb) by {
      EndsShape(hs);
      assert ea in Ends(hs) && eb in Ends(hs);
    }
    if ea != eb {
      var ra, rb := RowOf(hs)[ea], RowOf(hs)[eb];
      assert ra < |hs| && rb < |hs| && End(hs, ra) == ea && End(hs, rb) == eb by {
        RowOfIsLastRow(hs);
      }
      EndBeforeMeansRowBefore(hs, ra, rb);
    }
  }

  /** A row that ends strictly earlier than another comes before it. */
  lemma EndBeforeMeansRowBefore(hs: seq<nat>, i: nat, j: nat)
    requires i < |hs| && j < |hs|
    requires End(hs, i) < End(hs, j)
    ensures i < j
  {
    PrefixMonotone(hs, Min(i, j) + 1, Max(i, j) + 1);
  }

  /** Row `i` is the first row whose end offset reaches position `p`. */
  ghost predicate FirstRowReaching(hs: seq<nat>, p: int, i: nat)
  {
    i < |hs| && End(hs, i) >= p && forall j :: 0 <= j < i ==> End(hs, j) < p
  }

  // ---------------------------------------------------------------------

  class VirtualListState {
    var heights: seq<nat>
    /** The key order of the `fromOfRows` Map: the distinct row end offsets. */
    var rowEnds: seq<nat>
    /** The `fromOfRows` Map itself: row end offset -> (last) row ending there. */
    var rowOfEnd: map<nat, nat>
    var totalHeight: nat
    var groupHeights: map<nat, GroupHeight>
    /** The group indices last passed to `SetGroupIndices`. */
    ghost var groupIndices: seq<nat>

    /** The row fields are what `_setRowHeights` derives from `heights`. */
    ghost predicate RowsValid()
      reads this
    {
      rowEnds == Ends(heights) && rowOfEnd == RowOf(heights) && totalHeight == Sum(heights)
    }

    ghost predicate Valid()
      reads this
    {
      RowsValid() && groupHeights == GroupTable(heights, groupIndices)
    }

    constructor (hs: seq<nat> := [], gs: seq<nat> := [])
      ensures Valid()
      ensures heights == hs && groupIndices == gs
    {
      new;
      Reset(hs, gs);
    }

    method Reset(hs: seq<nat>, gs: seq<nat>)
      modifies this
      ensures Valid()
      ensures heights == hs && groupIndices == gs
    {
      SetRowHeights(hs);
      SetGroupIndices(gs);
    }

    /** `_setRowHeights`: rebuilds the cumulative index; the group table is left as it was. */
    method SetRowHeights(hs: seq<nat>)
      modifies this`heights, this`rowEnds, this`rowOfEnd, this`totalHeight
      ensures RowsValid()
      ensures heights == hs
    {
      var sum: nat := 0;
      var ends: seq<nat> := [];
      var rowOf: map<nat, nat> := map[];
      var i := 0;
      while i < |hs|
        invariant 0 <= i <= |hs|
        invariant sum == Sum(hs[..i])
        invariant ends == Ends(hs[..i])
        invariant rowOf == RowOf(hs[..i])
      {
        assert hs[..i + 1][..i] == hs[..i];
        sum := sum + hs[i];
        // Map.set keeps the position of a key that is already present
        if sum !in rowOf {
          ends := ends + [sum];
        }
        rowOf := rowOf[sum := i];
        i := i + 1;
      }
      assert hs[..|hs|] == hs;
      rowEnds, rowOfEnd := ends, rowOf;
      totalHeight := Sum(hs);
      heights := hs;
    }

    /** `_setGroupIndices`: one entry per index, from the current heights. */
    method SetGroupIndices(gs: seq<nat>)
      requires RowsValid()
      modifies this`groupHeights, this`groupIndices
      ensures Valid()
      ensures groupIndices == gs
    {
      var table: map<nat, GroupHeight> := map[];
      var lastIndex: nat := 0;
      var sumOfHeights: nat := 0;
      var k := 0;
      while k < |gs|
        invariant 0 <= k <= |gs|
        invariant table == GroupTable(heights, gs[..k])
        invariant lastIndex == LastIndex(gs[..k])
        invariant sumOfHeights == SumOfGroupHeights(heights, gs[..k])
      {
        ghost var seen := gs[..k + 1];
        assert seen[..k] == gs[..k] && seen[k] == gs[k];
        var index := gs[k];
        var groupHeight := Sum(Slice(heights, lastIndex, index));
        assert GroupHeight(groupHeight, sumOfHeights) == GroupEntries(heights)(gs[..k], index);
        table := table[index := GroupHeight(groupHeight, sumOfHeights)];
        assert table == GroupTable(heights, seen);
        sumOfHeights := sumOfHeights + groupHeight;
        lastIndex := index;
        k := k + 1;
      }
      assert gs[..|gs|] == gs;
      groupHeights := table;
      groupIndices := gs;
    }

    function GetTotalHeight(): (r: nat)
      reads this
      requires RowsValid()
      ensures r == Sum(heights)
    {
      totalHeight
    }

    function GetGroupHeight(index: nat): (r: Option<GroupHeight>)
      reads this
      requires Valid()
      ensures r.Some? <==> index in groupIndices
    {
      GroupTableKeys(heights, groupIndices);
      if index in groupHeights then Some(groupHeights[index]) else None
    }

    function GetFromOfRows(): (r: seq<nat>)
      reads this
      requires RowsValid()
      ensures StrictlyIncreasing(r)
      ensures |r| <= |heights|
      ensures forall k :: 0 <= k < |r| ==> r[k] <= totalHeight
      ensures heights != [] ==> |r| > 0 && r[|r| - 1] == totalHeight
    {
      EndsShape(heights);
      rowEnds
    }

    /**
     * The start offset of row `index`; row 0 and any index outside the rows
     * give 0, whatever the heights.
     */
    function GetFromPosition(index: int): (r: nat)
      reads this
      requires RowsValid()
      ensures r <= totalHeight
      ensures index == 0 || index < 0 || index > |heights| ==> r == 0
    {
      EndsShape(heights);
      if index == 0 then 0
      else if 1 <= index <= |rowEnds| then rowEnds[index - 1]
      else 0
    }

    /**
     * Whatever the heights, each bound is found exactly when it lies within
     * the total height, the rows found are rows of the list, and `toPosition`
     * is a row end at or past `toPosition`.
     */
    function FindVisibleIndex(fromPosition: int, toPosition: int): (r: VisibleIndex)
      reads this
      requires RowsValid()
      ensures r.from.Some? <==> heights != [] && fromPosition <= totalHeight
      ensures r.to.Some? <==> heights != [] && toPosition <= totalHeight
      ensures r.from.Some? ==> r.from.value < |heights|
      ensures r.to.Some? ==> r.to.value < |heights|
      ensures r.toPosition.Some? <==> r.to.Some?
      ensures r.toPosition.Some? ==> toPosition <= r.toPosition.value <= totalHeight
    {
      EndsShape(heights);
      var foundFromPosition := Find(rowEnds, fromPosition);
      var foundToPosition := Find(rowEnds, toPosition);
      var from := Get(rowOfEnd, foundFromPosition);
      var to := Get(rowOfEnd, foundToPosition);
      VisibleIndex(
        from,
        to,
        // getFromPosition(undefined) is 0
        match from case Some(f) => GetFromPosition(f) case None => 0,
        foundToPosition)
    }

    /**
     * Whatever the heights, the overscan window is the visible one widened by
     * `overScanCount` on each side and clamped to the rows, so it contains the
     * visible rows; a missing visible bound falls back to the first or last row.
     */
    function FindOverScanIndex(fromPosition: int, toPosition: int, overScanCount: nat := 0): (r: OverScanIndex)
      reads this
      requires RowsValid()
      ensures var v := FindVisibleIndex(fromPosition, toPosition);
        && (v.from.Some? ==> r.from == Max(v.from.value, overScanCount) - overScanCount
                             && r.from <= v.from.value)
        && (v.from.None? ==> r.from == 0)
        && (v.to.Some? ==> v.to.value <= r.to
                           && r.to == Min(v.to.value + overScanCount, |heights| - 1))
        && (v.to.None? ==> r.to == |heights| - 1)
        && (heights != [] ==> 0 <= r.to < |heights| && r.from < |heights|)
        && (heights == [] ==> r.to == -1 && r.from == 0 && r.toPosition.None?)
    {
      var visibleIndex := FindVisibleIndex(fromPosition, toPosition);
      var n := |heights|;
      // an undefined bound makes the comparison false (NaN), selecting the fallback
      var from: nat :=
        match visibleIndex.from
        case Some(f) => if f - overScanCount >= 0 then f - overScanCount else 0
        case None => 0;
      var to :=
        match visibleIndex.to
        case Some(t) => if t + overScanCount <= n - 1 then t + overScanCount else n - 1
        case None => n - 1;
      OverScanIndex(
        from,
        to,
        GetFromPosition(from),
        if 0 <= to < |rowEnds| then Some(rowEnds[to]) else None)
    }
  
    // -------------------------------------------------------------------
    // What the queries mean when every row has a positive height

    /** With positive heights `getFromPosition(i)` is the start offset of row `i`. */
    lemma FromPositionSpec(index: int)
      requires RowsValid() && Positive(heights)
      ensures 0 <= index <= |heights| ==> GetFromPosition(index) == Prefix(heights, index)
    {
      EndsOfPositive(heights);
      if index == 0 {
        assert heights[..0] == [];
      }
    }

    /**
     * `findVisibleIndex` returns, for each bound, the first row whose end
     * reaches it (so a position on a row boundary belongs to the earlier row),
     * or nothing when the bound lies beyond the total height; `fromPosition` is
     * where the `from` row starts and `toPosition` where the `to` row ends.
     */
    lemma VisibleIndexSpec(fromPos: int, toPos: int)
      requires RowsValid() && Positive(heights)
      ensures var v := FindVisibleIndex(fromPos, toPos);
        && (v.from.Some? <==> heights != [] && fromPos <= totalHeight)
        && (v.from.Some? ==> FirstRowReaching(heights, fromPos, v.from.value)
                             && v.fromPosition == Prefix(heights, v.from.value))
        && (v.from.None? ==> v.fromPosition == 0)
        && (v.to.Some? <==> heights != [] && toPos <= totalHeight)
        && (v.to.Some? ==> FirstRowReaching(heights, toPos, v.to.value)
                           && v.toPosition == Some(End(heights, v.to.value)))
        && (v.to.None? ==> v.toPosition.None?)
    {
      EndsOfPositive(heights);
      EndsShape(heights);
      FindSpec(fromPos);
      FindSpec(toPos);
      var f := FirstAtLeast(rowEnds, fromPos);
      if f < |heights| {
        FromPositionSpec(f);
      }
    }

    /** One `_.find` over the key list, followed by the `Map` lookup. */
    lemma FindSpec(p: int)
      requires RowsValid() && Positive(heights)
      ensures var k := FirstAtLeast(rowEnds, p);
        && (k < |heights| <==> heights != [] && p <= totalHeight)
        && (k < |heights| ==> FirstRowReaching(heights, p, k)
                              && Find(rowEnds, p) == Some(End(heights, k))
                              && Get(rowOfEnd, Find(rowEnds, p)) == Some(k))
        && (k >= |heights| ==> Find(rowEnds, p).None? && Get(rowOfEnd, Find(rowEnds, p)).None?)
    {
      EndsOfPositive(heights);
      EndsShape(heights);
      var k := FirstAtLeast(rowEnds, p);
      if heights != [] {
        LastEnd(heights);
        assert rowEnds[|heights| - 1] == totalHeight;
      }
    }

    /**
     * For any heights, `_.find` followed by the `Map` lookup yields the last
     * row among those that end at the smallest row end reaching `p`.
     */
    lemma FindRow(p: int)
      requires RowsValid()
      ensures var r := Get(rowOfEnd, Find(rowEnds, p));
        && (r.Some? <==> heights != [] && p <= totalHeight)
        && (r.Some? ==>
              && r.value < |heights| && End(heights, r.value) >= p
              && (forall j :: 0 <= j < |heights| && End(heights, j) >= p ==> End(heights, r.value) <= End(heights, j))
              && (forall j :: r.value < j < |heights| ==> End(heights, j) != End(heights, r.value)))
    {
      EndsShape(heights);
      RowOfHasEveryEnd(heights);
      RowOfIsLastRow(heights);
      var k := FirstAtLeast(rowEnds, p);
      if k < |rowEnds| {
        forall j | 0 <= j < |heights| && End(heights, j) >= p
          ensures rowEnds[k] <= End(heights, j)
        {
          assert End(heights, j) in rowEnds;
          var m :| 0 <= m < |rowEnds| && rowEnds[m] == End(heights, j);
          assert k <= m;
        }
      }
    }

    /** For any heights, a window whose start does not exceed its end yields `from <= to`. */
    lemma VisibleIndexOrdered(fromPos: int, toPos: int)
      requires RowsValid()
      requires fromPos <= toPos
      ensures var v := FindVisibleIndex(fromPos, toPos);
        v.to.Some? ==> v.from.Some? && v.from.value <= v.to.value
    {
      var v := FindVisibleIndex(fromPos, toPos);
      if v.to.Some? {
        var kf, kt := FirstAtLeast(rowEnds, fromPos), FirstAtLeast(rowEnds, toPos);
        LookupOrdered(heights, kf, kt);
      }
    }

    /**
     * With positive heights the positions of the overscan window are where its
     * `from` row starts and its `to` row ends; when the visible `to` is missing
     * the window reaches down to the total height.
     */
    lemma OverScanIndexSpec(fromPos: int, toPos: int, overScanCount: nat)
      requires RowsValid() && Positive(heights)
      ensures var o := FindOverScanIndex(fromPos, toPos, overScanCount);
        && o.from <= |heights|
        && o.fromPosition == Prefix(heights, o.from)
        && (heights != [] ==> o.toPosition == Some(End(heights, o.to)))
        && (FindVisibleIndex(fromPos, toPos).to.None? && heights != [] ==> o.toPosition == Some(totalHeight))
    {
      EndsOfPositive(heights);
      var o := FindOverScanIndex(fromPos, toPos, overScanCount);
      FromPositionSpec(o.from);
      if heights != [] {
        LastEnd(heights);
      }
    }

    /**
     * With the default overscan count of 0 the overscan window is the visible
     * window; its `toPosition` agrees only when every height is positive (see
     * `ZeroHeightRow`).
     */
    lemma OverScanWithoutCount(fromPos: int, toPos: int)
      requires RowsValid()
      requires fromPos <= totalHeight && toPos <= totalHeight
      ensures var v, o := FindVisibleIndex(fromPos, toPos), FindOverScanIndex(fromPos, toPos);
        heights != [] ==>
          v.from == Some(o.from) && v.to == Some(o.to) && v.fromPosition == o.fromPosition
      ensures Positive(heights) ==>
        FindVisibleIndex(fromPos, toPos).toPosition == FindOverScanIndex(fromPos, toPos).toPosition
    {
      if Positive(heights) {
        VisibleIndexSpec(fromPos, toPos);
        OverScanIndexSpec(fromPos, toPos, 0);
      }
    }

    /**
     * For strictly ascending group indices, the entry of the k-th index covers
     * the rows from the previous group index up to (not including) its own and
     * starts where they start; an index that is not a group index has no entry.
     */
    lemma GroupHeightSpec(k: nat)
      requires Valid() && StrictlyIncreasing(groupIndices)
      requires k < |groupIndices|
      ensures var prev, cur := Prefix(heights, Min(PreviousIndex(groupIndices, k), |heights|)),
                               Prefix(heights, Min(groupIndices[k], |heights|));
        prev <= cur && GetGroupHeight(groupIndices[k]) == Some(GroupHeight(cur - prev, prev))
    {
      var index := groupIndices[k];
      GroupTableEntry(heights, groupIndices, k);
      assert index in groupHeights && GetGroupHeight(index) == Some(groupHeights[index]);
    }
  }
}
