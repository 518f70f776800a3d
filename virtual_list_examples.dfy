/**
 * The scenarios of src/utils/__tests__/virtualListState.spec.js, derived from
 * the general lemmas of `VirtualList`, and the behaviour of the index when a
 * row has height zero.
 */
module VirtualListExamples {
  import opened Wrappers
  import opened PrefixSums
  import opened VirtualList

  /** In a list of rows of equal height `h`, row `i` starts at `h * i`. */
  lemma {:induction false} UniformPrefix(hs: seq<nat>, h: nat, i: nat)
    requires forall k :: 0 <= k < |hs| ==> hs[k] == h
    requires i <= |hs|
    ensures Prefix(hs, i) == h * i
  {
    if i == 0 {
      assert hs[..0] == [];
    } else {
      UniformPrefix(hs, h, i - 1);
      PrefixStep(hs, i - 1);
    }
  }

  /** In such a list the first row reaching `p` is the one whose end is the first multiple of `h` at or past `p`. */
  lemma UniformFirstRow(hs: seq<nat>, h: nat, p: int, i: nat)
    requires forall k :: 0 <= k < |hs| ==> hs[k] == h
    requires FirstRowReaching(hs, p, i)
    ensures h * (i + 1) >= p
    ensures i > 0 ==> h * i < p
  {
    UniformPrefix(hs, h, i + 1);
    if i > 0 {
      UniformPrefix(hs, h, i);
      assert End(hs, i - 1) < p;
    }
  }

  /** Rows of 100: only one row index brackets a position. */
  lemma SameRowOfHundred(p: int, i: nat, j: nat)
    requires 100 * (i + 1) >= p && (i > 0 ==> 100 * i < p)
    requires 100 * (j + 1) >= p && (j > 0 ==> 100 * j < p)
    ensures i == j
  {
  }

  /** A freshly constructed state without heights: total 0, no keys, and every query falls back. */
  lemma EmptyList(s: VirtualListState, fromPos: int, toPos: int, overScanCount: nat)
    requires s.RowsValid() && s.heights == []
    ensures s.GetTotalHeight() == 0 && s.GetFromOfRows() == []
    ensures s.FindVisibleIndex(fromPos, toPos) == VisibleIndex(None, None, 0, None)
    ensures s.FindOverScanIndex(fromPos, toPos, overScanCount) == OverScanIndex(0, -1, 0, None)
  {
  }

  /** Ten rows of 100: the total height and the visible windows of the unit tests. */
  lemma TenRowsVisible(s: VirtualListState)
    requires s.RowsValid() && s.heights == seq(10, _ => 100)
    ensures s.GetTotalHeight() == 1000
    ensures s.FindVisibleIndex(0, 300) == VisibleIndex(Some(0), Some(2), 0, Some(300))
    ensures s.FindVisibleIndex(100, 300) == VisibleIndex(Some(0), Some(2), 0, Some(300))
    ensures s.FindVisibleIndex(101, 300) == VisibleIndex(Some(1), Some(2), 100, Some(300))
    ensures s.FindVisibleIndex(100, 301) == VisibleIndex(Some(0), Some(3), 0, Some(400))
  {
    Window(s, 0, 300, 0, 2);
    Window(s, 100, 300, 0, 2);
    Window(s, 101, 300, 1, 2);
    Window(s, 100, 301, 0, 3);
    PrefixWhole(s.heights);
    UniformPrefix(s.heights, 100, 10);
  }

  /** Ten rows of 100: the overscan windows of the unit tests with an overscan count of 3. */
  lemma TenRowsOverScan(s: VirtualListState)
    requires s.RowsValid() && s.heights == seq(10, _ => 100)
    ensures s.FindOverScanIndex(0, 300, 3) == OverScanIndex(0, 5, 0, Some(600))
    ensures s.FindOverScanIndex(300, 600, 3) == OverScanIndex(0, 8, 0, Some(900))
    ensures s.FindOverScanIndex(300, 601, 3) == OverScanIndex(0, 9, 0, Some(1000))
    ensures s.FindOverScanIndex(400, 700, 3) == OverScanIndex(0, 9, 0, Some(1000))
    ensures s.FindOverScanIndex(401, 700, 3) == OverScanIndex(1, 9, 100, Some(1000))
    ensures s.FindOverScanIndex(700, 1000, 3) == OverScanIndex(3, 9, 300, Some(1000))
  {
    assert s.FindOverScanIndex(0, 300, 3) == OverScanIndex(0, 5, 0, Some(600)) by {
      OverScanWindow(s, 0, 300, 3, 0, 2);
    }
    assert s.FindOverScanIndex(300, 600, 3) == OverScanIndex(0, 8, 0, Some(900)) by {
      OverScanWindow(s, 300, 600, 3, 2, 5);
    }
    assert s.FindOverScanIndex(300, 601, 3) == OverScanIndex(0, 9, 0, Some(1000)) by {
      OverScanWindow(s, 300, 601, 3, 2, 6);
    }
    assert s.FindOverScanIndex(400, 700, 3) == OverScanIndex(0, 9, 0, Some(1000)) by {
      OverScanWindow(s, 400, 700, 3, 3, 6);
    }
    assert s.FindOverScanIndex(401, 700, 3) == OverScanIndex(1, 9, 100, Some(1000)) by {
      OverScanWindow(s, 401, 700, 3, 4, 6);
    }
    OverScanWindow(s, 700, 1000, 3, 6, 9);
  }

  /** Ten rows of 100: with the default overscan count the overscan windows are the visible ones. */
  lemma TenRowsDefaultOverScan(s: VirtualListState)
    requires s.RowsValid() && s.heights == seq(10, _ => 100)
    ensures s.FindOverScanIndex(0, 300) == OverScanIndex(0, 2, 0, Some(300))
    ensures s.FindOverScanIndex(100, 300) == OverScanIndex(0, 2, 0, Some(300))
    ensures s.FindOverScanIndex(101, 300) == OverScanIndex(1, 2, 100, Some(300))
    ensures s.FindOverScanIndex(100, 301) == OverScanIndex(0, 3, 0, Some(400))
  {
    OverScanWindow(s, 0, 300, 0, 0, 2);
    OverScanWindow(s, 100, 300, 0, 0, 2);
    OverScanWindow(s, 101, 300, 0, 1, 2);
    OverScanWindow(s, 100, 301, 0, 0, 3);
  }

  /** The overscan window over ten rows of 100 whose visible rows are `f .. t`. */
  lemma OverScanWindow(s: VirtualListState, fromPos: int, toPos: int, k: nat, f: nat, t: nat)
    requires s.RowsValid() && s.heights == seq(10, _ => 100)
    requires 0 <= fromPos <= toPos <= 1000
    requires 100 * (f + 1) >= fromPos && (f > 0 ==> 100 * f < fromPos)
    requires 100 * (t + 1) >= toPos && (t > 0 ==> 100 * t < toPos)
    ensures var from, to := Max(f, k) - k, Min(t + k, 9);
      s.FindOverScanIndex(fromPos, toPos, k) == OverScanIndex(from, to, 100 * from, Some(100 * (to + 1)))
  {
    var hs := s.heights;
    assert Positive(hs);
    Window(s, fromPos, toPos, f, t);
    s.OverScanIndexSpec(fromPos, toPos, k);
    var v := s.FindVisibleIndex(fromPos, toPos);
    var o := s.FindOverScanIndex(fromPos, toPos, k);
    assert v.from == Some(f) && v.to == Some(t);
    assert o.from == Max(f, k) - k;
    assert o.to == Min(t + k, 9);
    UniformPrefix(hs, 100, o.from);
    UniformPrefix(hs, 100, o.to + 1);
    assert o.fromPosition == 100 * o.from;
    assert o.toPosition == Some(100 * (o.to + 1));
  }

  /** The visible rows of one window over ten rows of 100, with their positions. */
  lemma Window(s: VirtualListState, fromPos: int, toPos: int, f: nat, t: nat)
    requires s.RowsValid() && s.heights == seq(10, _ => 100)
    requires 0 <= fromPos <= toPos <= 1000
    requires 100 * (f + 1) >= fromPos && (f > 0 ==> 100 * f < fromPos)
    requires 100 * (t + 1) >= toPos && (t > 0 ==> 100 * t < toPos)
    ensures s.FindVisibleIndex(fromPos, toPos) == VisibleIndex(Some(f), Some(t), 100 * f, Some(100 * (t + 1)))
  {
    var hs := s.heights;
    assert Positive(hs);
    PrefixWhole(hs);
    UniformPrefix(hs, 100, 10);
    s.VisibleIndexSpec(fromPos, toPos);
    var v := s.FindVisibleIndex(fromPos, toPos);
    assert v.from == Some(f) && v.fromPosition == 100 * f by {
      UniformFirstRow(hs, 100, fromPos, v.from.value);
      SameRowOfHundred(fromPos, v.from.value, f);
      UniformPrefix(hs, 100, f);
    }
    assert v.to == Some(t) && v.toPosition == Some(100 * (t + 1)) by {
      UniformFirstRow(hs, 100, toPos, v.to.value);
      SameRowOfHundred(toPos, v.to.value, t);
      UniformPrefix(hs, 100, t + 1);
    }
  }

  /**
   * The group heights the code computes for the heights and group indices of
   * the unit test: each entry sums the rows from the previous group index
   * (inclusive) to its own index (exclusive).
   */
  lemma ThreeGroups(s: VirtualListState)
    requires s.Valid()
    requires s.heights == [100, 100, 100, 50, 100, 100, 100, 50, 100, 100, 100, 100, 50]
    requires s.groupIndices == [3, 7, 12]
    ensures s.GetGroupHeight(3) == Some(GroupHeight(300, 0))
    ensures s.GetGroupHeight(7) == Some(GroupHeight(350, 300))
    ensures s.GetGroupHeight(12) == Some(GroupHeight(450, 650))
    ensures s.GetGroupHeight(4).None?
  {
    ThreeGroupsOffsets(s.heights);
    assert s.GetGroupHeight(3) == Some(GroupHeight(300, 0)) by {
      s.GroupHeightSpec(0);
    }
    assert s.GetGroupHeight(7) == Some(GroupHeight(350, 300)) by {
      s.GroupHeightSpec(1);
    }
    assert s.GetGroupHeight(12) == Some(GroupHeight(450, 650)) by {
      s.GroupHeightSpec(2);
    }
  }

  /** The start offsets of the group rows in the heights of the unit test. */
  lemma ThreeGroupsOffsets(hs: seq<nat>)
    requires hs == [100, 100, 100, 50, 100, 100, 100, 50, 100, 100, 100, 100, 50]
    ensures Prefix(hs, 0) == 0 && Prefix(hs, 3) == 300 && Prefix(hs, 7) == 650 && Prefix(hs, 12) == 1100
  {
    assert hs[..0] == [];
    assert Prefix(hs, 0) == 0;
    PrefixStep(hs, 0);
    assert Prefix(hs, 1) == 100;
    PrefixStep(hs, 1);
    assert Prefix(hs, 2) == 200;
    PrefixStep(hs, 2);
    assert Prefix(hs, 3) == 300;
    PrefixStep(hs, 3);
    assert Prefix(hs, 4) == 350;
    PrefixStep(hs, 4);
    assert Prefix(hs, 5) == 450;
    PrefixStep(hs, 5);
    assert Prefix(hs, 6) == 550;
    PrefixStep(hs, 6);
    assert Prefix(hs, 7) == 650;
    PrefixStep(hs, 7);
    assert Prefix(hs, 8) == 700;
    PrefixStep(hs, 8);
    assert Prefix(hs, 9) == 800;
    PrefixStep(hs, 9);
    assert Prefix(hs, 10) == 900;
    PrefixStep(hs, 10);
    assert Prefix(hs, 11) == 1000;
    PrefixStep(hs, 11);
    assert Prefix(hs, 12) == 1100;
  }

  /**
   * A zero-height row makes two rows share an end offset: the later row takes
   * the key over, the key list is shorter than the rows, the earlier row is no
   * longer found, and the overscan `toPosition` of the last row is missing.
   */
  lemma ZeroHeightRow(s: VirtualListState)
    requires s.RowsValid() && s.heights == [100, 0, 100]
    ensures s.GetFromOfRows() == [100, 200]
    ensures s.FindVisibleIndex(0, 150) == VisibleIndex(Some(1), Some(2), 100, Some(200))
    ensures s.FindOverScanIndex(0, 150) == OverScanIndex(1, 2, 100, None)
  {
    ZeroHeightTable(s.heights);
    assert s.FindVisibleIndex(0, 150) == VisibleIndex(Some(1), Some(2), 100, Some(200)) by {
      assert FirstAtLeast(s.rowEnds, 0) == 0 && FirstAtLeast(s.rowEnds, 150) == 1;
    }
  }

  /** The `Map` built for `[100, 0, 100]`: the second row overwrites the first one's key. */
  lemma ZeroHeightTable(hs: seq<nat>)
    requires hs == [100, 0, 100]
    ensures Sum(hs) == 200
    ensures RowOf(hs) == map[100 := 1, 200 := 2] && Ends(hs) == [100, 200]
  {
    assert hs[..1] == [100] && hs[..2] == [100, 0] && hs[..2][..1] == [100];
    assert Sum([100]) == 100;
    assert Sum([100, 0]) == 100;
    assert RowOf([100]) == map[100 := 0];
    assert RowOf([100, 0]) == map[100 := 1];
    assert Ends([100]) == [100];
    assert Ends([100, 0]) == [100];
  }

}
