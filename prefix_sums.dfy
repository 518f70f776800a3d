/**
 * Cumulative sums over a list of row heights, and the JavaScript `Map` that
 * `VirtualListState._setRowHeights` fills with them (src/utils/virtualListState.js).
 *
 * The `Map` is keyed by the running sum and holds the index of the row that
 * ends there. Setting a key that is already present keeps its place in the
 * key order and replaces its value, so when a row has height zero two rows
 * share a key, the later index wins and the key list is shorter than the
 * height list. `Ends` is the key list and `RowOf` the key-to-index table.
 */
module PrefixSums {

  /** `_.sum`: the total of a list of heights. */
  function Sum(s: seq<nat>): (r: nat)
  {
    if s == [] then 0 else Sum(s[..|s| - 1]) + s[|s| - 1]
  }

  /** The total is zero exactly when every height is zero. */
  lemma {:induction false} SumZero(s: seq<nat>)
    ensures Sum(s) == 0 <==> forall i :: 0 <= i < |s| ==> s[i] == 0
  {
    if s != [] {
      var init := s[..|s| - 1];
      SumZero(init);
      assert forall i :: 0 <= i < |init| ==> init[i] == s[i];
    }
  }

  /** The offset at which row `k` starts: the heights of rows 0 .. k-1. */
  ghost function Prefix(hs: seq<nat>, k: nat): nat
    requires k <= |hs|
  {
    Sum(hs[..k])
  }

  ghost predicate Positive(hs: seq<nat>)
  {
    forall i :: 0 <= i < |hs| ==> hs[i] > 0
  }

  ghost predicate StrictlyIncreasing(s: seq<nat>)
  {
    forall i, j :: 0 <= i < j < |s| ==> s[i] < s[j]
  }

  /** The table sum -> row index after `set(sum += height, i)` for every row in order. */
  function RowOf(hs: seq<nat>): (r: map<nat, nat>)
    ensures forall x :: x in r ==> r[x] < |hs|
  {
    if hs == [] then map[] else RowOf(hs[..|hs| - 1])[Sum(hs) := |hs| - 1]
  }

  /** The key order of that table: a sum is appended only when it is not yet a key. */
  function Ends(hs: seq<nat>): (r: seq<nat>)
    ensures |r| <= |hs|
  {
    if hs == [] then []
    else if Sum(hs) in RowOf(hs[..|hs| - 1]) then Ends(hs[..|hs| - 1])
    else Ends(hs[..|hs| - 1]) + [Sum(hs)]
  }

  /**
   * `Array.prototype.slice(a, b)` for non-negative bounds: both bounds are
   * clamped to the length and an empty list results when `b <= a`.
   */
  function Slice(hs: seq<nat>, a: nat, b: nat): (r: seq<nat>)
    ensures |r| == if Min(b, |hs|) <= Min(a, |hs|) then 0 else Min(b, |hs|) - Min(a, |hs|)
    ensures Min(a, |hs|) + |r| <= |hs| && r == hs[Min(a, |hs|)..Min(a, |hs|) + |r|]
  {
    var lo, hi := Min(a, |hs|), Min(b, |hs|);
    if hi <= lo then [] else hs[lo..hi]
  }

  function Min(a: nat, b: nat): nat
  {
    if a <= b then a else b
  }

  function Max(a: nat, b: nat): nat
  {
    if a <= b then b else a
  }

  // ---------------------------------------------------------------------
  // Prefix sums

  lemma PrefixStep(hs: seq<nat>, i: nat)
    requires i < |hs|
    ensures Prefix(hs, i + 1) == Prefix(hs, i) + hs[i]
  {
    assert hs[..i + 1][..i] == hs[..i];
  }

  lemma PrefixWhole(hs: seq<nat>)
    ensures Prefix(hs, |hs|) == Sum(hs)
  {
    assert hs[..|hs|] == hs;
  }

  /** A prefix of a prefix is a prefix: taking the first `m` rows does not move rows before `m`. */
  lemma PrefixOfTake(hs: seq<nat>, m: nat, i: nat)
    requires i <= m <= |hs|
    ensures Prefix(hs[..m], i) == Prefix(hs, i)
  {
    assert hs[..m][..i] == hs[..i];
  }

  /** Row start offsets never decrease, and strictly increase when every height is positive. */
  lemma {:induction false} PrefixMonotone(hs: seq<nat>, i: nat, j: nat)
    requires i <= j <= |hs|
    ensures Prefix(hs, i) <= Prefix(hs, j)
    ensures Positive(hs) && i < j ==> Prefix(hs, i) < Prefix(hs, j)
    decreases j - i
  {
    if i < j {
      PrefixMonotone(hs, i, j - 1);
      PrefixStep(hs, j - 1);
    }
  }

  /** Summing a slice of rows is a difference of two row start offsets. */
  lemma {:induction false} SumOfRange(hs: seq<nat>, a: nat, b: nat)
    requires a <= b <= |hs|
    ensures Sum(hs[a..b]) == Prefix(hs, b) - Prefix(hs, a)
    decreases b - a
  {
    if a == b {
      assert hs[a..b] == [];
    } else {
      SumOfRange(hs, a, b - 1);
      assert hs[a..b][..b - a - 1] == hs[a..b - 1];
      PrefixStep(hs, b - 1);
      PrefixMonotone(hs, a, b - 1);
    }
  }

  /** The total of a JavaScript slice is the difference of the clamped start offsets. */
  lemma SliceSum(hs: seq<nat>, a: nat, b: nat)
    requires a <= b
    ensures Sum(Slice(hs, a, b)) == Prefix(hs, Min(b, |hs|)) - Prefix(hs, Min(a, |hs|))
    ensures Prefix(hs, Min(a, |hs|)) <= Prefix(hs, Min(b, |hs|))
  {
    PrefixMonotone(hs, Min(a, |hs|), Min(b, |hs|));
    if Min(b, |hs|) > Min(a, |hs|) {
      SumOfRange(hs, Min(a, |hs|), Min(b, |hs|));
    } else {
      assert Slice(hs, a, b) == [];
    }
  }

  // ---------------------------------------------------------------------
  // The sum -> index table and its key order

  /** The offset at which row `i` ends. */
  ghost function End(hs: seq<nat>, i: nat): nat
    requires i < |hs|
  {
    Prefix(hs, i + 1)
  }

  lemma EndOfTake(hs: seq<nat>, m: nat, i: nat)
    requires i < m <= |hs|
    ensures End(hs[..m], i) == End(hs, i)
  {
    PrefixOfTake(hs, m, i + 1);
  }

  lemma LastEnd(hs: seq<nat>)
    requires hs != []
    ensures End(hs, |hs| - 1) == Sum(hs)
  {
    PrefixWhole(hs);
  }

  /** Every row end offset is a key of the table. */
  lemma {:induction false} RowOfHasEveryEnd(hs: seq<nat>)
    ensures forall i :: 0 <= i < |hs| ==> End(hs, i) in RowOf(hs)
  {
    if hs != [] {
      var n := |hs|;
      var init := hs[..n - 1];
      RowOfHasEveryEnd(init);
      LastEnd(hs);
      forall i | 0 <= i < n - 1
        ensures End(hs, i) in RowOf(hs)
      {
        EndOfTake(hs, n - 1, i);
        assert End(init, i) in RowOf(init);
      }
    }
  }

  /** Each key maps to a row that ends there, and no later row ends there. */
  lemma {:induction false} RowOfIsLastRow(hs: seq<nat>)
    ensures forall x :: x in RowOf(hs) ==> RowOf(hs)[x] < |hs| && End(hs, RowOf(hs)[x]) == x
    ensures forall x, j :: x in RowOf(hs) && RowOf(hs)[x] < j < |hs| ==> End(hs, j) != x
  {
    if hs != [] {
      var n := |hs|;
      var init := hs[..n - 1];
      RowOfIsLastRow(init);
      LastEnd(hs);
      forall x | x in RowOf(hs)
        ensures RowOf(hs)[x] < n && End(hs, RowOf(hs)[x]) == x
      {
        if x != Sum(hs) {
          EndOfTake(hs, n - 1, RowOf(init)[x]);
        }
      }
      forall x, j | x in RowOf(hs) && RowOf(hs)[x] < j < n
        ensures End(hs, j) != x
      {
        if x != Sum(hs) {
          if j < n - 1 {
            EndOfTake(hs, n - 1, j);
            assert End(init, j) != x;
          }
        }
      }
    }
  }

  /**
   * The key list is strictly increasing, holds exactly the keys of the table,
   * never exceeds the total, and ends with the total.
   */
  lemma {:induction false} EndsShape(hs: seq<nat>)
    ensures StrictlyIncreasing(Ends(hs))
    ensures forall x :: x in Ends(hs) <==> x in RowOf(hs)
    ensures forall k :: 0 <= k < |Ends(hs)| ==> Ends(hs)[k] <= Sum(hs)
    ensures |Ends(hs)| <= |hs|
    ensures hs != [] ==> |Ends(hs)| > 0 && Ends(hs)[|Ends(hs)| - 1] == Sum(hs)
  {
    if hs != [] {
      var n := |hs|;
      var init := hs[..n - 1];
      EndsShape(init);
      var keys, total := Ends(init), Sum(hs);
      assert Sum(init) <= total;
      if total in RowOf(init) {
        // the total is already a key: it can only be the previous total
        assert Ends(hs) == keys && total in keys;
        assert total == Sum(init);
      } else {
        // the total is a new key, larger than every earlier one
        assert Ends(hs) == keys + [total] && total !in keys;
        assert forall k :: 0 <= k < |keys| ==> keys[k] < total;
      }
    }
  }

  /**
   * With every height positive no two rows share an end offset: the key list
   * has one entry per row, entry `i` is where row `i` ends, and the table maps
   * that offset back to `i`.
   */
  lemma {:induction false} EndsOfPositive(hs: seq<nat>)
    requires Positive(hs)
    ensures |Ends(hs)| == |hs|
    ensures forall i :: 0 <= i < |hs| ==> Ends(hs)[i] == End(hs, i)
    ensures forall i :: 0 <= i < |hs| ==> End(hs, i) in RowOf(hs) && RowOf(hs)[End(hs, i)] == i
    decreases |hs|
  {
    RowOfHasEveryEnd(hs);
    RowOfIsLastRow(hs);
    if hs != [] {
      var n := |hs|;
      var init := hs[..n - 1];
      assert Positive(init);
      EndsOfPositive(init);
      EndsShape(init);
      LastEnd(hs);
      PrefixWhole(init);
      PrefixStep(hs, n - 1);
      PrefixOfTake(hs, n - 1, n - 1);
      assert Sum(init) < Sum(hs);
      assert Sum(hs) !in Ends(init);
      forall i | 0 <= i < n - 1
        ensures Ends(hs)[i] == End(hs, i)
      {
        EndOfTake(hs, n - 1, i);
      }
      forall i | 0 <= i < n
        ensures RowOf(hs)[End(hs, i)] == i
      {
        var k := RowOf(hs)[End(hs, i)];
        // k >= i because no later row ends at that offset; k <= i because ends strictly increase
        PrefixMonotone(hs, Min(i, k) + 1, Max(i, k) + 1);
      }
    }
  }
}
