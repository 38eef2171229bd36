/** Completed rows of the field: finding them, emptying them, and moving the rows above each
    of them down by one. */
module LineClearing {
  import opened JaggedArrayExtensions

  /** Every cell of the row is occupied. */
  predicate RowFull(row: seq<int>) {
    forall j :: 0 <= j < |row| ==> row[j] != 0
  }

  /** No row of the grid is full. */
  predicate NoneFull(g: Grid) {
    forall i :: 0 <= i < |g| ==> !RowFull(g[i])
  }

  /** Counting the occupied cells of a row decides whether it is full: it is exactly when
      every cell is counted. */
  lemma {:induction false} FullByCount(row: seq<int>)
    ensures NonzeroCount(row) <= |row|
    ensures RowFull(row) <==> NonzeroCount(row) == |row|
  {
    if row != [] {
      var n := |row| - 1;
      FullByCount(row[..n]);
      assert RowFull(row) ==> RowFull(row[..n]);
      assert RowFull(row[..n]) && row[n] != 0 ==> RowFull(row) by {
        if RowFull(row[..n]) && row[n] != 0 {
          forall j | 0 <= j < |row| ensures row[j] != 0 {
            if j < n { assert row[j] == row[..n][j]; }
          }
        }
      }
    }
  }

  /** The entries strictly increase. */
  predicate Ascending(ks: seq<int>) {
    forall a, b :: 0 <= a < b < |ks| ==> ks[a] < ks[b]
  }

  /** Every entry is an index below `n` (negative entries are allowed: they name no row). */
  predicate Below(ks: seq<int>, n: int) {
    forall t :: 0 <= t < |ks| ==> ks[t] < n
  }

  /** Every entry is an index of a row of a grid of `n` rows. */
  predicate Indices(ks: seq<int>, n: int) {
    forall t :: 0 <= t < |ks| ==> 0 <= ks[t] < n
  }

  /** The indices of the full rows among the first `n` rows of `g`, top to bottom. */
  function FullRowsBelow(g: Grid, n: nat): (ks: seq<int>)
    requires n <= |g|
    ensures Ascending(ks) && Indices(ks, n)
    ensures forall i :: 0 <= i < n ==> (i in ks <==> RowFull(g[i]))
  {
    if n == 0 then [] else FullRowsBelow(g, n - 1) + (if RowFull(g[n - 1]) then [n - 1] else [])
  }

  /** The indices of all full rows of `g`, top to bottom. */
  function FullRows(g: Grid): seq<int> {
    FullRowsBelow(g, |g|)
  }

  /** A row of `n` empty cells. */
  function EmptyRow(n: nat): (row: seq<int>)
    ensures |row| == n && forall j :: 0 <= j < n ==> row[j] == 0
  {
    seq(n, _ => 0)
  }

  /** Every full row replaced by an empty row of the same width; the other rows are kept. */
  function ClearedRows(g: Grid): (c: Grid)
    ensures |c| == |g|
    ensures forall i :: 0 <= i < |g| ==> |c[i]| == |g[i]|
    ensures forall i :: 0 <= i < |g| ==> c[i] == (if RowFull(g[i]) then EmptyRow(|g[i]|) else g[i])
  {
    seq(|g|, i requires 0 <= i < |g| => if RowFull(g[i]) then EmptyRow(|g[i]|) else g[i])
  }

  /** Emptying the full rows of a grid whose rows are not empty leaves no full row. */
  lemma ClearedNoneFull(g: Grid, cols: int)
    requires IsGrid(g, |g|, cols) && cols > 0
    ensures NoneFull(ClearedRows(g))
  {
    forall i | 0 <= i < |g| ensures !RowFull(ClearedRows(g)[i]) {
      if RowFull(g[i]) { assert ClearedRows(g)[i][0] == 0; }
    }
  }

  /** The shift under a cleared row `k`: every row from 1 to `k` takes the row above it, and
      row 0 keeps its contents (it is copied down, not emptied). An index of 0 or below moves
      nothing. */
  function ShiftDown(g: Grid, k: int): (h: Grid)
    requires k < |g|
    ensures |h| == |g|
  {
    seq(|g|, i requires 0 <= i < |g| => if 1 <= i <= k then g[i - 1] else g[i])
  }

  /** The shifts under every index of `ks`, applied in the order of `ks`. */
  function ShiftAll(g: Grid, ks: seq<int>): (h: Grid)
    requires Below(ks, |g|)
    ensures |h| == |g|
    decreases |ks|
  {
    if ks == [] then g else ShiftDown(ShiftAll(g, ks[..|ks| - 1]), ks[|ks| - 1])
  }

  /** The field after the line check: full rows emptied, then the rows above each of them
      moved down. */
  function AfterLineCheck(g: Grid): Grid {
    ShiftAll(ClearedRows(g), FullRows(g))
  }

  /** Shifting only copies rows, so any property every row has survives it. */
  lemma {:induction false} ShiftAllKeepsRows(g: Grid, ks: seq<int>, P: seq<int> -> bool)
    requires Below(ks, |g|)
    requires forall i :: 0 <= i < |g| ==> P(g[i])
    ensures |ShiftAll(g, ks)| == |g|
    ensures forall i :: 0 <= i < |g| ==> P(ShiftAll(g, ks)[i])
    decreases |ks|
  {
    if ks != [] {
      ShiftAllKeepsRows(g, ks[..|ks| - 1], P);
    }
  }

  /** After the line check no row is full. */
  lemma NoFullRowAfterLineCheck(g: Grid, cols: int)
    requires IsGrid(g, |g|, cols) && cols > 0
    ensures |AfterLineCheck(g)| == |g|
    ensures NoneFull(AfterLineCheck(g))
  {
    ClearedNoneFull(g, cols);
    ShiftAllKeepsRows(ClearedRows(g), FullRows(g), row => !RowFull(row));
  }

  /** Among rows that are not full no index is found. */
  lemma {:induction false} NoFullRowsFound(g: Grid, n: nat)
    requires n <= |g| && forall i :: 0 <= i < n ==> !RowFull(g[i])
    ensures FullRowsBelow(g, n) == []
  {
    if n > 0 {
      NoFullRowsFound(g, n - 1);
    }
  }

  /** Without full rows the line check changes nothing. */
  lemma LineCheckWithoutFullRows(g: Grid)
    requires NoneFull(g)
    ensures FullRows(g) == [] && AfterLineCheck(g) == g
  {
    NoFullRowsFound(g, |g|);
    assert ClearedRows(g) == g;
  }

  // ---------------------------------------------------------------------------------------
  // What the shifts amount to

  /** `g` without its row `k`. */
  function RemoveAt(g: Grid, k: int): Grid
    requires 0 <= k < |g|
  {
    g[..k] + g[k + 1..]
  }

  /** `g` without the rows whose indices are in `ks`, the others in their order. */
  function Without(g: Grid, ks: seq<int>): (h: Grid)
    requires Ascending(ks) && Indices(ks, |g|)
    ensures |h| == |g| - |ks|
    decreases |ks|
  {
    if ks == [] then g
    else Without(RemoveAt(g, ks[|ks| - 1]), ks[..|ks| - 1])
  }

  /** `n` copies of one row. */
  function Repeat(row: seq<int>, n: nat): (g: Grid)
    ensures |g| == n && forall i :: 0 <= i < n ==> g[i] == row
  {
    seq(n, _ => row)
  }

  /** Removing rows above the end of `a` leaves whatever follows `a` alone. */
  lemma {:induction false} WithoutAppend(a: Grid, b: Grid, ks: seq<int>)
    requires Ascending(ks) && Indices(ks, |a|)
    ensures Without(a + b, ks) == Without(a, ks) + b
    decreases |ks|
  {
    if ks != [] {
      var k := ks[|ks| - 1];
      assert RemoveAt(a + b, k) == RemoveAt(a, k) + b;
      WithoutAppend(RemoveAt(a, k), b, ks[..|ks| - 1]);
    }
  }

  /** Shifting under one row is removing it and repeating the top row. */
  lemma ShiftDownRemoves(g: Grid, k: int)
    requires 0 <= k < |g|
    ensures ShiftDown(g, k) == [g[0]] + RemoveAt(g, k)
  {
  }

  /** The shifts under ascending row indices `ks` leave, from the top, |ks| copies of row 0
      and then the rows not in `ks` in their original order. */
  lemma {:induction false} ShiftAllCompacts(g: Grid, ks: seq<int>)
    requires |g| > 0 && Ascending(ks) && Indices(ks, |g|)
    ensures ShiftAll(g, ks) == Repeat(g[0], |ks|) + Without(g, ks)
    decreases |ks|
  {
    if ks == [] {
      assert Repeat(g[0], 0) + g == g;
    } else {
      var init := ks[..|ks| - 1];
      ShiftAllTop(g, init);
      ShiftAllCompacts(g, init);
      CompactStep(g, ShiftAll(g, init), init, ks[|ks| - 1]);
      assert init + [ks[|ks| - 1]] == ks;
    }
  }

  /** One more shift, under a row below all earlier ones, adds one copy of row 0 and drops
      that row from the kept ones. */
  lemma CompactStep(g: Grid, h: Grid, init: seq<int>, k: int)
    requires 0 <= k < |g| && Ascending(init) && Indices(init, k)
    requires h == Repeat(g[0], |init|) + Without(g, init) && h[0] == g[0]
    ensures Ascending(init + [k]) && Indices(init + [k], |g|)
    ensures ShiftDown(h, k) == Repeat(g[0], |init| + 1) + Without(g, init + [k])
  {
    var w := Without(g[..k], init);
    var r := Repeat(g[0], |init|);
    ExtendIndices(init, k, |g|);
    SplitAtLast(g, init, k);
    WithoutLast(g, init, k);
    ShiftAfterPrefix(h, g[0], r, w, g[k..]);
    assert g[k..][1..] == g[k + 1..];
    TopCopies(g[0], |init|);
  }

  lemma TopCopies(top: seq<int>, n: nat)
    ensures [top] + Repeat(top, n) == Repeat(top, n + 1)
  {
  }

  /** Removing one more row, below the others. */
  lemma WithoutLast(g: Grid, init: seq<int>, k: int)
    requires 0 <= k < |g| && Ascending(init) && Indices(init, k)
    ensures Ascending(init + [k]) && Indices(init + [k], |g|)
    ensures Without(g, init + [k]) == Without(g[..k], init) + g[k + 1..]
  {
    var ks := init + [k];
    ExtendIndices(init, k, |g|);
    assert ks[..|ks| - 1] == init;
    assert ks[|ks| - 1] == k;
    WithoutAppend(g[..k], g[k + 1..], init);
  }

  /** An index below all others extends an ascending list of indices. */
  lemma ExtendIndices(init: seq<int>, k: int, n: int)
    requires Ascending(init) && Indices(init, k) && 0 <= k < n
    ensures Ascending(init + [k]) && Indices(init + [k], n)
  {
    var ks := init + [k];
    forall a, b | 0 <= a < b < |ks| ensures ks[a] < ks[b] {
      if b < |init| { assert ks[a] == init[a] && ks[b] == init[b]; }
      else { assert ks[a] == init[a]; }
    }
    forall t | 0 <= t < |ks| ensures 0 <= ks[t] < n {
      if t < |init| { assert ks[t] == init[t]; }
    }
  }

  /** Shifting under the first row after a prefix: the top row is copied and that row dropped. */
  lemma ShiftAfterPrefix(h: Grid, top: seq<int>, r: Grid, w: Grid, rest: Grid)
    requires h == r + (w + rest) && |rest| > 0 && h[0] == top
    ensures ShiftDown(h, |r| + |w|) == ([top] + r) + (w + rest[1..])
  {
    assert h == (r + w) + rest;
    ShiftDownRemoves(h, |r| + |w|);
    RemoveFirstOfTail(r + w, rest);
    assert [top] + ((r + w) + rest[1..]) == ([top] + r) + (w + rest[1..]);
  }

  /** The shifts never change row 0. */
  lemma {:induction false} ShiftAllTop(g: Grid, ks: seq<int>)
    requires |g| > 0 && Below(ks, |g|)
    ensures ShiftAll(g, ks)[0] == g[0]
    decreases |ks|
  {
    if ks != [] {
      ShiftAllTop(g, ks[..|ks| - 1]);
    }
  }

  /** Removing the first row after a prefix. */
  lemma RemoveFirstOfTail(a: Grid, b: Grid)
    requires |b| > 0
    ensures RemoveAt(a + b, |a|) == a + b[1..]
  {
    assert (a + b)[..|a|] == a;
    assert (a + b)[|a| + 1..] == b[1..];
  }

  /** Rows at or below an index greater than all of `ks` are untouched by their removal. */
  lemma SplitAtLast(g: Grid, ks: seq<int>, k: int)
    requires 0 <= k < |g| && Ascending(ks) && Indices(ks, k)
    ensures Without(g, ks) == Without(g[..k], ks) + g[k..]
    ensures |Without(g[..k], ks)| == k - |ks|
  {
    WithoutAppend(g[..k], g[k..], ks);
    assert g[..k] + g[k..] == g;
  }

  /** Removing rows ignores what those rows held. */
  lemma {:induction false} WithoutIgnoresRemoved(g: Grid, h: Grid, ks: seq<int>)
    requires |g| == |h| && Ascending(ks) && Indices(ks, |g|)
    requires forall i :: 0 <= i < |g| && i !in ks ==> g[i] == h[i]
    ensures Without(g, ks) == Without(h, ks)
    decreases |ks|
  {
    if ks != [] {
      var k := ks[|ks| - 1];
      var init := ks[..|ks| - 1];
      forall i | 0 <= i < |g| - 1 && i !in init
        ensures RemoveAt(g, k)[i] == RemoveAt(h, k)[i]
      {
        if i < k {
          assert i !in ks;
        } else {
          assert i + 1 !in ks;
        }
      }
      WithoutIgnoresRemoved(RemoveAt(g, k), RemoveAt(h, k), init);
    }
  }

  /** What the line check does to a field: as many copies of the (emptied if full) top row as
      there were full rows, then the rows that were not full, in their order. */
  lemma LineCheckCompacts(g: Grid)
    requires |g| > 0
    ensures AfterLineCheck(g) ==
      Repeat(ClearedRows(g)[0], |FullRows(g)|) + Without(g, FullRows(g))
  {
    var ks := FullRows(g);
    ShiftAllCompacts(ClearedRows(g), ks);
    WithoutIgnoresRemoved(ClearedRows(g), g, ks);
  }
}
