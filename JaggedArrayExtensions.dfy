/** Matrices of colour ids and the deep copy that keeps pieces from sharing storage.

    The game stores every matrix (the field and each piece) as a jagged `int[][]` whose rows
    are always of one length; here such a matrix is an `array2<int>`, and its contents as a
    value are a `Grid`, the sequence of its rows. */
module JaggedArrayExtensions {

  /** The contents of a matrix: a sequence of rows. */
  type Grid = seq<seq<int>>

  /** `g` has `rows` rows of `cols` entries each. */
  predicate IsGrid(g: Grid, rows: int, cols: int) {
    |g| == rows && forall i :: 0 <= i < |g| ==> |g[i]| == cols
  }

  /** The rows of the array `m`, as a value. */
  function Rows(m: array2<int>): (g: Grid)
    reads m
    ensures IsGrid(g, m.Length0, m.Length1)
    ensures forall i, j :: 0 <= i < m.Length0 && 0 <= j < m.Length1 ==> g[i][j] == m[i, j]
  {
    seq(m.Length0, i requires 0 <= i < m.Length0 reads m =>
      seq(m.Length1, j requires 0 <= j < m.Length1 reads m => m[i, j]))
  }

  /** Two grids of the same shape are equal when they agree cell by cell. */
  lemma GridsEqual(a: Grid, b: Grid, rows: int, cols: int)
    requires IsGrid(a, rows, cols) && IsGrid(b, rows, cols)
    requires forall i, j :: 0 <= i < rows && 0 <= j < cols ==> a[i][j] == b[i][j]
    ensures a == b
  {
    forall i | 0 <= i < rows
      ensures a[i] == b[i]
    {
      assert |a[i]| == cols && |b[i]| == cols;
    }
  }

  /** The matrix `m` holds exactly the grid `g`. */
  lemma RowsAre(m: array2<int>, g: Grid)
    requires IsGrid(g, m.Length0, m.Length1)
    requires forall i, j :: 0 <= i < m.Length0 && 0 <= j < m.Length1 ==> m[i, j] == g[i][j]
    ensures Rows(m) == g
  {
    GridsEqual(Rows(m), g, m.Length0, m.Length1);
  }

  /** GetMatrixCopy: a deep copy. The copy is new storage of the same shape holding the same
      entries, so writing into it can never change `m`, which is itself left untouched. */
  method GetMatrixCopy(m: array2<int>) returns (c: array2<int>)
    ensures fresh(c)
    ensures c.Length0 == m.Length0 && c.Length1 == m.Length1
    ensures Rows(c) == Rows(m)
  {
    c := new int[m.Length0, m.Length1];
    var i := 0;
    while i < m.Length0
      invariant 0 <= i <= m.Length0
      invariant forall a, b :: 0 <= a < i && 0 <= b < m.Length1 ==> c[a, b] == m[a, b]
    {
      var j := 0;
      while j < m.Length1
        invariant 0 <= j <= m.Length1
        invariant forall a, b :: 0 <= a < i && 0 <= b < m.Length1 ==> c[a, b] == m[a, b]
        invariant forall b :: 0 <= b < j ==> c[i, b] == m[i, b]
      {
        c[i, j] := m[i, j];
        j := j + 1;
      }
      i := i + 1;
    }
    RowsAre(c, Rows(m));
  }

  /** New storage holding the grid `g` (used to copy a matrix out of the constant catalogue). */
  method NewMatrix(g: Grid, rows: nat, cols: nat) returns (m: array2<int>)
    requires IsGrid(g, rows, cols)
    ensures fresh(m)
    ensures m.Length0 == rows && m.Length1 == cols
    ensures Rows(m) == g
  {
    m := new int[rows, cols];
    var i := 0;
    while i < rows
      invariant 0 <= i <= rows
      invariant forall a, b :: 0 <= a < i && 0 <= b < cols ==> m[a, b] == g[a][b]
    {
      var j := 0;
      while j < cols
        invariant 0 <= j <= cols
        invariant forall a, b :: 0 <= a < i && 0 <= b < cols ==> m[a, b] == g[a][b]
        invariant forall b :: 0 <= b < j ==> m[i, b] == g[i][b]
      {
        m[i, j] := g[i][j];
        j := j + 1;
      }
      i := i + 1;
    }
    RowsAre(m, g);
  }

  /** The multiset of all entries of a grid. */
  function Entries(g: Grid): multiset<int> {
    if g == [] then multiset{} else Entries(g[..|g| - 1]) + multiset(g[|g| - 1])
  }

  /** The number of nonzero entries of a row. */
  function NonzeroCount(row: seq<int>): nat {
    if row == [] then 0 else NonzeroCount(row[..|row| - 1]) + (if row[|row| - 1] != 0 then 1 else 0)
  }

  /** The number of nonzero entries of a grid (the occupied cells of a piece). */
  function Occupancy(g: Grid): nat {
    if g == [] then 0 else Occupancy(g[..|g| - 1]) + NonzeroCount(g[|g| - 1])
  }

  /** The nonzero entries are the entries other than the zeros. */
  lemma {:induction false} NonzeroCountFromEntries(row: seq<int>)
    ensures NonzeroCount(row) + multiset(row)[0] == |row|
  {
    if row != [] {
      var n := |row| - 1;
      assert row == row[..n] + [row[n]];
      NonzeroCountFromEntries(row[..n]);
    }
  }

  lemma {:induction false} OccupancyFromEntries(g: Grid)
    ensures Occupancy(g) + Entries(g)[0] == |Entries(g)|
  {
    if g != [] {
      var n := |g| - 1;
      OccupancyFromEntries(g[..n]);
      NonzeroCountFromEntries(g[n]);
    }
  }

  /** Grids with the same entries have the same number of occupied cells. */
  lemma SameEntriesSameOccupancy(a: Grid, b: Grid)
    requires Entries(a) == Entries(b)
    ensures Occupancy(a) == Occupancy(b)
  {
    OccupancyFromEntries(a);
    OccupancyFromEntries(b);
  }

  lemma {:induction false} EntriesAppend(a: Grid, b: Grid)
    ensures Entries(a + b) == Entries(a) + Entries(b)
    decreases |b|
  {
    if b == [] {
      assert a + b == a;
    } else {
      var n := |b| - 1;
      assert (a + b)[..|a + b| - 1] == a + b[..n];
      assert (a + b)[|a + b| - 1] == b[n];
      EntriesAppend(a, b[..n]);
    }
  }
}
