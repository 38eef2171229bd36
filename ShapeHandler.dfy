/** Pieces: their value model, the anti-clockwise rotation, spawn placement with the
    one-resample anti-repeat rule, and the `Shape` and `ShapeHandler` objects the engine drives. */
module ShapeHandler {
  import opened JaggedArrayExtensions
  import opened Tetrominoes

  /** A piece as a value: the anchor (x, y) is the field position of the matrix's top-left
      corner, and `cells` is the `size` x `size` matrix of colour ids (0 is transparent). */
  datatype Piece = Piece(x: int, y: int, size: int, cells: Grid)

  predicate WellFormed(p: Piece) {
    IsGrid(p.cells, p.size, p.size)
  }

  /** Matrix cell (r, c) of `p` exists and is occupied. */
  predicate Occupies(p: Piece, r: int, c: int)
    requires WellFormed(p)
  {
    0 <= r < p.size && 0 <= c < p.size && p.cells[r][c] != 0
  }

  // ---------------------------------------------------------------------------------------
  // Rotation

  /** The anti-clockwise quarter turn of a square matrix: new[i][j] == old[j][n - 1 - i]. */
  function Rotated(g: Grid): Grid
    requires IsGrid(g, |g|, |g|)
  {
    var n := |g|;
    seq(n, i requires 0 <= i < n => seq(n, j requires 0 <= j < n => g[j][n - 1 - i]))
  }

  /** Rows and columns exchanged: `cols` rows of |g| entries. */
  function Transposed(g: Grid, cols: int): Grid
    requires cols >= 0 && IsGrid(g, |g|, cols)
  {
    seq(cols, j requires 0 <= j < cols => seq(|g|, i requires 0 <= i < |g| => g[i][j]))
  }

  /** The rows in the opposite order. */
  function Upended(g: Grid): Grid {
    seq(|g|, i requires 0 <= i < |g| => g[|g| - 1 - i])
  }

  /** A quarter turn is a transposition followed by upending the rows. */
  lemma RotatedIsUpendedTransposed(g: Grid)
    requires IsGrid(g, |g|, |g|)
    ensures Rotated(g) == Upended(Transposed(g, |g|))
  {
    var n := |g|;
    GridsEqual(Rotated(g), Upended(Transposed(g, n)), n, n);
  }

  lemma {:induction false} EntriesOfUpended(g: Grid)
    ensures Entries(Upended(g)) == Entries(g)
    decreases |g|
  {
    if g != [] {
      var n := |g| - 1;
      var front := g[..n];
      assert Upended(g) == [g[n]] + Upended(front);
      EntriesAppend([g[n]], Upended(front));
      assert [g[n]][..0] == [];
      EntriesOfUpended(front);
    }
  }

  /** A grid whose rows are all empty has no entries. */
  lemma {:induction false} EntriesOfEmptyRows(g: Grid)
    requires forall i :: 0 <= i < |g| ==> g[i] == []
    ensures Entries(g) == multiset{}
    decreases |g|
  {
    if g != [] {
      EntriesOfEmptyRows(g[..|g| - 1]);
    }
  }

  /** Appending one entry of `col` to each row of `a` adds the entries of `col`. */
  lemma {:induction false} EntriesOfWidened(a: Grid, col: seq<int>)
    requires |a| == |col|
    ensures Entries(seq(|a|, i requires 0 <= i < |a| => a[i] + [col[i]])) == Entries(a) + multiset(col)
    decreases |a|
  {
    var w := seq(|a|, i requires 0 <= i < |a| => a[i] + [col[i]]);
    if a != [] {
      var n := |a| - 1;
      var w' := seq(n, i requires 0 <= i < n => a[..n][i] + [col[..n][i]]);
      assert w[..n] == w';
      EntriesOfWidened(a[..n], col[..n]);
      assert col == col[..n] + [col[n]];
    }
  }

  lemma {:induction false} EntriesOfTransposed(g: Grid, cols: int)
    requires cols >= 0 && IsGrid(g, |g|, cols)
    ensures Entries(Transposed(g, cols)) == Entries(g)
    decreases |g|
  {
    if g == [] {
      EntriesOfEmptyRows(Transposed(g, cols));
    } else {
      var n := |g| - 1;
      var t := Transposed(g[..n], cols);
      EntriesOfTransposed(g[..n], cols);
      var w := seq(|t|, i requires 0 <= i < |t| => t[i] + [g[n][i]]);
      EntriesOfWidened(t, g[n]);
      assert IsGrid(w, cols, |g|);
      GridsEqual(Transposed(g, cols), w, cols, |g|);
    }
  }

  /** The rotation is a permutation of the cells: the multiset of entries is preserved, and
      with it the number of occupied cells. */
  lemma RotationPermutes(g: Grid)
    requires IsGrid(g, |g|, |g|)
    ensures Entries(Rotated(g)) == Entries(g)
    ensures Occupancy(Rotated(g)) == Occupancy(g)
  {
    RotatedIsUpendedTransposed(g);
    EntriesOfUpended(Transposed(g, |g|));
    EntriesOfTransposed(g, |g|);
    SameEntriesSameOccupancy(Rotated(g), g);
  }

  /** Two quarter turns are a half turn: new[i][j] == old[n - 1 - i][n - 1 - j]. */
  lemma HalfTurn(g: Grid)
    requires IsGrid(g, |g|, |g|)
    ensures IsGrid(Rotated(g), |g|, |g|)
    ensures var n := |g|;
      Rotated(Rotated(g)) == seq(n, i requires 0 <= i < n => seq(n, j requires 0 <= j < n => g[n - 1 - i][n - 1 - j]))
  {
    var n := |g|;
    GridsEqual(Rotated(Rotated(g)),
      seq(n, i requires 0 <= i < n => seq(n, j requires 0 <= j < n => g[n - 1 - i][n - 1 - j])), n, n);
  }

  /** Four successive rotations restore the original matrix. */
  lemma FullTurn(g: Grid)
    requires IsGrid(g, |g|, |g|)
    ensures Rotated(Rotated(Rotated(Rotated(g)))) == g
  {
    var n := |g|;
    HalfTurn(g);
    var h := Rotated(Rotated(g));
    HalfTurn(h);
    GridsEqual(Rotated(Rotated(h)), g, n, n);
  }

  /** Entry (i, j) of the rotated matrix is entry (j, n - 1 - i) of the original, n being its
      side. */
  lemma RotatedCells(g: Grid, i: int, j: int)
    requires IsGrid(g, |g|, |g|) && 0 <= i < |g| && 0 <= j < |g|
    ensures Rotated(g)[i][j] == g[j][|g| - 1 - i]
  {
  }

  // ---------------------------------------------------------------------------------------
  // Spawning

  /** The anchor row of a newly generated piece, by the side of its matrix. */
  function SpawnRow(size: int): int {
    if size == 3 then 1 else if size == 2 then 2 else 0
  }

  /** The piece generated from catalogue entry `k`: anchored at column 4 and at the row its
      size calls for, holding the entry's matrix. */
  function SpawnPiece(k: int): (p: Piece)
    requires 0 <= k < Count
    ensures WellFormed(p)
    ensures p.x == 4 && p.y == SpawnRow(p.size) && p.cells == TetrominoesList()[k].matrix
    ensures p.size == SideOf(TetrominoesList()[k].kind) && p.size in {2, 3, 4}
  {
    CatalogueWellFormed(k);
    var m := TetrominoesList()[k].matrix;
    Piece(4, SpawnRow(|m[0]|), |m[0]|, m)
  }

  /** Whatever its side, a generated piece has its topmost occupied cells on row 2 of the
      field: the anchor row chosen by size makes up for the empty top rows of the matrix. */
  lemma SpawnTopRow(k: int)
    requires 0 <= k < Count
    ensures forall r, c :: Occupies(SpawnPiece(k), r, c) ==> SpawnPiece(k).y + r >= 2
    ensures exists r, c :: Occupies(SpawnPiece(k), r, c) && SpawnPiece(k).y + r == 2
  {
    var p := SpawnPiece(k);
    if k == 0 {
      assert Occupies(p, 2, 0);
    } else if k == 1 {
      assert Occupies(p, 0, 0);
    } else {
      assert p.cells[0] == [0, 0, 0];
      assert Occupies(p, 1, 1);
    }
  }

  /** The anti-repeat rule: of two draws, the first is kept unless it repeats the previous
      index, in which case the second is taken even when it repeats too. So the chosen index
      is one of the draws, and it repeats the previous index only when both draws did. */
  function Choose(last: int, first: int, second: int): (k: int)
    ensures k == first || k == second
    ensures k == last <==> first == last && second == last
    ensures first != last ==> k == first
  {
    if first == last then second else first
  }

  // ---------------------------------------------------------------------------------------
  // Objects

  /** A piece on the board; the engine moves it by updating its fields in place. */
  class Shape {
    var X: int
    var Y: int
    var Size: int
    var Matrix: array2<int>

    ghost predicate Valid()
      reads this
    {
      Matrix.Length0 == Size && Matrix.Length1 == Size
    }

    /** The piece this object currently holds. */
    ghost function Value(): (p: Piece)
      reads this, Matrix
      requires Valid()
      ensures WellFormed(p)
    {
      Piece(X, Y, Size, Rows(Matrix))
    }

    constructor (x: int, y: int, size: int, matrix: array2<int>)
      ensures X == x && Y == y && Size == size && Matrix == matrix
    {
      X, Y, Size, Matrix := x, y, size, matrix;
    }

    /** This piece takes the anchor, size and a private copy of the matrix of `source`. */
    method TakeFrom(source: Shape)
      requires source.Valid() && source != this
      modifies this
      ensures Valid() && Value() == source.Value() && fresh(Matrix)
    {
      var copy := GetMatrixCopy(source.Matrix);
      X, Y, Matrix, Size := source.X, source.Y, copy, source.Size;
    }
  }

  /** Holds the falling piece and the look-ahead piece. */
  class ShapeHandler {
    var CurrentShape: Shape
    var NextShape: Shape
    /** The index chosen by the previous generation (process-wide in the game). */
    var lastShape: int

    ghost predicate Valid()
      reads this, CurrentShape, NextShape
    {
      && CurrentShape != NextShape
      && CurrentShape.Matrix != NextShape.Matrix
      && CurrentShape.Valid() && NextShape.Valid()
      && 0 <= lastShape < Count
    }

    /** Generates the piece for the current and then for the next slot; `lastShape` starts at
        0, the default of the game's static field. */
    constructor (first1: int, second1: int, first2: int, second2: int)
      requires 0 <= first1 < Count && 0 <= second1 < Count
      requires 0 <= first2 < Count && 0 <= second2 < Count
      ensures Valid()
      ensures fresh(CurrentShape) && fresh(CurrentShape.Matrix)
      ensures fresh(NextShape) && fresh(NextShape.Matrix)
      ensures CurrentShape.Value() == SpawnPiece(Choose(0, first1, second1))
      ensures lastShape == Choose(Choose(0, first1, second1), first2, second2)
      ensures NextShape.Value() == SpawnPiece(lastShape)
    {
      var current, k1 := GenerateShape(0, first1, second1);
      var next, k2 := GenerateShape(k1, first2, second2);
      CurrentShape, NextShape, lastShape := current, next, k2;
    }

    /** GenerateShape: picks an index from the draws by the anti-repeat rule and builds a new
        piece holding a private copy of that catalogue matrix, at its spawn position. The
        previous index goes in as `last` and the chosen index comes back. */
    static method GenerateShape(last: int, first: int, second: int) returns (shape: Shape, chosen: int)
      requires 0 <= first < Count && 0 <= second < Count
      ensures chosen == Choose(last, first, second) && 0 <= chosen < Count
      ensures fresh(shape) && fresh(shape.Matrix)
      ensures shape.Valid() && shape.Value() == SpawnPiece(chosen)
    {
      chosen := first;
      if chosen == last {
        chosen := second;
      }
      CatalogueWellFormed(chosen);
      var entry := TetrominoesList()[chosen].matrix;
      var side := SideOf(TetrominoesList()[chosen].kind);
      var matrix := NewMatrix(entry, side, side);
      shape := new Shape(4, 0, matrix.Length1, matrix);
      if shape.Size == 3 {
        shape.Y := 1;
      } else if shape.Size == 2 {
        shape.Y := 2;
      } else {
        shape.Y := 0;
      }
    }

    /** GenerateNextShape: the current piece takes the next piece's anchor, size and a private
        copy of its matrix, and a newly generated piece becomes the next one. */
    method GenerateNextShape(first: int, second: int)
      requires Valid()
      requires 0 <= first < Count && 0 <= second < Count
      modifies this, CurrentShape
      ensures Valid()
      ensures CurrentShape == old(CurrentShape)
      ensures CurrentShape.Value() == old(NextShape.Value())
      ensures fresh(CurrentShape.Matrix)
      ensures fresh(NextShape) && fresh(NextShape.Matrix)
      ensures lastShape == Choose(old(lastShape), first, second)
      ensures NextShape.Value() == SpawnPiece(lastShape)
    {
      CurrentShape.TakeFrom(NextShape);
      var next, k := GenerateShape(lastShape, first, second);
      NextShape, lastShape := next, k;
    }

    /** MoveDown: one row down; nothing else about the piece changes. */
    method MoveDown()
      modifies CurrentShape`Y
      ensures CurrentShape.Y == old(CurrentShape.Y) + 1
    {
      CurrentShape.Y := CurrentShape.Y + 1;
    }

    /** MoveLeft: one column left; nothing else about the piece changes. */
    method MoveLeft()
      modifies CurrentShape`X
      ensures CurrentShape.X == old(CurrentShape.X) - 1
    {
      CurrentShape.X := CurrentShape.X - 1;
    }

    /** MoveRight: one column right; nothing else about the piece changes. */
    method MoveRight()
      modifies CurrentShape`X
      ensures CurrentShape.X == old(CurrentShape.X) + 1
    {
      CurrentShape.X := CurrentShape.X + 1;
    }

    /** RotateAntiClockwise: turns the matrix of `shape` a quarter anti-clockwise in place, one
        concentric ring at a time, cycling the four cells of each ring position with three
        swaps. Only the matrix contents change. */
    method RotateAntiClockwise(shape: Shape)
      requires shape.Valid()
      modifies shape.Matrix
      ensures Rows(shape.Matrix) == Rotated(old(Rows(shape.Matrix)))
    {
      var m := shape.Matrix;
      var n := shape.Size;
      ghost var g := Rows(m);
      var totalNumOfLevels := n / 2;
      var level := 0;
      var last := n - 1;
      while level < totalNumOfLevels
        invariant 0 <= level <= n / 2 && last == n - 1 - level
        invariant forall r, s :: 0 <= r < n && 0 <= s < n ==>
          m[r, s] == Target(g, n, Ring(n, r, s) < level, r, s)
      {
        TurnRing(m, g, n, level);
        level := level + 1;
        last := last - 1;
      }
      AllRingsTurned(m, g, n);
    }

    /** Turns ring `level` of the n x n matrix `m` a quarter anti-clockwise, the rings inside
        it being done already: the inner loop of the rotation. */
    static method TurnRing(m: array2<int>, ghost g: Grid, n: int, level: int)
      requires m.Length0 == n && m.Length1 == n && IsGrid(g, n, n) && 0 <= level < n / 2
      requires forall r, s :: 0 <= r < n && 0 <= s < n ==>
        m[r, s] == Target(g, n, Ring(n, r, s) < level, r, s)
      modifies m
      ensures forall r, s :: 0 <= r < n && 0 <= s < n ==>
        m[r, s] == Target(g, n, Ring(n, r, s) < level + 1, r, s)
    {
      var last := n - 1 - level;
      var i := last;
      forall r, s | 0 <= r < n && 0 <= s < n
        ensures m[r, s] == Target(g, n, Rotates(n, level, i, r, s), r, s)
      {
        RingStart(n, level, r, s);
      }
      while i > level
        invariant level <= i <= last
        invariant forall r, s :: 0 <= r < n && 0 <= s < n ==>
          m[r, s] == Target(g, n, Rotates(n, level, i, r, s), r, s)
      {
        TurnStep(m, g, n, level, i);
        i := i - 1;
      }
      forall r, s | 0 <= r < n && 0 <= s < n
        ensures m[r, s] == Target(g, n, Ring(n, r, s) < level + 1, r, s)
      {
        RingEnd(n, level, r, s);
      }
    }

    /** One pass of the inner loop: the cycle at offset `i` of ring `level` moves its four
        cells a quarter turn. */
    static method TurnStep(m: array2<int>, ghost g: Grid, n: int, level: int, i: int)
      requires m.Length0 == n && m.Length1 == n && IsGrid(g, n, n)
      requires 0 <= level < i <= n - 1 - level
      requires forall r, s :: 0 <= r < n && 0 <= s < n ==>
        m[r, s] == Target(g, n, Rotates(n, level, i, r, s), r, s)
      modifies m
      ensures forall r, s :: 0 <= r < n && 0 <= s < n ==>
        m[r, s] == Target(g, n, Rotates(n, level, i - 1, r, s), r, s)
    {
      CycleFour(m, level, i, n - 1 - level);
      forall r, s | 0 <= r < n && 0 <= s < n
        ensures m[r, s] == Target(g, n, Rotates(n, level, i - 1, r, s), r, s)
      {
        CycleCells(n, level, i, r, s);
      }
    }

    /** One step of the rotation: the four cells (level, i), (last - i + level, level),
        (last, last - i + level) and (i, last) each take the value of the next one in that
        list, the last taking the first's, by three swaps; every other cell is unchanged. */
    static method CycleFour(m: array2<int>, level: int, i: int, last: int)
      requires 0 <= level < i <= last < m.Length0 && last < m.Length1
      modifies m
      ensures m[level, i] == old(m[i, last])
      ensures m[last - i + level, level] == old(m[level, i])
      ensures m[last, last - i + level] == old(m[last - i + level, level])
      ensures m[i, last] == old(m[last, last - i + level])
      ensures forall r, c :: 0 <= r < m.Length0 && 0 <= c < m.Length1 &&
                (r, c) != (level, i) && (r, c) != (last - i + level, level) &&
                (r, c) != (last, last - i + level) && (r, c) != (i, last)
                ==> m[r, c] == old(m[r, c])
    {
      Swap(m, level, i, last - i + level, level);
      Swap(m, level, i, last, last - i + level);
      Swap(m, level, i, i, last);
    }

    /** Exchanges two cells of a matrix. */
    static method Swap(m: array2<int>, r1: int, c1: int, r2: int, c2: int)
      requires 0 <= r1 < m.Length0 && 0 <= c1 < m.Length1
      requires 0 <= r2 < m.Length0 && 0 <= c2 < m.Length1
      modifies m
      ensures m[r1, c1] == old(m[r2, c2]) && m[r2, c2] == old(m[r1, c1])
      ensures forall r, c :: 0 <= r < m.Length0 && 0 <= c < m.Length1 && (r, c) != (r1, c1) && (r, c) != (r2, c2)
                ==> m[r, c] == old(m[r, c])
    {
      var temp := m[r1, c1];
      m[r1, c1] := m[r2, c2];
      m[r2, c2] := temp;
    }
  }

  /** The entry cell (r, s) of an n x n matrix holds part way through turning `g`: its rotated
      value once it has been moved, its original value before. */
  ghost function Target(g: Grid, n: int, moved: bool, r: int, s: int): int
    requires IsGrid(g, n, n) && 0 <= r < n && 0 <= s < n
  {
    if moved then g[s][n - 1 - r] else g[r][s]
  }

  /** Once every ring has been turned, the matrix holds the rotation of `g` (the centre cell
      of an odd side stays where it is, as the rotation leaves it). */
  lemma AllRingsTurned(m: array2<int>, g: Grid, n: int)
    requires m.Length0 == n && m.Length1 == n && IsGrid(g, n, n)
    requires forall r, s :: 0 <= r < n && 0 <= s < n ==> m[r, s] == Target(g, n, Ring(n, r, s) < n / 2, r, s)
    ensures Rows(m) == Rotated(g)
  {
    forall r, s | 0 <= r < n && 0 <= s < n
      ensures m[r, s] == Rotated(g)[r][s]
    {
      if Ring(n, r, s) >= n / 2 {
        assert r == s == n - 1 - r;
      }
    }
    RowsAre(m, Rotated(g));
  }

  /** The concentric ring of an n x n matrix that cell (r, s) lies on (0 is the outermost). */
  ghost function Ring(n: int, r: int, s: int): int {
    var a := if r < s then r else s;
    var b := if n - 1 - r < n - 1 - s then n - 1 - r else n - 1 - s;
    if a < b then a else b
  }

  /** For a cell on ring `level`, the column of the top-edge cell whose four-cell cycle it
      belongs to: the rotation loop handles that cycle when its index equals this column. */
  ghost function Cycle(n: int, level: int, r: int, s: int): int {
    var last := n - 1 - level;
    if r == level && s > level then s
    else if s == level && r < last then n - 1 - r
    else if r == last && s < last then n - 1 - s
    else r
  }

  /** On ring `level` (not the centre), cycle indices run from level + 1 to n - 1 - level. */
  lemma CycleRange(n: int, level: int, r: int, s: int)
    requires 0 <= level < n / 2 && 0 <= r < n && 0 <= s < n && Ring(n, r, s) == level
    ensures level < Cycle(n, level, r, s) <= n - 1 - level
  {
  }

  /** The cells of ring `level` with cycle index i are exactly the four cells one step of the
      rotation loop exchanges. */
  lemma CycleCells(n: int, level: int, i: int, r: int, s: int)
    requires 0 <= level && level < i <= n - 1 - level && 0 <= r < n && 0 <= s < n
    ensures var last := n - 1 - level;
      (Ring(n, r, s) == level && Cycle(n, level, r, s) == i) <==>
      ((r, s) == (level, i) || (r, s) == (last - i + level, level) ||
       (r, s) == (last, last - i + level) || (r, s) == (i, last))
  {
  }

  /** Before the first step on ring `level`, exactly the cells of the inner-done rings count
      as moved. */
  lemma RingStart(n: int, level: int, r: int, s: int)
    requires 0 <= level < n / 2 && 0 <= r < n && 0 <= s < n
    ensures Rotates(n, level, n - 1 - level, r, s) == (Ring(n, r, s) < level)
  {
    if Ring(n, r, s) == level { CycleRange(n, level, r, s); }
  }

  /** After the last step on ring `level`, the whole ring counts as moved. */
  lemma RingEnd(n: int, level: int, r: int, s: int)
    requires 0 <= level < n / 2 && 0 <= r < n && 0 <= s < n
    ensures Rotates(n, level, level, r, s) == (Ring(n, r, s) < level + 1)
  {
    if Ring(n, r, s) == level { CycleRange(n, level, r, s); }
  }

  /** Cell (r, s) already holds its rotated value when the inner loop is at index i of ring
      `level`: its ring is done, or its cycle on the current ring is. */
  ghost predicate Rotates(n: int, level: int, i: int, r: int, s: int) {
    Ring(n, r, s) < level || (Ring(n, r, s) == level && Cycle(n, level, r, s) > i)
  }
}
