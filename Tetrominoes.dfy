/** The constant catalogue of the seven tetrominoes, filled once and never changed. */
module Tetrominoes {
  import opened JaggedArrayExtensions

  datatype TetrominoType = None | IType | OType | TType | SType | ZType | JType | LType

  /** A catalogue entry: a square matrix of colour ids (0 is a transparent cell) and its type. */
  datatype Tetromino = Tetromino(matrix: Grid, kind: TetrominoType)

  /** The number of catalogue entries, the range of a random draw. */
  const Count: int := 7

  /** Colour ids used anywhere in a piece or on the field. */
  predicate IsColour(v: int) { 0 <= v <= 7 }

  /** The side of the square matrix of each type. */
  function SideOf(kind: TetrominoType): int {
    match kind
    case IType => 4
    case OType => 2
    case None => 0
    case _ => 3
  }

  /** Entry `k` of the catalogue is well formed: a square matrix of the side its type calls
      for, with exactly four occupied cells, all of colour `k + 1`. */
  predicate WellFormedEntry(t: Tetromino, k: int) {
    && IsGrid(t.matrix, SideOf(t.kind), SideOf(t.kind))
    && Occupancy(t.matrix) == 4
    && forall i, j :: 0 <= i < |t.matrix| && 0 <= j < |t.matrix[i]| ==>
         t.matrix[i][j] == 0 || t.matrix[i][j] == k + 1
  }

  const I: Tetromino := Tetromino([[0, 0, 0, 0],
                                   [0, 0, 0, 0],
                                   [1, 1, 1, 1],
                                   [0, 0, 0, 0]], IType)
  const O: Tetromino := Tetromino([[2, 2],
                                   [2, 2]], OType)
  const T: Tetromino := Tetromino([[0, 0, 0],
                                   [3, 3, 3],
                                   [0, 3, 0]], TType)
  const S: Tetromino := Tetromino([[0, 0, 0],
                                   [4, 4, 0],
                                   [0, 4, 4]], SType)
  const Z: Tetromino := Tetromino([[0, 0, 0],
                                   [0, 5, 5],
                                   [5, 5, 0]], ZType)
  const J: Tetromino := Tetromino([[0, 0, 0],
                                   [6, 6, 6],
                                   [0, 0, 6]], JType)
  const L: Tetromino := Tetromino([[0, 0, 0],
                                   [7, 7, 7],
                                   [7, 0, 0]], LType)

  /** The catalogue, in the order I, O, T, S, Z, J, L. */
  function TetrominoesList(): (list: seq<Tetromino>)
    ensures |list| == Count
    ensures list[0].kind == IType && list[1].kind == OType && list[2].kind == TType
    ensures list[3].kind == SType && list[4].kind == ZType && list[5].kind == JType
    ensures list[6].kind == LType
  {
    [I, O, T, S, Z, J, L]
  }

  /** Every entry of the catalogue is well formed. */
  lemma CatalogueWellFormed(k: int)
    requires 0 <= k < Count
    ensures WellFormedEntry(TetrominoesList()[k], k)
  {
    EntriesWellFormed();
  }

  lemma EntriesWellFormed()
    ensures WellFormedEntry(I, 0) && WellFormedEntry(O, 1) && WellFormedEntry(T, 2)
    ensures WellFormedEntry(S, 3) && WellFormedEntry(Z, 4) && WellFormedEntry(J, 5)
    ensures WellFormedEntry(L, 6)
  {
    IWellFormed();
    OWellFormed();
    TWellFormed();
    SWellFormed();
    ZWellFormed();
    JWellFormed();
    LWellFormed();
  }

  lemma IWellFormed()
    ensures WellFormedEntry(I, 0)
  {
    GridOfThree([0, 0, 0, 0], [0, 0, 0, 0], [1, 1, 1, 1]);
    OccupancySnoc([[0, 0, 0, 0], [0, 0, 0, 0], [1, 1, 1, 1]], [0, 0, 0, 0]);
    assert [[0, 0, 0, 0], [0, 0, 0, 0], [1, 1, 1, 1]] + [[0, 0, 0, 0]] == I.matrix;
    RowOfFour(0, 0, 0, 0);
    RowOfFour(1, 1, 1, 1);
  }

  lemma OWellFormed()
    ensures WellFormedEntry(O, 1)
  {
    GridOfTwo([2, 2], [2, 2]);
    RowOfTwo(2, 2);
  }

  lemma TWellFormed()
    ensures WellFormedEntry(T, 2)
  {
    RowOfThree(3, 3, 3);
    RowOfThree(0, 3, 0);
    ThreeWide(T, 2, [0, 0, 0], [3, 3, 3], [0, 3, 0]);
  }

  lemma SWellFormed()
    ensures WellFormedEntry(S, 3)
  {
    RowOfThree(4, 4, 0);
    RowOfThree(0, 4, 4);
    ThreeWide(S, 3, [0, 0, 0], [4, 4, 0], [0, 4, 4]);
  }

  lemma ZWellFormed()
    ensures WellFormedEntry(Z, 4)
  {
    RowOfThree(0, 5, 5);
    RowOfThree(5, 5, 0);
    ThreeWide(Z, 4, [0, 0, 0], [0, 5, 5], [5, 5, 0]);
  }

  lemma JWellFormed()
    ensures WellFormedEntry(J, 5)
  {
    RowOfThree(6, 6, 6);
    RowOfThree(0, 0, 6);
    ThreeWide(J, 5, [0, 0, 0], [6, 6, 6], [0, 0, 6]);
  }

  lemma LWellFormed()
    ensures WellFormedEntry(L, 6)
  {
    RowOfThree(7, 7, 7);
    RowOfThree(7, 0, 0);
    ThreeWide(L, 6, [0, 0, 0], [7, 7, 7], [7, 0, 0]);
  }

  /** A three-wide entry whose top row is empty has as many occupied cells as its two lower rows. */
  lemma ThreeWide(t: Tetromino, k: int, a: seq<int>, b: seq<int>, c: seq<int>)
    requires t.matrix == [a, b, c] && a == [0, 0, 0] && |b| == 3 && |c| == 3
    requires SideOf(t.kind) == 3
    requires forall j :: 0 <= j < 3 ==> (b[j] == 0 || b[j] == k + 1) && (c[j] == 0 || c[j] == k + 1)
    requires NonzeroCount(b) + NonzeroCount(c) == 4
    ensures WellFormedEntry(t, k)
  {
    GridOfThree(a, b, c);
    RowOfThree(0, 0, 0);
  }

  function Occupied(v: int): nat { if v != 0 then 1 else 0 }

  lemma NonzeroCountSnoc(row: seq<int>, v: int)
    ensures NonzeroCount(row + [v]) == NonzeroCount(row) + Occupied(v)
  {
    assert (row + [v])[..|row|] == row;
  }

  lemma OccupancySnoc(g: Grid, row: seq<int>)
    ensures Occupancy(g + [row]) == Occupancy(g) + NonzeroCount(row)
  {
    assert (g + [row])[..|g|] == g;
  }

  lemma RowOfTwo(a: int, b: int)
    ensures NonzeroCount([a, b]) == Occupied(a) + Occupied(b)
  {
    NonzeroCountSnoc([], a);
    assert [] + [a] == [a];
    NonzeroCountSnoc([a], b);
    assert [a] + [b] == [a, b];
  }

  lemma RowOfThree(a: int, b: int, c: int)
    ensures NonzeroCount([a, b, c]) == Occupied(a) + Occupied(b) + Occupied(c)
  {
    RowOfTwo(a, b);
    NonzeroCountSnoc([a, b], c);
    assert [a, b] + [c] == [a, b, c];
  }

  lemma RowOfFour(a: int, b: int, c: int, d: int)
    ensures NonzeroCount([a, b, c, d]) == Occupied(a) + Occupied(b) + Occupied(c) + Occupied(d)
  {
    RowOfThree(a, b, c);
    NonzeroCountSnoc([a, b, c], d);
    assert [a, b, c] + [d] == [a, b, c, d];
  }

  lemma GridOfTwo(a: seq<int>, b: seq<int>)
    ensures Occupancy([a, b]) == NonzeroCount(a) + NonzeroCount(b)
  {
    OccupancySnoc([], a);
    assert [] + [a] == [a];
    OccupancySnoc([a], b);
    assert [a] + [b] == [a, b];
  }

  lemma GridOfThree(a: seq<int>, b: seq<int>, c: seq<int>)
    ensures Occupancy([a, b, c]) == NonzeroCount(a) + NonzeroCount(b) + NonzeroCount(c)
  {
    GridOfTwo(a, b);
    OccupancySnoc([a, b], c);
    assert [a, b] + [c] == [a, b, c];
  }

  /** Every entry of every catalogue matrix is a colour id. */
  lemma CatalogueColours(k: int, i: int, j: int)
    requires 0 <= k < Count
    requires 0 <= i < |TetrominoesList()[k].matrix| && 0 <= j < |TetrominoesList()[k].matrix[i]|
    ensures IsColour(TetrominoesList()[k].matrix[i][j])
  {
    CatalogueWellFormed(k);
  }
}
