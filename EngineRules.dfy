/** The rules of the engine on values: the field, where a piece may go, what drawing and
    clearing a piece do to the field, scoring, levels and speed, and the game steps that the
    `Engine` object carries out in place. */
module EngineRules {
  import opened JaggedArrayExtensions
  import opened Tetrominoes
  import opened ShapeHandler
  import opened LineClearing

  /** The field: 23 rows of 10 cells; the top three rows are hidden above the visible board. */
  const Width: int := 10
  const Height: int := 23

  predicate IsField(f: Grid) { IsGrid(f, Height, Width) }

  predicate InField(r: int, c: int) { 0 <= r < Height && 0 <= c < Width }

  /** Every entry is a colour id. */
  predicate AllColours(g: Grid) {
    forall i, j :: 0 <= i < |g| && 0 <= j < |g[i]| ==> IsColour(g[i][j])
  }

  /** An empty field. */
  function EmptyField(): (f: Grid)
    ensures IsField(f) && AllColours(f)
    ensures forall i, j :: 0 <= i < Height && 0 <= j < Width ==> f[i][j] == 0
  {
    seq(Height, _ => EmptyRow(Width))
  }

  /** Field cell (i, j) lies under an occupied cell of `p`. */
  predicate Covers(p: Piece, i: int, j: int)
    requires WellFormed(p)
  {
    Occupies(p, i - p.y, j - p.x)
  }

  /** Every occupied cell of `p` lies on the field. */
  predicate Placed(p: Piece)
    requires WellFormed(p)
  {
    forall r, c | 0 <= r < p.size && 0 <= c < p.size :: Occupies(p, r, c) ==> InField(p.y + r, p.x + c)
  }

  /** No occupied cell of `p` lies above the top row of the field. */
  predicate NoneAboveTop(p: Piece)
    requires WellFormed(p)
  {
    forall r, c | 0 <= r < p.size && 0 <= c < p.size :: Occupies(p, r, c) ==> 0 <= p.y + r
  }

  /** The whole square of `p`, occupied or not, lies on the field. */
  predicate BoxInField(p: Piece) {
    0 <= p.y && p.y + p.size <= Height && 0 <= p.x && p.x + p.size <= Width
  }

  /** A newly generated piece: its square lies on the field, so it is placed, and its cells
      are colour ids. */
  lemma SpawnFits(k: int)
    requires 0 <= k < Count
    ensures BoxInField(SpawnPiece(k)) && Placed(SpawnPiece(k)) && AllColours(SpawnPiece(k).cells)
  {
    var p := SpawnPiece(k);
    forall i, j | 0 <= i < |p.cells| && 0 <= j < |p.cells[i]| ensures IsColour(p.cells[i][j]) {
      CatalogueColours(k, i, j);
    }
  }

  // ---------------------------------------------------------------------------------------
  // Drawing and clearing a piece

  /** ClearArea: every field cell under an occupied cell of `p` becomes empty. */
  function Erase(f: Grid, p: Piece): (g: Grid)
    requires IsField(f) && WellFormed(p)
    ensures IsField(g)
  {
    seq(Height, i requires 0 <= i < Height =>
      seq(Width, j requires 0 <= j < Width => if Covers(p, i, j) then 0 else f[i][j]))
  }

  /** DrawShape: every field cell under an occupied cell of `p` takes that cell's colour. */
  function Draw(f: Grid, p: Piece): (g: Grid)
    requires IsField(f) && WellFormed(p)
    ensures IsField(g)
  {
    seq(Height, i requires 0 <= i < Height =>
      seq(Width, j requires 0 <= j < Width =>
        if Covers(p, i, j) then p.cells[i - p.y][j - p.x] else f[i][j]))
  }

  /** Drawing a piece puts its colours exactly under its occupied cells and leaves every other
      cell alone. */
  lemma DrawPuts(f: Grid, p: Piece)
    requires IsField(f) && WellFormed(p) && Placed(p)
    ensures forall r, c | 0 <= r < p.size && 0 <= c < p.size :: Occupies(p, r, c) ==> Draw(f, p)[p.y + r][p.x + c] == p.cells[r][c]
    ensures forall i, j :: InField(i, j) && !Covers(p, i, j) ==> Draw(f, p)[i][j] == f[i][j]
  {
  }

  /** Clearing a piece just drawn gives the field as clearing it from the original. */
  lemma EraseDrawn(f: Grid, p: Piece)
    requires IsField(f) && WellFormed(p)
    ensures Erase(Draw(f, p), p) == Erase(f, p)
  {
    GridsEqual(Erase(Draw(f, p), p), Erase(f, p), Height, Width);
  }

  /** Drawing a piece over its cleared cells gives the field as drawing it directly. */
  lemma DrawErased(f: Grid, p: Piece)
    requires IsField(f) && WellFormed(p)
    ensures Draw(Erase(f, p), p) == Draw(f, p)
  {
    GridsEqual(Draw(Erase(f, p), p), Draw(f, p), Height, Width);
  }

  /** Drawing and clearing pieces of colour ids keep the field made of colour ids. */
  lemma DrawEraseKeepColours(f: Grid, p: Piece)
    requires IsField(f) && WellFormed(p) && AllColours(f) && AllColours(p.cells)
    ensures AllColours(Draw(f, p)) && AllColours(Erase(f, p))
  {
    forall i, j | 0 <= i < Height && 0 <= j < Width
      ensures IsColour(Draw(f, p)[i][j]) && IsColour(Erase(f, p)[i][j])
    {
      if Covers(p, i, j) {
        assert 0 <= j - p.x < |p.cells[i - p.y]|;
      }
    }
  }

  // ---------------------------------------------------------------------------------------
  // Where a piece may go

  /** CanMoveDown: below every occupied cell there is a field row, and that cell is empty. */
  predicate CanMoveDownRule(f: Grid, p: Piece)
    requires IsField(f) && WellFormed(p) && Placed(p)
  {
    forall r, c | 0 <= r < p.size && 0 <= c < p.size :: Occupies(p, r, c) ==> p.y + r + 1 < Height && f[p.y + r + 1][p.x + c] == 0
  }

  /** CanMoveHorizontal: next to every occupied cell, `d` columns over, there is a field
      column, and that cell is empty or belongs to the piece itself (the piece is still drawn
      when this is asked). */
  predicate CanMoveHorizontalRule(f: Grid, p: Piece, d: int)
    requires IsField(f) && WellFormed(p) && Placed(p)
  {
    forall r, c | 0 <= r < p.size && 0 <= c < p.size :: Occupies(p, r, c) ==>
      && 0 <= p.x + c + d < Width
      && (f[p.y + r][p.x + c + d] != 0 ==> 0 <= c + d < p.size && p.cells[r][c + d] != 0)
  }

  /** CanSpawn: no occupied cell of the piece lies on an occupied field cell. */
  predicate CanSpawnRule(f: Grid, p: Piece)
    requires IsField(f) && WellFormed(p) && Placed(p)
  {
    forall r, c | 0 <= r < p.size && 0 <= c < p.size :: Occupies(p, r, c) ==> f[p.y + r][p.x + c] == 0
  }

  /** IsRotateCorrect, with the row bound the game leaves out: every occupied cell of the
      turned piece lies on the field, on an empty cell. */
  predicate RotationFits(f: Grid, p: Piece)
    requires IsField(f) && WellFormed(p)
  {
    forall r, c | 0 <= r < p.size && 0 <= c < p.size :: Occupies(p, r, c) ==> InField(p.y + r, p.x + c) && f[p.y + r][p.x + c] == 0
  }

  function Down(p: Piece): Piece { p.(y := p.y + 1) }

  function Across(p: Piece, d: int): Piece { p.(x := p.x + d) }

  /** The piece `p` with its matrix turned a quarter anti-clockwise, at the same anchor. */
  function Turned(p: Piece): (t: Piece)
    requires WellFormed(p)
    ensures WellFormed(t) && t.x == p.x && t.y == p.y && t.size == p.size
  {
    p.(cells := Rotated(p.cells))
  }

  /** A piece allowed down is placed one row lower, on cells that are empty. */
  lemma DownLands(f: Grid, p: Piece)
    requires IsField(f) && WellFormed(p) && Placed(p) && CanMoveDownRule(f, p)
    ensures WellFormed(Down(p)) && Placed(Down(p)) && CanSpawnRule(f, Down(p))
  {
    var q := Down(p);
    forall r, c | Occupies(q, r, c) ensures InField(q.y + r, q.x + c) && f[q.y + r][q.x + c] == 0 {
      assert Occupies(p, r, c);
    }
  }

  /** A piece allowed sideways is placed `d` columns over, and once it is cleared from the
      field every cell it moves onto is empty: the check admits overlap only with itself. */
  lemma AcrossLands(f: Grid, p: Piece, d: int)
    requires IsField(f) && WellFormed(p) && Placed(p) && CanMoveHorizontalRule(f, p, d)
    ensures WellFormed(Across(p, d)) && Placed(Across(p, d))
    ensures CanSpawnRule(Erase(f, p), Across(p, d))
  {
    var q := Across(p, d);
    forall r, c | Occupies(q, r, c) ensures InField(q.y + r, q.x + c) {
      assert Occupies(p, r, c);
    }
    forall r, c | Occupies(q, r, c) ensures Erase(f, p)[q.y + r][q.x + c] == 0 {
      assert Occupies(p, r, c);
      if f[p.y + r][p.x + c + d] != 0 {
        assert Covers(p, q.y + r, q.x + c);
      }
    }
  }

  /** A turned piece that fits is placed. */
  lemma TurnedLands(f: Grid, p: Piece)
    requires IsField(f) && WellFormed(p) && RotationFits(f, Turned(p))
    ensures Placed(Turned(p)) && CanSpawnRule(f, Turned(p))
  {
  }

  /** Turning keeps the colours of the piece and its number of occupied cells. */
  lemma TurnedKeepsCells(p: Piece)
    requires WellFormed(p) && AllColours(p.cells)
    ensures AllColours(Turned(p).cells) && Occupancy(Turned(p).cells) == Occupancy(p.cells)
  {
    RotationPermutes(p.cells);
    forall i, j | 0 <= i < p.size && 0 <= j < p.size ensures IsColour(Turned(p).cells[i][j]) {
      RotatedCells(p.cells, i, j);
    }
  }

  // ---------------------------------------------------------------------------------------
  // Rotation check as the game writes it

  /** The outcome of the game's rotation check: it answers, or it indexes past the field and
      fails with an exception. */
  datatype Verdict = Accepted | Rejected | OutOfRange

  /** IsRotateCorrect as written: it scans the square of `p` row by row from cell (r, c); at
      an occupied cell it rejects a column off the field, then reads the field row without
      checking it, then rejects an occupied field cell. */
  function ScanFrom(f: Grid, p: Piece, r: nat, c: nat): (v: Verdict)
    requires IsField(f) && WellFormed(p) && r <= p.size && c <= p.size
    ensures v == OutOfRange ==>
      exists r', c' :: 0 <= r' < p.size && 0 <= c' < p.size && AtOrAfter(r', c', r, c) &&
        p.cells[r'][c'] != 0 && !(0 <= p.y + r' < Height)
    decreases p.size - r, p.size - c
  {
    if r == p.size then Accepted
    else if c == p.size then ScanFrom(f, p, r + 1, 0)
    else if p.cells[r][c] != 0 && !(0 <= p.x + c < Width) then Rejected
    else if p.cells[r][c] != 0 && !(0 <= p.y + r < Height) then OutOfRange
    else if p.cells[r][c] != 0 && f[p.y + r][p.x + c] != 0 then Rejected
    else ScanFrom(f, p, r, c + 1)
  }

  /** Cell (r, c) of `p` is empty or lies on an empty field cell. */
  predicate CellFits(f: Grid, p: Piece, r: int, c: int)
    requires IsField(f) && WellFormed(p) && 0 <= r < p.size && 0 <= c < p.size
  {
    p.cells[r][c] != 0 ==> InField(p.y + r, p.x + c) && f[p.y + r][p.x + c] == 0
  }

  /** Cell (r', c') comes at or after cell (r, c) in the scan. */
  predicate AtOrAfter(r': int, c': int, r: int, c: int) {
    r' > r || (r' == r && c' >= c)
  }

  /** Where the scan answers, its answer is whether all the cells it still has to visit fit. */
  lemma {:induction false} ScanAnswers(f: Grid, p: Piece, r: nat, c: nat)
    requires IsField(f) && WellFormed(p) && r <= p.size && c <= p.size
    ensures ScanFrom(f, p, r, c) != OutOfRange ==>
      (ScanFrom(f, p, r, c) == Accepted <==>
       forall r', c' :: 0 <= r' < p.size && 0 <= c' < p.size && AtOrAfter(r', c', r, c) ==>
         CellFits(f, p, r', c'))
    decreases p.size - r, p.size - c
  {
    if r == p.size {
    } else if c == p.size {
      ScanAnswers(f, p, r + 1, 0);
    } else if p.cells[r][c] != 0 && !(0 <= p.x + c < Width) {
      assert !CellFits(f, p, r, c);
    } else if p.cells[r][c] != 0 && !(0 <= p.y + r < Height) {
    } else if p.cells[r][c] != 0 && f[p.y + r][p.x + c] != 0 {
      assert !CellFits(f, p, r, c);
    } else {
      ScanAnswers(f, p, r, c + 1);
      assert CellFits(f, p, r, c);
    }
  }

  /** The corrected check is the game's check wherever the latter answers. */
  lemma RotationFitsAgrees(f: Grid, p: Piece)
    requires IsField(f) && WellFormed(p)
    ensures ScanFrom(f, p, 0, 0) != OutOfRange ==>
      (ScanFrom(f, p, 0, 0) == Accepted <==> RotationFits(f, p))
  {
    ScanAnswers(f, p, 0, 0);
    if RotationFits(f, p) {
      forall r', c' | 0 <= r' < p.size && 0 <= c' < p.size ensures CellFits(f, p, r', c') {
        if p.cells[r'][c'] != 0 { assert Occupies(p, r', c'); }
      }
    } else {
      var r', c' :| 0 <= r' < p.size && 0 <= c' < p.size && Occupies(p, r', c') &&
        !(InField(p.y + r', p.x + c') && f[p.y + r'][p.x + c'] == 0);
      assert !CellFits(f, p, r', c') && AtOrAfter(r', c', 0, 0);
    }
  }

  /** The scan passes over cells that fit. */
  lemma {:induction false} ScanSkips(f: Grid, p: Piece, r: nat, c: nat, r0: nat, c0: nat)
    requires IsField(f) && WellFormed(p) && r <= p.size && c <= p.size
    requires r0 < p.size && c0 < p.size && AtOrAfter(r0, c0, r, c)
    requires forall r', c' | 0 <= r' < p.size && 0 <= c' < p.size ::
               AtOrAfter(r', c', r, c) && !AtOrAfter(r', c', r0, c0) ==> CellFits(f, p, r', c')
    ensures ScanFrom(f, p, r, c) == ScanFrom(f, p, r0, c0)
    decreases p.size - r, p.size - c
  {
    if r == r0 && c == c0 {
    } else if c == p.size {
      ScanSkips(f, p, r + 1, 0, r0, c0);
    } else {
      assert CellFits(f, p, r, c);
      ScanSkips(f, p, r, c + 1, r0, c0);
    }
  }

  /** The I piece lying flat on the floor of an empty field (anchor row 20, its cells on the
      last row 22)... */
  function FlatI(): (p: Piece)
    ensures WellFormed(p)
  {
    Piece(4, 20, 4, I.matrix)
  }

  /** ...turned: a vertical bar in column 2 of its square, rows 0 to 3. */
  lemma FlatITurned()
    ensures Turned(FlatI()).cells == [[0, 0, 1, 0], [0, 0, 1, 0], [0, 0, 1, 0], [0, 0, 1, 0]]
  {
    var g := [[0, 0, 1, 0], [0, 0, 1, 0], [0, 0, 1, 0], [0, 0, 1, 0]];
    GridsEqual(Turned(FlatI()).cells, g, 4, 4);
  }

  /** The flat I piece got to the floor by the game's own fall: one row higher it may still
      move down, and on the floor it may not. */
  lemma FlatIReachesFloor()
    ensures Placed(FlatI()) && Placed(FlatI().(y := 19))
    ensures CanMoveDownRule(EmptyField(), FlatI().(y := 19))
    ensures !CanMoveDownRule(EmptyField(), FlatI())
  {
    assert Occupies(FlatI(), 2, 0);
  }

  /** The counterexample: turning the flat I piece on the floor of an empty field makes the
      game's check read field row 23, past the last row, and fail; the corrected check
      rejects the turn. */
  lemma TurnOnFloorOutOfRange()
    ensures ScanFrom(EmptyField(), Turned(FlatI()), 0, 0) == OutOfRange
    ensures !RotationFits(EmptyField(), Turned(FlatI()))
  {
    var p := Turned(FlatI());
    var f := EmptyField();
    FlatITurned();
    ScanSkips(f, p, 0, 0, 3, 2);
    assert Occupies(p, 3, 2);
  }

  // ---------------------------------------------------------------------------------------
  // Scoring, levels and speed

  /** C#'s integer division, which truncates toward zero, by a positive divisor: the
      remainder `a - q * b` has the sign of `a` and is smaller than `b` in size. */
  function Quot(a: int, b: int): (q: int)
    requires b > 0
    ensures a >= 0 ==> 0 <= a - q * b < b
    ensures a < 0 ==> -b < a - q * b <= 0
  {
    if a >= 0 then a / b else -((-a) / b)
  }

  /** AddPoints: 40, 100, 300 or 1200 times (level + 1) for one to four rows; nothing for
      any other count. */
  function Points(rows: int, level: int): int {
    if rows == 1 then 40 * (level + 1)
    else if rows == 2 then 100 * (level + 1)
    else if rows == 3 then 300 * (level + 1)
    else if rows == 4 then 1200 * (level + 1)
    else 0
  }

  /** At a level of zero or more, clearing more rows at once is worth strictly more, and
      every clear scores. */
  lemma PointsGrow(a: int, b: int, level: int)
    requires level >= 0 && 1 <= a < b <= 4
    ensures 0 < Points(a, level) < Points(b, level)
  {
  }

  /** ChangeSpeedDependingOnLevel: the tick interval in milliseconds for `level`; a negative
      level matches no case and keeps `current`. */
  function SpeedFor(level: int, current: int): (v: int)
    ensures level < 0 ==> v == current
    ensures level >= 0 ==> 10 <= v <= 480
    ensures level >= 29 ==> v == 10
  {
    if level == 0 then 480
    else if level == 1 then 430
    else if level == 2 then 380
    else if level == 3 then 330
    else if level == 4 then 280
    else if level == 5 then 230
    else if level == 6 then 180
    else if level == 7 then 130
    else if level == 8 then 80
    else if level == 9 then 60
    else if 10 <= level <= 12 then 50
    else if 13 <= level <= 15 then 40
    else if 16 <= level <= 18 then 30
    else if 19 <= level <= 28 then 20
    else if level >= 29 then 10
    else current
  }

  /** The game never slows down as the level rises. */
  lemma SpeedNeverSlows(a: int, b: int, x: int, y: int)
    requires 0 <= a <= b
    ensures SpeedFor(b, x) <= SpeedFor(a, y)
  {
  }

  // ---------------------------------------------------------------------------------------
  // The game state and its steps

  /** Everything the engine holds: the field (with the falling piece drawn on it or not), the
      falling and the next piece, the index of the last generated piece, the counters, the
      speed and the timer's interval and running flag. */
  datatype GameState = GameState(field: Grid, current: Piece, next: Piece, last: int,
                                 score: int, level: int, lines: int,
                                 speed: int, interval: int, running: bool)

  /** What every step keeps: a field of colour ids, a falling piece of colour ids on it, a
      next piece freshly generated from the last index, a count of rows that never went
      negative and a speed from the table. */
  predicate Inv(s: GameState) {
    && IsField(s.field) && AllColours(s.field)
    && WellFormed(s.current) && Placed(s.current) && AllColours(s.current.cells)
    && 0 <= s.last < Count && s.next == SpawnPiece(s.last)
    && s.lines >= 0 && 10 <= s.speed <= 480
  }

  /** ChangeSpeedDependingOnLevel, with the timer following the speed. */
  function SpeedChanged(s: GameState): GameState {
    var v := SpeedFor(s.level, s.speed);
    s.(speed := v, interval := v)
  }

  /** UpdateLevel: the level becomes the number of rows cleared divided by ten, and the speed
      is recomputed when that changes it. */
  function LevelUpdated(s: GameState): GameState {
    var current := Quot(s.lines, 10);
    if current != s.level then SpeedChanged(s.(level := current)) else s
  }

  /** CheckLines: when rows are full they are cleared and shifted, the points for them added
      at the current level, the row count raised and the level updated. */
  function LinesChecked(s: GameState): GameState {
    var k := |FullRows(s.field)|;
    if k == 0 then s
    else LevelUpdated(s.(field := AfterLineCheck(s.field), score := s.score + Points(k, s.level),
                         lines := s.lines + k))
  }

  /** The line check keeps a field a field of colour ids. */
  lemma LineCheckKeepsField(f: Grid)
    requires IsField(f) && AllColours(f)
    ensures IsField(AfterLineCheck(f)) && AllColours(AfterLineCheck(f))
  {
    var c := ClearedRows(f);
    assert forall i :: 0 <= i < |c| ==> |c[i]| == Width && forall j :: 0 <= j < |c[i]| ==> IsColour(c[i][j]);
    ShiftAllKeepsRows(c, FullRows(f), row => |row| == Width && forall j :: 0 <= j < |row| ==> IsColour(row[j]));
  }

  /** Update, one tick of the timer. The piece is cleared from the field; if it can move down
      it is drawn one row lower. Otherwise it is drawn back where it is and locks: the line
      check runs, the timer returns to the speed, and either the next piece cannot be placed
      (the game is over and the timer stops) or the next piece becomes the falling one and a
      new next piece is generated from the two draws. */
  function Tick(s: GameState, first: int, second: int): GameState
    requires Inv(s) && 0 <= first < Count && 0 <= second < Count
  {
    var f := Erase(s.field, s.current);
    if CanMoveDownRule(f, s.current) then
      var p := Down(s.current);
      s.(field := Draw(f, p), current := p)
    else
      var t := LinesChecked(s.(field := Draw(f, s.current)));
      var u := t.(interval := t.speed);
      SpawnFits(s.last);
      DrawEraseKeepColours(s.field, s.current);
      DrawEraseKeepColours(f, s.current);
      LineCheckKeepsField(Draw(f, s.current));
      if !CanSpawnRule(u.field, u.next) then u.(running := false)
      else
        var k := Choose(s.last, first, second);
        u.(current := u.next, next := SpawnPiece(k), last := k)
  }

  /** MoveLeft (d = -1) and MoveRight (d = 1): when allowed the piece is cleared and drawn
      `d` columns over; otherwise nothing changes. */
  function Moved(s: GameState, d: int): GameState
    requires Inv(s)
  {
    if CanMoveHorizontalRule(s.field, s.current, d) then
      var p := Across(s.current, d);
      s.(field := Draw(Erase(s.field, s.current), p), current := p)
    else s
  }

  /** RotateAntiClockwise: the piece is cleared; the turned piece replaces it when it fits on
      the cleared field; the falling piece is drawn. The fit test is the corrected check
      `RotationFits`: where a turned cell lies below the bottom row the game's own check
      (`ScanFrom`) reads outside the field and fails, while here the piece is kept. */
  function Turn(s: GameState): GameState
    requires Inv(s)
  {
    var f := Erase(s.field, s.current);
    var t := Turned(s.current);
    if RotationFits(f, t) then s.(field := Draw(f, t), current := t)
    else s.(field := Draw(f, s.current))
  }

  /** The state a new Engine starts in: an empty field, zero counters, speed 480, a stopped
      timer; the falling piece is generated from the first pair of draws after the index 0
      the handler starts from, and the next piece from the second pair. */
  function Opening(first1: int, second1: int, first2: int, second2: int): GameState
    requires 0 <= first1 < Count && 0 <= second1 < Count
    requires 0 <= first2 < Count && 0 <= second2 < Count
  {
    var k := Choose(0, first1, second1);
    var j := Choose(k, first2, second2);
    GameState(EmptyField(), SpawnPiece(k), SpawnPiece(j), j, 0, 0, 0, 480, 480, false)
  }

  /** StartNewGame: the counters restart at the chosen level with its speed, the field is
      emptied, the next piece starts falling and a new next piece is generated; the timer
      runs. */
  function Started(s: GameState, startLevel: int, first: int, second: int): GameState
    requires Inv(s) && 0 <= first < Count && 0 <= second < Count
  {
    var v := SpeedFor(startLevel, s.speed);
    var k := Choose(s.last, first, second);
    s.(level := startLevel, score := 0, lines := 0, speed := v, interval := v,
       field := EmptyField(), current := s.next, next := SpawnPiece(k), last := k, running := true)
  }

  // ---------------------------------------------------------------------------------------
  // What the steps keep and promise

  lemma LinesCheckedKeepsInv(s: GameState)
    requires Inv(s)
    ensures Inv(LinesChecked(s))
    ensures LinesChecked(s).next == s.next && LinesChecked(s).current == s.current
  {
    LineCheckKeepsField(s.field);
  }

  /** A tick keeps the invariant. */
  lemma TickKeepsInv(s: GameState, first: int, second: int)
    requires Inv(s) && 0 <= first < Count && 0 <= second < Count
    ensures Inv(Tick(s, first, second))
  {
    var f := Erase(s.field, s.current);
    DrawEraseKeepColours(s.field, s.current);
    if CanMoveDownRule(f, s.current) {
      DownLands(f, s.current);
      DrawEraseKeepColours(f, Down(s.current));
    } else {
      DrawEraseKeepColours(f, s.current);
      LinesCheckedKeepsInv(s.(field := Draw(f, s.current)));
      SpawnFits(s.last);
    }
  }

  /** A sideways move keeps the invariant. */
  lemma MovedKeepsInv(s: GameState, d: int)
    requires Inv(s)
    ensures Inv(Moved(s, d))
  {
    if CanMoveHorizontalRule(s.field, s.current, d) {
      AcrossLands(s.field, s.current, d);
      DrawEraseKeepColours(s.field, s.current);
      DrawEraseKeepColours(Erase(s.field, s.current), Across(s.current, d));
    }
  }

  /** A turn keeps the invariant, and an accepted turn keeps the number of occupied cells. */
  lemma TurnKeepsInv(s: GameState)
    requires Inv(s)
    ensures Inv(Turn(s))
    ensures Occupancy(Turn(s).current.cells) == Occupancy(s.current.cells)
  {
    var f := Erase(s.field, s.current);
    DrawEraseKeepColours(s.field, s.current);
    TurnedKeepsCells(s.current);
    if RotationFits(f, Turned(s.current)) {
      TurnedLands(f, s.current);
      DrawEraseKeepColours(f, Turned(s.current));
    } else {
      DrawEraseKeepColours(f, s.current);
    }
  }

  /** A new engine starts in a state that keeps the invariant. */
  lemma OpeningInv(first1: int, second1: int, first2: int, second2: int)
    requires 0 <= first1 < Count && 0 <= second1 < Count
    requires 0 <= first2 < Count && 0 <= second2 < Count
    ensures Inv(Opening(first1, second1, first2, second2))
  {
    SpawnFits(Choose(0, first1, second1));
  }

  /** Starting a game keeps the invariant. */
  lemma StartedKeepsInv(s: GameState, startLevel: int, first: int, second: int)
    requires Inv(s) && 0 <= first < Count && 0 <= second < Count
    ensures Inv(Started(s, startLevel, first, second))
  {
    SpawnFits(s.last);
  }

  /** When the piece locks, no full row is left on the field. */
  lemma LockLeavesNoFullRow(s: GameState, first: int, second: int)
    requires Inv(s) && 0 <= first < Count && 0 <= second < Count
    requires !CanMoveDownRule(Erase(s.field, s.current), s.current)
    ensures NoneFull(Tick(s, first, second).field)
  {
    var g := Draw(Erase(s.field, s.current), s.current);
    if |FullRows(g)| == 0 {
      assert NoneFull(g);
    } else {
      NoFullRowAfterLineCheck(g, Width);
    }
  }

  /** When the piece locks with `k` full rows on the field, the score rises by the points for
      `k` rows at the level before the lock, the row count by `k`, and the timer returns to
      the speed; with at least one row the level becomes the row count divided by ten. */
  lemma LockScores(s: GameState, first: int, second: int)
    requires Inv(s) && 0 <= first < Count && 0 <= second < Count
    requires !CanMoveDownRule(Erase(s.field, s.current), s.current)
    ensures var k := |FullRows(Draw(Erase(s.field, s.current), s.current))|;
      var t := Tick(s, first, second);
      && t.score == s.score + Points(k, s.level)
      && t.lines == s.lines + k
      && t.interval == t.speed
      && (k > 0 ==> t.level == t.lines / 10)
      && (k == 0 ==> t.level == s.level && t.speed == s.speed)
  {
  }

  /** A tick that moves the piece down changes nothing but the field and the piece's row. */
  lemma FallOnlyMovesPiece(s: GameState, first: int, second: int)
    requires Inv(s) && 0 <= first < Count && 0 <= second < Count
    requires CanMoveDownRule(Erase(s.field, s.current), s.current)
    ensures var t := Tick(s, first, second);
      && t.current == Down(s.current)
      && t == s.(field := t.field, current := t.current)
  {
  }

  /** The level is recomputed from the row count alone, so it can fall below the level the
      game was started at: started at level 5, the first cleared row sets the level to 0 and
      the speed back to the slowest. */
  lemma LevelCanFall(s: GameState)
    requires Inv(s) && s.level == 5 && s.lines == 0 && |FullRows(s.field)| == 1
    ensures LinesChecked(s).level == 0 && LinesChecked(s).speed == 480
  {
  }

  /** A negative start level keeps whatever speed the previous game ended at. */
  lemma NegativeStartKeepsSpeed(s: GameState, startLevel: int, first: int, second: int)
    requires Inv(s) && 0 <= first < Count && 0 <= second < Count && startLevel < 0
    ensures Started(s, startLevel, first, second).speed == s.speed
  {
  }

  /** Four accepted turns in a row bring the piece back to its original matrix. */
  lemma FourTurns(p: Piece)
    requires WellFormed(p)
    ensures Turned(Turned(Turned(Turned(p)))) == p
  {
    FullTurn(p.cells);
  }
}
