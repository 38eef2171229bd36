/** The game engine: the field, the counters, the speed and the timer as fields of one object
    that the timer and the keys drive. Every method is proved to carry out, in place, the step
    of `EngineRules` named in its contract, and to keep the engine valid. */
module Engine {
  import opened JaggedArrayExtensions
  import opened Tetrominoes
  import opened ShapeHandler
  import opened LineClearing
  import opened EngineRules

  /** Cell (a, b) part way through a pass that turns `before` into `after`: its new value
      once the pass has visited it, its old value before. */
  ghost function Upto(before: Grid, after: Grid, visited: bool, a: int, b: int): int
    requires IsField(before) && IsField(after) && InField(a, b)
  {
    if visited then after[a][b] else before[a][b]
  }

  /** The occupied cell (r, c) of `p` may move one row down. */
  ghost predicate FreeBelow(f: Grid, p: Piece, r: int, c: int)
    requires IsField(f) && WellFormed(p) && Placed(p) && Occupies(p, r, c)
  {
    p.y + r + 1 < Height && f[p.y + r + 1][p.x + c] == 0
  }

  /** The occupied cell (r, c) of `p` may move `d` columns over. */
  ghost predicate FreeAcross(f: Grid, p: Piece, d: int, r: int, c: int)
    requires IsField(f) && WellFormed(p) && Placed(p) && Occupies(p, r, c)
  {
    && 0 <= p.x + c + d < Width
    && (f[p.y + r][p.x + c + d] != 0 ==> 0 <= c + d < p.size && p.cells[r][c + d] != 0)
  }

  /** The occupied cell (r, c) of `p` lies on an empty field cell. */
  ghost predicate FreeAt(f: Grid, p: Piece, r: int, c: int)
    requires IsField(f) && WellFormed(p) && Occupies(p, r, c)
  {
    InField(p.y + r, p.x + c) && f[p.y + r][p.x + c] == 0
  }

  /** A new 23 x 10 field of empty cells. */
  method NewField() returns (m: array2<int>)
    ensures fresh(m) && m.Length0 == Height && m.Length1 == Width
    ensures Rows(m) == EmptyField()
  {
    m := new int[Height, Width]((i, j) => 0);
    RowsAre(m, EmptyField());
  }

  class Engine {
    const field: array2<int>
    const shapeHandler: ShapeHandler
    var speed: int
    /** The timer's interval in milliseconds. */
    var interval: int
    /** Whether the timer is started. */
    var running: bool
    var score: int
    var level: int
    var linesCleared: int

    /** The game as a value. */
    ghost function State(): GameState
      reads this, field, shapeHandler, shapeHandler.CurrentShape, shapeHandler.NextShape
      reads shapeHandler.CurrentShape.Matrix, shapeHandler.NextShape.Matrix
      requires shapeHandler.Valid()
    {
      GameState(Rows(field), shapeHandler.CurrentShape.Value(), shapeHandler.NextShape.Value(),
                shapeHandler.lastShape, score, level, linesCleared, speed, interval, running)
    }

    /** The field is 23 x 10 and shares no storage with the pieces, which the handler keeps
        apart. */
    ghost predicate Sound()
      reads this, shapeHandler, shapeHandler.CurrentShape, shapeHandler.NextShape
    {
      && field.Length0 == Height && field.Length1 == Width
      && shapeHandler.Valid()
      && field != shapeHandler.CurrentShape.Matrix && field != shapeHandler.NextShape.Matrix
    }

    /** A sound engine whose game, as a value, keeps the invariant of `EngineRules`. */
    ghost predicate Valid()
      reads this, field, shapeHandler, shapeHandler.CurrentShape, shapeHandler.NextShape
      reads shapeHandler.CurrentShape.Matrix, shapeHandler.NextShape.Matrix
    {
      Sound() && Inv(State())
    }

    /** The field has the game's dimensions and shares no storage with `shape`. */
    ghost predicate Holds(shape: Shape)
      reads this, shape
    {
      field.Length0 == Height && field.Length1 == Width && shape.Valid() && field != shape.Matrix
    }

    /** An empty field, the starting counters and speed, a stopped timer, and the first two
        pieces generated from the four draws. */
    constructor (first1: int, second1: int, first2: int, second2: int)
      requires 0 <= first1 < Count && 0 <= second1 < Count
      requires 0 <= first2 < Count && 0 <= second2 < Count
      ensures Valid()
      ensures fresh(field) && fresh(shapeHandler)
      ensures State() == Opening(first1, second1, first2, second2)
    {
      shapeHandler := new ShapeHandler(first1, second1, first2, second2);
      var cells := NewField();
      field := cells;
      speed := 480;
      score := 0;
      level := 0;
      linesCleared := 0;
      interval := 480;
      running := false;
      new;
      assert State() == Opening(first1, second1, first2, second2);
      OpeningInv(first1, second1, first2, second2);
    }

    /** StartNewGame: the counters restart at `startLevel` with its speed, the field is
        emptied, the next piece starts falling and the timer runs. */
    method StartNewGame(startLevel: int, first: int, second: int)
      requires Valid() && 0 <= first < Count && 0 <= second < Count
      modifies this, field, shapeHandler, shapeHandler.CurrentShape
      ensures Valid()
      ensures State() == Started(old(State()), startLevel, first, second)
    {
      ghost var s := State();
      ResetCounters(startLevel);
      InitializeField();
      SpawnNewShape(first, second);
      Resume();
      StartedKeepsInv(s, startLevel, first, second);
    }

    /** The first half of StartNewGame: the level, the score, the row count and the speed
        restart. */
    method ResetCounters(startLevel: int)
      requires Sound()
      modifies this
      ensures Sound()
      ensures var v := SpeedFor(startLevel, old(speed));
        State() == old(State()).(level := startLevel, score := 0, lines := 0, speed := v, interval := v)
    {
      level := startLevel;
      score := 0;
      linesCleared := 0;
      ChangeSpeedDependingOnLevel();
    }

    /** InitializeField: every cell empty. */
    method InitializeField()
      requires Sound()
      modifies field
      ensures Sound() && State() == old(State()).(field := EmptyField())
    {
      var i := 0;
      while i < Height
        invariant 0 <= i <= Height
        invariant forall a, b :: InField(a, b) && a < i ==> field[a, b] == 0
      {
        ClearRow(i);
        i := i + 1;
      }
      RowsAre(field, EmptyField());
    }

    /** Pause: the timer stops. */
    method Pause()
      requires Sound()
      modifies this`running
      ensures Sound() && State() == old(State()).(running := false)
      ensures old(Valid()) ==> Valid()
    {
      running := false;
    }

    /** Resume: the timer runs. */
    method Resume()
      requires Sound()
      modifies this`running
      ensures Sound() && State() == old(State()).(running := true)
      ensures old(Valid()) ==> Valid()
    {
      running := true;
    }

    /** Update, one tick of the timer (see `Tick`). */
    method Update(first: int, second: int)
      requires Valid() && 0 <= first < Count && 0 <= second < Count
      modifies this, field, shapeHandler, shapeHandler.CurrentShape
      ensures Valid()
      ensures State() == Tick(old(State()), first, second)
    {
      ghost var s := State();
      ClearArea();
      var down := CanMoveDown();
      if down {
        Fall(s, first, second);
      } else {
        Settle(s, first, second);
      }
      TickKeepsInv(s, first, second);
    }

    /** Update when the piece can move down: it moves one row down and is drawn there. */
    method Fall(ghost s: GameState, ghost first: int, ghost second: int)
      requires Sound() && Inv(s) && State() == s.(field := Erase(s.field, s.current))
      requires CanMoveDownRule(Erase(s.field, s.current), s.current)
      requires 0 <= first < Count && 0 <= second < Count
      modifies field, shapeHandler.CurrentShape
      ensures Sound() && State() == Tick(s, first, second)
    {
      ghost var f := Erase(s.field, s.current);
      DownLands(f, s.current);
      shapeHandler.MoveDown();
      assert shapeHandler.CurrentShape.Value() == Down(s.current);
      DrawShape();
      assert State() == s.(field := Draw(f, Down(s.current)), current := Down(s.current));
    }

    /** Update when the piece cannot move down: it locks, full rows are cleared, and the
        next piece is spawned unless it does not fit. */
    method Settle(ghost s: GameState, first: int, second: int)
      requires Sound() && Inv(s) && State() == s.(field := Erase(s.field, s.current))
      requires !CanMoveDownRule(Erase(s.field, s.current), s.current)
      requires 0 <= first < Count && 0 <= second < Count
      modifies this, field, shapeHandler, shapeHandler.CurrentShape
      ensures Sound() && State() == Tick(s, first, second)
    {
      Lock(s);
      SpawnFits(s.last);
      SpawnOrEnd(first, second);
    }

    /** Update when the piece cannot move down, first half: the piece is drawn back and
        locks, the line check runs and the timer returns to the speed. */
    method Lock(ghost s: GameState)
      requires Sound() && Inv(s) && State() == s.(field := Erase(s.field, s.current))
      modifies this, field
      ensures Sound()
      ensures var t := LinesChecked(s.(field := Draw(Erase(s.field, s.current), s.current)));
        State() == t.(interval := t.speed)
    {
      DrawShape();
      CheckLines();
      SetUpdateSpeed(speed);
    }

    /** Update when the piece cannot move down, second half: when the next piece cannot be
        placed the timer stops; otherwise the next piece falls and a new one is generated. */
    method SpawnOrEnd(first: int, second: int)
      requires Sound() && 0 <= first < Count && 0 <= second < Count
      requires shapeHandler.NextShape.Value() == SpawnPiece(shapeHandler.lastShape)
      requires BoxInField(shapeHandler.NextShape.Value()) && Placed(shapeHandler.NextShape.Value())
      modifies this, shapeHandler, shapeHandler.CurrentShape
      ensures Sound()
      ensures var u := old(State());
        if !CanSpawnRule(u.field, u.next) then State() == u.(running := false)
        else var k := Choose(u.last, first, second);
          State() == u.(current := u.next, next := SpawnPiece(k), last := k)
    {
      var spawn := CanSpawn();
      if !spawn {
        Pause();
        return;
      }
      SpawnNewShape(first, second);
    }

    /** SpawnNewShape: the next piece starts falling and a new next piece is generated. */
    method SpawnNewShape(first: int, second: int)
      requires Sound() && 0 <= first < Count && 0 <= second < Count
      modifies shapeHandler, shapeHandler.CurrentShape
      ensures Sound()
      ensures var k := Choose(old(shapeHandler.lastShape), first, second);
        State() == old(State()).(current := old(State()).next, next := SpawnPiece(k), last := k)
    {
      shapeHandler.GenerateNextShape(first, second);
    }

    /** CanSpawn: whether the next piece can be placed on the field. */
    method CanSpawn() returns (b: bool)
      requires Holds(shapeHandler.NextShape) && BoxInField(shapeHandler.NextShape.Value())
      requires Placed(shapeHandler.NextShape.Value())
      ensures b == CanSpawnRule(Rows(field), shapeHandler.NextShape.Value())
    {
      var shape := shapeHandler.NextShape;
      var x, y, size, matrix := shape.X, shape.Y, shape.Size, shape.Matrix;
      ghost var f := Rows(field);
      ghost var p := shape.Value();
      var i := y;
      while i < y + size
        invariant y <= i <= y + size
        invariant forall r, c | 0 <= r < size && 0 <= c < size ::
          Occupies(p, r, c) && y + r < i ==> f[y + r][x + c] == 0
      {
        var j := x;
        while j < x + size
          invariant x <= j <= x + size
          invariant forall r, c | 0 <= r < size && 0 <= c < size ::
            Occupies(p, r, c) && (y + r < i || (y + r == i && x + c < j)) ==> f[y + r][x + c] == 0
        {
          if field[i, j] != 0 && matrix[i - y, j - x] != 0 {
            assert Occupies(p, i - y, j - x);
            return false;
          }
          j := j + 1;
        }
        i := i + 1;
      }
      return true;
    }

    /** DrawShape: the falling piece is drawn on the field. */
    method DrawShape()
      requires Sound() && Placed(shapeHandler.CurrentShape.Value())
      modifies field
      ensures Sound()
      ensures State() == old(State()).(field := Draw(old(State()).field, old(State()).current))
    {
      var shape := shapeHandler.CurrentShape;
      ghost var f0 := Rows(field);
      ghost var f1 := Draw(f0, shape.Value());
      var i := shape.Y;
      while i < shape.Y + shape.Size
        invariant shape.Y <= i <= shape.Y + shape.Size
        invariant forall a, b :: InField(a, b) ==> field[a, b] == Upto(f0, f1, a < i, a, b)
      {
        DrawShapeRow(shape, i, f0);
        i := i + 1;
      }
      RowsAre(field, f1);
    }

    /** One row of DrawShape: the cells of row `i` under occupied cells of `shape` take
        their colours. */
    method DrawShapeRow(shape: Shape, i: int, ghost f0: Grid)
      requires Holds(shape) && Placed(shape.Value()) && IsField(f0)
      requires forall a, b :: InField(a, b) ==> field[a, b] == Upto(f0, Draw(f0, shape.Value()), a < i, a, b)
      modifies field
      ensures forall a, b :: InField(a, b) ==> field[a, b] == Upto(f0, Draw(f0, shape.Value()), a <= i, a, b)
    {
      var x, y, size, matrix := shape.X, shape.Y, shape.Size, shape.Matrix;
      ghost var p := shape.Value();
      ghost var f1 := Draw(f0, p);
      var j := x;
      while j < x + size
        invariant x <= j <= x + size
        invariant forall a, b :: InField(a, b) && a != i ==> field[a, b] == Upto(f0, f1, a < i, a, b)
        invariant 0 <= i < Height ==> forall b :: 0 <= b < Width ==> field[i, b] == Upto(f0, f1, b < j, i, b)
      {
        if 0 <= i - y < size && matrix[i - y, j - x] != 0 {
          assert Occupies(p, i - y, j - x);
          var colorNumber := matrix[i - y, j - x];
          field[i, j] := colorNumber;
        }
        j := j + 1;
      }
    }

    /** ClearArea: the falling piece is cleared from the field; cells of it below the field
        or beside it are skipped. */
    method ClearArea()
      requires Sound() && NoneAboveTop(shapeHandler.CurrentShape.Value())
      modifies field
      ensures Sound()
      ensures State() == old(State()).(field := Erase(old(State()).field, old(State()).current))
    {
      var shape := shapeHandler.CurrentShape;
      ghost var f0 := Rows(field);
      ghost var f1 := Erase(f0, shape.Value());
      var i := shape.Y;
      while i < shape.Y + shape.Size
        invariant shape.Y <= i <= shape.Y + shape.Size
        invariant forall a, b :: InField(a, b) ==> field[a, b] == Upto(f0, f1, a < i, a, b)
      {
        ClearAreaRow(shape, i, f0);
        i := i + 1;
      }
      RowsAre(field, f1);
    }

    /** One row of ClearArea: the cells of row `i` under occupied cells of `shape` become
        empty, when they are on the field. */
    method ClearAreaRow(shape: Shape, i: int, ghost f0: Grid)
      requires Holds(shape) && NoneAboveTop(shape.Value()) && IsField(f0)
      requires forall a, b :: InField(a, b) ==> field[a, b] == Upto(f0, Erase(f0, shape.Value()), a < i, a, b)
      modifies field
      ensures forall a, b :: InField(a, b) ==> field[a, b] == Upto(f0, Erase(f0, shape.Value()), a <= i, a, b)
    {
      var x, y, size, matrix := shape.X, shape.Y, shape.Size, shape.Matrix;
      ghost var p := shape.Value();
      ghost var f1 := Erase(f0, p);
      var j := x;
      while j < x + size
        invariant x <= j <= x + size
        invariant forall a, b :: InField(a, b) && a != i ==> field[a, b] == Upto(f0, f1, a < i, a, b)
        invariant 0 <= i < Height ==> forall b :: 0 <= b < Width ==> field[i, b] == Upto(f0, f1, b < j, i, b)
      {
        if i < Height && j < Width && j >= 0 && 0 <= i - y < size && matrix[i - y, j - x] != 0 {
          assert Occupies(p, i - y, j - x);
          field[i, j] := 0;
        }
        j := j + 1;
      }
    }

    /** CanMoveDown: whether the falling piece may move one row down. */
    method CanMoveDown() returns (b: bool)
      requires Holds(shapeHandler.CurrentShape) && Placed(shapeHandler.CurrentShape.Value())
      ensures b == CanMoveDownRule(Rows(field), shapeHandler.CurrentShape.Value())
    {
      var shape := shapeHandler.CurrentShape;
      var x, y, size, matrix := shape.X, shape.Y, shape.Size, shape.Matrix;
      ghost var f := Rows(field);
      ghost var p := shape.Value();
      var i := y + size - 1;
      while i >= y
        invariant y - 1 <= i <= y + size - 1
        invariant forall r, c | 0 <= r < size && 0 <= c < size ::
          Occupies(p, r, c) && y + r > i ==> FreeBelow(f, p, r, c)
      {
        var j := x;
        while j < x + size
          invariant x <= j <= x + size
          invariant forall r, c | 0 <= r < size && 0 <= c < size ::
            Occupies(p, r, c) && (y + r > i || (y + r == i && x + c < j)) ==> FreeBelow(f, p, r, c)
        {
          if matrix[i - y, j - x] != 0 {
            assert Occupies(p, i - y, j - x);
            if i + 1 >= Height {
              return false;
            }
            if field[i + 1, j] != 0 {
              return false;
            }
          }
          j := j + 1;
        }
        i := i - 1;
      }
      return true;
    }

    /** CanMoveHorizontal: whether the falling piece, still drawn on the field, may move
        `direction` columns over. */
    method CanMoveHorizontal(direction: int) returns (b: bool)
      requires Holds(shapeHandler.CurrentShape) && Placed(shapeHandler.CurrentShape.Value())
      ensures b == CanMoveHorizontalRule(Rows(field), shapeHandler.CurrentShape.Value(), direction)
    {
      var shape := shapeHandler.CurrentShape;
      var x, y, size, matrix := shape.X, shape.Y, shape.Size, shape.Matrix;
      ghost var f := Rows(field);
      ghost var p := shape.Value();
      var i := y;
      while i < y + size
        invariant y <= i <= y + size
        invariant forall r, c | 0 <= r < size && 0 <= c < size ::
          Occupies(p, r, c) && y + r < i ==> FreeAcross(f, p, direction, r, c)
      {
        var j := x;
        while j < x + size
          invariant x <= j <= x + size
          invariant forall r, c | 0 <= r < size && 0 <= c < size ::
            Occupies(p, r, c) && (y + r < i || (y + r == i && x + c < j)) ==>
              FreeAcross(f, p, direction, r, c)
        {
          if matrix[i - y, j - x] != 0 {
            assert Occupies(p, i - y, j - x);
            if j + direction >= Width || j + direction < 0 {
              return false;
            }
            if field[i, j + direction] != 0 {
              if j - x + direction >= size || j - x + direction < 0 {
                return false;
              }
              if matrix[i - y, j - x + direction] == 0 {
                return false;
              }
            }
          }
          j := j + 1;
        }
        i := i + 1;
      }
      return true;
    }

    /** MoveLeft: one column left when allowed. */
    method MoveLeft()
      requires Valid()
      modifies field, shapeHandler.CurrentShape
      ensures Valid()
      ensures State() == Moved(old(State()), -1)
    {
      ghost var s := State();
      var ok := CanMoveHorizontal(-1);
      if ok {
        AcrossLands(s.field, s.current, -1);
        ClearArea();
        ShiftPiece(-1);
        DrawShape();
        MovedKeepsInv(s, -1);
      }
    }

    /** MoveRight: one column right when allowed. */
    method MoveRight()
      requires Valid()
      modifies field, shapeHandler.CurrentShape
      ensures Valid()
      ensures State() == Moved(old(State()), 1)
    {
      ghost var s := State();
      var ok := CanMoveHorizontal(1);
      if ok {
        AcrossLands(s.field, s.current, 1);
        ClearArea();
        ShiftPiece(1);
        DrawShape();
        MovedKeepsInv(s, 1);
      }
    }

    /** The handler's move of the falling piece one column over (`d` is -1 or 1), seen on
        the game: only the piece's column changes. */
    method ShiftPiece(d: int)
      requires Sound() && (d == -1 || d == 1)
      modifies shapeHandler.CurrentShape`X
      ensures Sound() && State() == old(State()).(current := Across(old(State()).current, d))
    {
      if d == -1 {
        shapeHandler.MoveLeft();
      } else {
        shapeHandler.MoveRight();
      }
    }

    /** RotateAntiClockwise: the piece is cleared, a turned copy of it replaces it when it
        fits, and the falling piece is drawn. */
    method RotateAntiClockwise()
      requires Valid()
      modifies field, shapeHandler
      ensures Valid()
      ensures State() == Turn(old(State()))
    {
      ghost var s := State();
      ClearArea();
      TurnIfFits();
      if RotationFits(Erase(s.field, s.current), Turned(s.current)) {
        TurnedLands(Erase(s.field, s.current), s.current);
      }
      DrawShape();
      TurnKeepsInv(s);
    }

    /** The middle of RotateAntiClockwise: a copy of the falling piece is turned, and it
        replaces the falling piece when it fits on the field. */
    method TurnIfFits()
      requires Sound()
      modifies shapeHandler
      ensures Sound()
      ensures var s := old(State());
        State() == if RotationFits(s.field, Turned(s.current)) then s.(current := Turned(s.current)) else s
    {
      ghost var p := shapeHandler.CurrentShape.Value();
      var current := shapeHandler.CurrentShape;
      var matrix := GetMatrixCopy(current.Matrix);
      var rotatedShape := new Shape(current.X, current.Y, current.Size, matrix);
      shapeHandler.RotateAntiClockwise(rotatedShape);
      assert rotatedShape.Value() == Turned(p);
      var ok := IsRotateCorrect(rotatedShape);
      if ok {
        shapeHandler.CurrentShape := rotatedShape;
      }
    }

    /** IsRotateCorrect, with the row bound added: whether every occupied cell of `shape`
        lies on the field on an empty cell. */
    method IsRotateCorrect(shape: Shape) returns (b: bool)
      requires field.Length0 == Height && field.Length1 == Width && shape.Valid()
      ensures b == RotationFits(Rows(field), shape.Value())
    {
      var x, y, size, matrix := shape.X, shape.Y, shape.Size, shape.Matrix;
      ghost var f := Rows(field);
      ghost var p := shape.Value();
      var i := y;
      while i < y + size
        invariant y <= i <= y + size
        invariant forall r, c | 0 <= r < size && 0 <= c < size ::
          Occupies(p, r, c) && y + r < i ==> FreeAt(f, p, r, c)
      {
        var j := x;
        while j < x + size
          invariant x <= j <= x + size
          invariant forall r, c | 0 <= r < size && 0 <= c < size ::
            Occupies(p, r, c) && (y + r < i || (y + r == i && x + c < j)) ==> FreeAt(f, p, r, c)
        {
          if matrix[i - y, j - x] != 0 {
            assert Occupies(p, i - y, j - x);
            if j >= Width || j < 0 {
              return false;
            }
            if i >= Height || i < 0 {
              return false;
            }
            if field[i, j] != 0 {
              return false;
            }
          }
          j := j + 1;
        }
        i := i + 1;
      }
      return true;
    }

    /** CheckLines: full rows are emptied and the rows above them moved down; the points,
        the row count and the level follow (see `LinesChecked`). */
    method CheckLines()
      requires Sound()
      modifies this, field
      ensures Sound()
      ensures State() == LinesChecked(old(State()))
    {
      ghost var s := State();
      ghost var g := Rows(field);
      var shiftIndexes := ClearFullRows();
      var linesCount := |shiftIndexes|;
      if linesCount != 0 {
        ShiftLines(shiftIndexes);
        assert State() == s.(field := AfterLineCheck(g));
        Score(linesCount);
      } else {
        assert NoneFull(g);
        assert ClearedRows(g) == g;
      }
    }

    /** The counters after `linesCount` rows were cleared: AddPoints, UpdateLines and
        UpdateLevel in turn. */
    method Score(linesCount: int)
      requires Sound()
      modifies this`score, this`linesCleared, this`level, this`speed, this`interval
      ensures Sound()
      ensures var u := old(State());
        State() == LevelUpdated(u.(score := u.score + Points(linesCount, u.level),
                                   lines := u.lines + linesCount))
    {
      AddPoints(linesCount);
      UpdateLines(linesCount);
      UpdateLevel();
    }

    /** The scan of CheckLines: every full row is emptied, and the indexes of the full rows
        are returned from the top down. */
    method ClearFullRows() returns (shiftIndexes: seq<int>)
      requires field.Length0 == Height && field.Length1 == Width
      modifies field
      ensures shiftIndexes == FullRows(old(Rows(field)))
      ensures Rows(field) == ClearedRows(old(Rows(field)))
    {
      ghost var g := Rows(field);
      ghost var cleared := ClearedRows(g);
      var filledCells := 0;
      shiftIndexes := [];
      var i := 0;
      while i < Height
        invariant 0 <= i <= Height && filledCells == 0
        invariant shiftIndexes == FullRowsBelow(g, i)
        invariant forall a, b :: InField(a, b) ==> field[a, b] == Upto(g, cleared, a < i, a, b)
      {
        var j := 0;
        while j < Width
          invariant 0 <= j <= Width
          invariant filledCells == NonzeroCount(g[i][..j])
        {
          assert g[i][..j + 1][..j] == g[i][..j];
          if field[i, j] != 0 {
            filledCells := filledCells + 1;
          }
          j := j + 1;
        }
        assert g[i][..Width] == g[i];
        FullByCount(g[i]);
        if filledCells == Width {
          ClearRow(i);
        }
        shiftIndexes := shiftIndexes + (if filledCells == Width then [i] else []);
        filledCells := 0;
        i := i + 1;
      }
      RowsAre(field, cleared);
    }

    /** Row `i` becomes empty; the other rows are untouched. */
    method ClearRow(i: int)
      requires field.Length0 == Height && field.Length1 == Width && 0 <= i < Height
      modifies field
      ensures forall a, b :: InField(a, b) ==> field[a, b] == if a == i then 0 else old(field[a, b])
    {
      var j := 0;
      while j < Width
        invariant 0 <= j <= Width
        invariant forall a, b :: InField(a, b) ==>
          field[a, b] == if a == i && b < j then 0 else old(field[a, b])
      {
        field[i, j] := 0;
        j := j + 1;
      }
    }

    /** ShiftLines: for each index in turn, every row from that index up to row 1 takes the
        row above it. */
    method ShiftLines(shiftIndexes: seq<int>)
      requires field.Length0 == Height && field.Length1 == Width && Below(shiftIndexes, Height)
      modifies field
      ensures Rows(field) == ShiftAll(old(Rows(field)), shiftIndexes)
    {
      ghost var g := Rows(field);
      var t := 0;
      while t < |shiftIndexes|
        invariant 0 <= t <= |shiftIndexes|
        invariant Rows(field) == ShiftAll(g, shiftIndexes[..t])
      {
        var shiftIndex := shiftIndexes[t];
        ghost var h := Rows(field);
        ghost var h1 := ShiftDown(h, shiftIndex);
        var i := shiftIndex;
        while i > 0
          invariant i <= shiftIndex && (i < 0 ==> i == shiftIndex)
          invariant forall a, b :: InField(a, b) ==> field[a, b] == Upto(h, h1, a > i, a, b)
        {
          var j := 0;
          while j < Width
            invariant 0 <= j <= Width
            invariant forall a, b :: InField(a, b) ==>
              field[a, b] == Upto(h, h1, a > i || (a == i && b < j), a, b)
          {
            field[i, j] := field[i - 1, j];
            j := j + 1;
          }
          i := i - 1;
        }
        RowsAre(field, h1);
        assert shiftIndexes[..t + 1][..t] == shiftIndexes[..t];
        t := t + 1;
      }
      assert shiftIndexes[..|shiftIndexes|] == shiftIndexes;
    }

    /** AddPoints: the points for `linesCount` rows at the current level. */
    method AddPoints(linesCount: int)
      modifies this`score
      ensures score == old(score) + Points(linesCount, level)
    {
      if linesCount == 1 {
        score := score + 40 * (level + 1);
      } else if linesCount == 2 {
        score := score + 100 * (level + 1);
      } else if linesCount == 3 {
        score := score + 300 * (level + 1);
      } else if linesCount == 4 {
        score := score + 1200 * (level + 1);
      }
    }

    /** UpdateLines: the row count grows by `linesCount`. */
    method UpdateLines(linesCount: int)
      modifies this`linesCleared
      ensures linesCleared == old(linesCleared) + linesCount
    {
      linesCleared := linesCleared + linesCount;
    }

    /** UpdateLevel: the level becomes the row count divided by ten (rounding toward zero);
        the speed is recomputed only when that changes the level. */
    method UpdateLevel()
      modifies this`level, this`speed, this`interval
      ensures var current := Quot(old(linesCleared), 10);
        if current != old(level)
        then level == current && speed == SpeedFor(current, old(speed)) && interval == speed
        else level == old(level) && speed == old(speed) && interval == old(interval)
    {
      var currentLevel := if linesCleared >= 0 then linesCleared / 10 else -((-linesCleared) / 10);
      if currentLevel != level {
        level := currentLevel;
        ChangeSpeedDependingOnLevel();
      }
    }

    /** ChangeSpeedDependingOnLevel: the speed from the level table (a negative level keeps
        the speed), and the timer follows it. */
    method ChangeSpeedDependingOnLevel()
      modifies this`speed, this`interval
      ensures speed == SpeedFor(level, old(speed)) && interval == speed
    {
      if level == 0 {
        speed := 480;
      } else if level == 1 {
        speed := 430;
      } else if level == 2 {
        speed := 380;
      } else if level == 3 {
        speed := 330;
      } else if level == 4 {
        speed := 280;
      } else if level == 5 {
        speed := 230;
      } else if level == 6 {
        speed := 180;
      } else if level == 7 {
        speed := 130;
      } else if level == 8 {
        speed := 80;
      } else if level == 9 {
        speed := 60;
      } else if level >= 10 && level <= 12 {
        speed := 50;
      } else if level >= 13 && level <= 15 {
        speed := 40;
      } else if level >= 16 && level <= 18 {
        speed := 30;
      } else if level >= 19 && level <= 28 {
        speed := 20;
      } else if level >= 29 {
        speed := 10;
      }
      SetUpdateSpeed(speed);
    }

    /** SpeedUp: the timer runs at an eighth of the speed's interval and the game ticks once. */
    method SpeedUp(first: int, second: int)
      requires Valid() && 0 <= first < Count && 0 <= second < Count
      modifies this, field, shapeHandler, shapeHandler.CurrentShape
      ensures Valid()
      ensures State() == Tick(old(State()).(interval := old(speed) / 8), first, second)
    {
      ghost var s := State();
      SetUpdateSpeed(speed / 8);
      assert State() == s.(interval := s.speed / 8);
      Update(first, second);
    }

    /** SlowDown: the timer returns to the speed. */
    method SlowDown()
      requires Valid()
      modifies this`interval
      ensures Valid() && State() == old(State()).(interval := old(State()).speed)
    {
      SetUpdateSpeed(speed);
    }

    /** Drop: the timer fires every millisecond and the game ticks once, so the piece falls
        until it locks, when the timer returns to the speed. */
    method Drop(first: int, second: int)
      requires Valid() && 0 <= first < Count && 0 <= second < Count
      modifies this, field, shapeHandler, shapeHandler.CurrentShape
      ensures Valid()
      ensures State() == Tick(old(State()).(interval := 1), first, second)
    {
      ghost var s := State();
      SetUpdateSpeed(1);
      assert State() == s.(interval := 1);
      Update(first, second);
    }

    /** SetUpdateSpeed: the timer's interval. */
    method SetUpdateSpeed(v: int)
      modifies this`interval
      ensures interval == v
    {
      interval := v;
    }
  }
}
