# ClassicTetris engine, modelled in Dafny

This project models the game engine of ClassicTetris, a WPF Tetris game. The model covers:

- the 23 x 10 field of colour ids, whose top three rows are hidden;
- the falling piece and the look-ahead piece held by the shape handler;
- the timer tick that moves the piece down, or locks it, clears full rows, scores and
  spawns the next piece;
- the left, right, rotate, speed-up, slow-down and drop commands;
- the level and speed tables;
- the catalogue of the seven tetrominoes.

It is built in two layers:

- **Value model** (`EngineRules`, `LineClearing`, the pure parts of `ShapeHandler`). A piece
  is a `Piece(x, y, size, cells)` and the field a `Grid` (`seq<seq<int>>`). The whole game is a
  `GameState`. Each command is a function on `GameState`: `Tick`, `Moved`, `Turn`, `Started`,
  `LinesChecked` and `Opening`. The invariant `Inv` says four things:
  - the field and the pieces hold colour ids;
  - the falling piece lies on the field;
  - the next piece is the one generated from the last index;
  - the row count is not negative and the speed is between 10 and 480.
- **Imperative model** (`Engine`, `ShapeHandler`, `JaggedArrayExtensions`). These are
  classes and methods that change state step by step, as the C# code does.
  - The field is an `array2<int>`, and each `Shape` object has its own matrix.
  - `Engine.State()` reads the objects back as a `GameState`.
  - Every public command method of the engine is proved to change `State()` exactly as its
    function says, for example `State() == Tick(old(State()), first, second)`. It is also
    proved to keep `Valid()`, that is `Inv(State())` plus the separation of the field from
    the piece matrices. The private helpers `SetUpdateSpeed` and
    `ChangeSpeedDependingOnLevel` state only the fields they set; their frames keep the
    rest.
  - The loops (drawing, clearing, the collision scans, the line scan, the shift, the
    in-place quarter turn) carry invariants that tie them to these functions.

Behaviours of the code that the model keeps and proves:

- ShiftLines copies row 0 down without emptying it, so after a clear the top row appears
  once more for each cleared row (`LineClearing.LineCheckCompacts`, `LineClearing.ShiftAllTop`).
- UpdateLevel sets the level to the row count divided by ten. A game started at a high
  level therefore drops back after its first clear (`EngineRules.LevelCanFall`).
- The speed table leaves the speed unchanged for a negative level
  (`EngineRules.NegativeStartKeepsSpeed`).
- The anti-repeat rule draws a second index only when the first repeats the previous one,
  and it accepts a second repeat (`ShapeHandler.Choose`).

## Model

| member | source | states |
|---|---|---|
| Engine.Engine.constructor | Tetris/Engine.cs:25-31 | The engine starts in `Opening`: an empty field, zero score, level and row count, speed and interval 480, a stopped timer, and two pieces generated from the four draws. The game invariant holds. |
| Engine.NewField | Tetris/Engine.cs:33-39 | A fresh 23 x 10 matrix whose rows are all empty. |
| Engine.Engine.InitializeField | Tetris/Engine.cs:33-39 | The field becomes empty. Nothing else in the game changes. |
| Engine.Engine.StartNewGame | Tetris/Engine.cs:48-59 | The game becomes `Started(old, startLevel, draws)`: level `startLevel`, score and rows 0, the speed from the table, an empty field, the next piece falling, a new next piece, a running timer. The invariant is kept. |
| Engine.Engine.ResetCounters | Tetris/Engine.cs:50-53 | Only the level, score, row count, speed and interval change, to `startLevel`, 0, 0 and the table speed. |
| Engine.Engine.Pause | Tetris/Engine.cs:61-64 | Only the timer flag changes, to stopped. The invariant is kept. |
| Engine.Engine.Resume | Tetris/Engine.cs:66-69 | Only the timer flag changes, to running. The invariant is kept. |
| Engine.Engine.SpawnNewShape | Tetris/Engine.cs:71-74 | The next piece becomes the falling piece. A piece generated from the draws by the anti-repeat rule becomes the next one. Nothing else changes. |
| Engine.Engine.Update | Tetris/Engine.cs:76-99 | One timer tick changes the game to exactly `Tick(old, draws)` and keeps the invariant. |
| Engine.Engine.Fall | Tetris/Engine.cs:78-83 | When the erased piece can move down, the tick draws it one row lower, as `Tick` says. |
| Engine.Engine.Settle | Tetris/Engine.cs:84-98 | When it cannot, the tick locks the piece, checks lines and then spawns or ends the game, as `Tick` says. |
| Engine.Engine.Lock | Tetris/Engine.cs:86-89 | The piece is drawn back, the line check runs (`LinesChecked`), and the interval returns to the speed. |
| Engine.Engine.SpawnOrEnd | Tetris/Engine.cs:90-97 | If the next piece collides with the field, only the timer stops. Otherwise the next piece falls and a new one is generated. |
| Engine.Engine.CanSpawn | Tetris/Engine.cs:101-114 | True exactly when no occupied cell of the next piece lies on an occupied field cell (`CanSpawnRule`). |
| Engine.Engine.DrawShape | Tetris/Engine.cs:116-131 | The field becomes `Draw(field, piece)`: every occupied piece cell is written with its colour, and every other field cell is unchanged. |
| Engine.Engine.DrawShapeRow | Tetris/Engine.cs:120-129 | One pass of the outer loop of DrawShape writes field row `i` as `Draw` does and leaves the other rows unchanged. |
| Engine.Engine.ClearArea | Tetris/Engine.cs:144-157 | The field becomes `Erase(field, piece)`: every occupied piece cell on the field is zeroed, and everything else is unchanged. Occupied cells below the field or beside it are skipped. |
| Engine.Engine.ClearAreaRow | Tetris/Engine.cs:148-155 | One pass of the outer loop of ClearArea does the same for row `i`. The source's guard on the bottom row and both side columns keeps every write on the field. |
| Engine.Engine.CanMoveDown | Tetris/Engine.cs:171-193 | True exactly when every occupied piece cell has a field row below it and that cell is empty (`CanMoveDownRule`). |
| Engine.Engine.CanMoveHorizontal | Tetris/Engine.cs:195-218 | True exactly when every occupied cell stays within the columns and lands on an empty cell or on a cell of the piece itself (`CanMoveHorizontalRule`). |
| Engine.Engine.MoveLeft | Tetris/Engine.cs:220-228 | The game becomes `Moved(old, -1)`: when allowed, the piece is one column left and redrawn; otherwise nothing changes. The invariant is kept. |
| Engine.Engine.MoveRight | Tetris/Engine.cs:230-238 | The same, with `Moved(old, 1)`. |
| Engine.Engine.ShiftPiece | Tetris/Engine.cs:225 | Only the falling piece changes, moved one column over. |
| Engine.Engine.RotateAntiClockwise | Tetris/Engine.cs:252-270 | The game becomes `Turn(old)`: the turned piece replaces the piece only when it fits on the cleared field. The piece is drawn either way. The invariant is kept. The fit test is the corrected check `RotationFits`. Where a turned cell lies below the bottom row, the source reads outside the field at Engine.cs:285 and throws; the model keeps the piece and redraws it (see Findings). |
| Engine.Engine.TurnIfFits | Tetris/Engine.cs:256-268 | A turned copy is built from a copy of the matrix. It becomes the falling piece exactly when `RotationFits` holds. The field and the old piece's matrix are untouched. |
| Engine.Engine.IsRotateCorrect | Tetris/Engine.cs:272-293 | True exactly when every occupied cell of the shape lies on the field, on an empty cell (`RotationFits`). This is the corrected check; see Findings. |
| Engine.Engine.CheckLines | Tetris/Engine.cs:295-326 | The game becomes `LinesChecked(old)`. |
| Engine.Engine.ClearFullRows | Tetris/Engine.cs:297-316 | Returns the indexes of the full rows, top to bottom (`FullRows`). Every full row is emptied and the others are left alone (`ClearedRows`). |
| Engine.Engine.ClearRow | Tetris/Engine.cs:311 | Row `i` becomes empty and every other cell is unchanged. |
| Engine.Engine.Score | Tetris/Engine.cs:321-324 | Score, row count and level change as AddPoints, UpdateLines and UpdateLevel do together (`LevelUpdated`). |
| Engine.Engine.ShiftLines | Tetris/Engine.cs:328-340 | The field becomes `ShiftAll(old, indexes)`: for each index in turn, rows 1 to that index take the row above them. |
| Engine.Engine.AddPoints | Tetris/Engine.cs:342-360 | The score grows by 40, 100, 300 or 1200 times (level + 1) for 1 to 4 rows, and by nothing otherwise. |
| Engine.Engine.UpdateLines | Tetris/Engine.cs:362-366 | The row count grows by the number of rows cleared. |
| Engine.Engine.UpdateLevel | Tetris/Engine.cs:368-377 | The level becomes the row count divided by ten, rounding toward zero. The speed and interval are recomputed only when the level changes. |
| Engine.Engine.ChangeSpeedDependingOnLevel | Tetris/Engine.cs:379-437 | The speed comes from the level table (`SpeedFor`) and the interval follows it. |
| Engine.Engine.SpeedUp | Tetris/Engine.cs:439-443 | With the interval at an eighth of the speed, the game takes one `Tick`. |
| Engine.Engine.SlowDown | Tetris/Engine.cs:445-448 | The interval returns to the speed and nothing else changes. The invariant is kept. |
| Engine.Engine.Drop | Tetris/Engine.cs:450-454 | With the interval at 1 ms, the game takes one `Tick`. |
| Engine.Engine.SetUpdateSpeed | Tetris/Engine.cs:456-459 | The interval becomes the given value. |
| ShapeHandler.ShapeHandler.constructor | Tetris/ShapeHandler.cs:15-20 | Two pieces are generated in turn from an initial index of 0. The falling and the next piece are the spawn pieces of the chosen indexes, and they hold separate fresh matrices. |
| ShapeHandler.ShapeHandler.GenerateShape | Tetris/ShapeHandler.cs:22-51 | The index is chosen by the anti-repeat rule. The piece is a fresh copy of that catalogue entry at column 4, on the row its size calls for. |
| ShapeHandler.SpawnPiece | Tetris/ShapeHandler.cs:33-48 | A generated piece holds the catalogue matrix, has side 2, 3 or 4, and sits at column 4 on row 2, 1 or 0 for sides 2, 3 and 4. |
| ShapeHandler.Choose | Tetris/ShapeHandler.cs:26-31 | The chosen index is one of the draws. The first draw is kept unless it repeats the previous index. The choice repeats the previous index exactly when both draws did. |
| ShapeHandler.SpawnTopRow | Tetris/ShapeHandler.cs:37-48 | The anchor row picked by side (1 for side 3, 2 for side 2, 0 otherwise) puts the topmost occupied cells of every catalogue piece on field row 2, and none above it. |
| ShapeHandler.ShapeHandler.GenerateNextShape | Tetris/ShapeHandler.cs:53-60 | The falling piece object takes the next piece's place and a private copy of its matrix. A newly generated piece becomes the next one. |
| ShapeHandler.Shape.TakeFrom | Tetris/ShapeHandler.cs:55-58 | The piece takes the anchor, size and a fresh copy of the matrix of the source piece. |
| ShapeHandler.ShapeHandler.MoveDown | Tetris/ShapeHandler.cs:62-65 | Only the piece's row changes, by +1. |
| ShapeHandler.ShapeHandler.MoveLeft | Tetris/ShapeHandler.cs:67-70 | Only the piece's column changes, by -1. |
| ShapeHandler.ShapeHandler.MoveRight | Tetris/ShapeHandler.cs:71-74 | Only the piece's column changes, by +1. |
| ShapeHandler.ShapeHandler.RotateAntiClockwise | Tetris/ShapeHandler.cs:95-112 | The matrix, turned in place ring by ring, becomes `Rotated` of its old contents: a quarter turn anti-clockwise. |
| ShapeHandler.ShapeHandler.TurnRing | Tetris/ShapeHandler.cs:100-111 | One pass of the ring loop turns ring `level` and keeps the rings done so far. |
| ShapeHandler.ShapeHandler.TurnStep | Tetris/ShapeHandler.cs:102-107 | One pass of the inner loop moves the four cells of one cycle a quarter turn. |
| ShapeHandler.ShapeHandler.CycleFour | Tetris/ShapeHandler.cs:104-106 | The three swaps rotate four cells and leave every other cell unchanged. |
| ShapeHandler.ShapeHandler.Swap | Tetris/ShapeHandler.cs:114-119 | Two cells exchange their values and no other cell changes. |
| ShapeHandler.AllRingsTurned | Tetris/ShapeHandler.cs:95-112 | Once all n / 2 rings are turned, the matrix is the quarter turn. The centre of an odd matrix stays put. |
| ShapeHandler.RotationPermutes | Tetris/ShapeHandler.cs:95-112 | A quarter turn permutes the entries, so it keeps the number of occupied cells. |
| ShapeHandler.FullTurn | Tetris/ShapeHandler.cs:95-112 | Four quarter turns give back the original matrix. |
| JaggedArrayExtensions.GetMatrixCopy | Tetris/JaggedArrayExtensions.cs:7-10 | A deep copy: new storage with the same shape and the same entries. |
| JaggedArrayExtensions.NewMatrix | Tetris/ShapeHandler.cs:33 | A fresh matrix holding a given grid, used to copy a catalogue matrix. |
| Tetrominoes.TetrominoesList | Tetris/Tetrominoes.cs:8-88 | Seven entries, in the order I, O, T, S, Z, J, L. |
| Tetrominoes.CatalogueWellFormed | Tetris/Tetrominoes.cs:10-88 | Entry k is a square of side 4 (I), 2 (O) or 3 (others). It has exactly four occupied cells, all of colour k + 1. |
| Tetrominoes.CatalogueColours | Tetris/Tetrominoes.cs:10-88 | Every catalogue entry is a colour id 0 to 7. |
| LineClearing.FullByCount | Tetris/Engine.cs:299-309 | Counting a row's occupied cells decides fullness: a row is full exactly when the count equals the width. |
| LineClearing.FullRowsBelow | Tetris/Engine.cs:297-316 | The collected indexes are ascending, and an index is collected exactly when its row is full. |
| LineClearing.ClearedRows | Tetris/Engine.cs:309-312 | Each full row is replaced by an empty row, and the other rows are kept. |
| LineClearing.ClearedNoneFull | Tetris/Engine.cs:297-316 | After the scan no row is full. |
| LineClearing.NoFullRowAfterLineCheck | Tetris/Engine.cs:295-340 | After the clear and the shift no row is full. |
| LineClearing.LineCheckWithoutFullRows | Tetris/Engine.cs:318-325 | Without full rows the check changes nothing. |
| LineClearing.LineCheckCompacts | Tetris/Engine.cs:328-340 | After the check the field is one copy of the (cleared) top row per cleared row, followed by the remaining rows in order. |
| LineClearing.ShiftDownRemoves | Tetris/Engine.cs:332-337 | Shifting under one row `k` (`ShiftDown`) removes row `k` and puts a second copy of row 0 on top. |
| LineClearing.ShiftAllCompacts | Tetris/Engine.cs:328-340 | Shifting at ascending indexes removes those rows and repeats row 0 once per index on top. |
| LineClearing.ShiftAllTop | Tetris/Engine.cs:332-337 | The shift never changes row 0. |
| LineClearing.ShiftAllKeepsRows | Tetris/Engine.cs:328-340 | The shift only copies rows, so any property of every row survives it. |
| EngineRules.EmptyField | Tetris/Engine.cs:33-39 | A 23 x 10 field of zeros. |
| EngineRules.SpawnFits | Tetris/ShapeHandler.cs:33-48 | A generated piece's square lies on the field and its cells are colour ids. |
| EngineRules.DrawPuts | Tetris/Engine.cs:116-131 | Drawing writes each occupied cell's colour under it and changes no other cell. |
| EngineRules.EraseDrawn | Tetris/Engine.cs:144-157 | Clearing a piece after drawing it is the same as clearing it. |
| EngineRules.DrawErased | Tetris/Engine.cs:116-131 | Drawing a piece after clearing it is the same as drawing it. |
| EngineRules.DrawEraseKeepColours | Tetris/Engine.cs:116-157 | Drawing and clearing keep a field of colour ids. |
| EngineRules.DownLands | Tetris/Engine.cs:171-193 | A piece allowed down lands on the field, on empty cells. |
| EngineRules.AcrossLands | Tetris/Engine.cs:195-218 | A piece allowed across lands on the field, on cells that are empty once it is cleared. |
| EngineRules.TurnedKeepsCells | Tetris/ShapeHandler.cs:95-112 | Turning keeps colour ids and the number of occupied cells. |
| EngineRules.ScanFrom | Tetris/Engine.cs:272-293 | IsRotateCorrect as written. It fails by reading outside the field only when some occupied cell it has yet to visit lies on a row off the field. |
| EngineRules.ScanAnswers | Tetris/Engine.cs:272-293 | Wherever the scan as written does not read outside the field, it accepts exactly when every remaining cell fits. |
| EngineRules.RotationFitsAgrees | Tetris/Engine.cs:272-293 | Wherever the check as written does not read outside the field, it agrees with the corrected check. |
| EngineRules.ScanSkips | Tetris/Engine.cs:274-291 | The scan moves past cells that fit. |
| EngineRules.FlatITurned | Tetris/ShapeHandler.cs:95-112 | The flat I piece turns into a vertical bar in column 2. |
| EngineRules.FlatIReachesFloor | Tetris/Engine.cs:171-193 | On an empty field, the flat I piece may still move down from anchor row 19 but not from anchor row 20, so a fall stops there. |
| EngineRules.TurnOnFloorOutOfRange | Tetris/Engine.cs:280-285 | Turning the flat I piece resting on the floor makes the as-written check read row 23, which does not exist. The corrected check rejects it. |
| EngineRules.Quot | Tetris/Engine.cs:370 | Integer division rounding toward zero, as C# divides. The remainder has the sign of the dividend and is smaller than the divisor in size. |
| EngineRules.PointsGrow | Tetris/Engine.cs:342-360 | At a level of 0 or more, every clear scores, and more rows at once score strictly more. |
| EngineRules.SpeedFor | Tetris/Engine.cs:379-437 | A negative level keeps the speed. Any other level gives 10 to 480 ms, and level 29 and above gives 10. |
| EngineRules.SpeedNeverSlows | Tetris/Engine.cs:379-437 | A higher level never gives a slower speed. |
| EngineRules.LinesCheckedKeepsInv | Tetris/Engine.cs:295-326 | The line check keeps the invariant and leaves both pieces alone. |
| EngineRules.LineCheckKeepsField | Tetris/Engine.cs:295-340 | The line check keeps a 23 x 10 field of colour ids. |
| EngineRules.TickKeepsInv | Tetris/Engine.cs:76-99 | A tick keeps the invariant. |
| EngineRules.MovedKeepsInv | Tetris/Engine.cs:220-238 | A move keeps the invariant. |
| EngineRules.TurnKeepsInv | Tetris/Engine.cs:252-270 | A turn keeps the invariant and the number of occupied cells of the piece. |
| EngineRules.OpeningInv | Tetris/Engine.cs:25-31 | The opening state satisfies the invariant. |
| EngineRules.StartedKeepsInv | Tetris/Engine.cs:48-59 | Starting a new game keeps the invariant. |
| EngineRules.LockLeavesNoFullRow | Tetris/Engine.cs:84-98 | After a piece locks, no row of the field is full. |
| EngineRules.LockScores | Tetris/Engine.cs:84-98 | When a piece locks with k full rows, the score grows by `Points(k, level)` and the row count by k. The interval returns to the speed, and the level is updated only when k > 0. |
| EngineRules.FallOnlyMovesPiece | Tetris/Engine.cs:78-83 | A tick that moves the piece down changes only the field and the piece, and the piece moves down one row. |
| EngineRules.LevelCanFall | Tetris/Engine.cs:368-377 | A game at level 5 with no rows cleared goes back to level 0 and speed 480 on its first clear. |
| EngineRules.NegativeStartKeepsSpeed | Tetris/Engine.cs:379-437 | Starting at a negative level keeps the old speed. |
| EngineRules.FourTurns | Tetris/ShapeHandler.cs:95-112 | Four turns give back the same piece. |

## Left out

- The window, the rendering and key handling (GameWindow.xaml.cs): these are the UI; the
  commands they call are modelled.
- The events (OnPointChanged, OnScoreChanged, OnLevelChanged, OnLinesChanged,
  OnNextShapeGenerated, OnGameOver), NotifyThatPointChanged and DrawField: they only notify
  the UI and change no engine state.
- The DispatcherTimer is modelled as an `interval` in milliseconds plus a `running` flag.
  Its ticks are calls of `Update`.
- `System.Random` is not modelled. Each generation takes its two draws in [0, 7) as
  parameters. The second draw is ignored unless the first repeats the previous index.
- `_lastShape` is static in the source, so it survives a new Engine. The model keeps it as a
  field of the handler, starting at 0 as the static does at first.
- RotateClockwise (ShapeHandler.cs:76-93) is left out: only a commented-out caller uses it.
- Model/Tetromino.cs is folded into the `Tetromino` and `TetrominoType` datatypes.
  Model/Shape.cs is a plain class with X, Y, Size and Matrix. It becomes the class `Shape`
  in ShapeHandler.dfy.
- Jagged arrays are modelled as rectangular `array2<int>` matrices. Replacing a row by a new
  array at Engine.cs:311 becomes zeroing that row in place; the contents are the same.
- Engine.Engine.AddPoints: 32-bit overflow of the score is not modelled; the score is an
  unbounded integer.
- Engine.Engine.UpdateLines: 32-bit overflow of the row count is not modelled.
- Engine.Engine.Update: the game-over event and the new-next-piece notification are not
  modelled; only the stopped timer marks the end of a game.
- Engine.Engine.DrawShape, Engine.Engine.CanSpawn, Engine.Engine.CanMoveDown and
  Engine.Engine.CanMoveHorizontal require the piece's occupied cells (for CanSpawn, its whole
  square) to lie on the field. DrawShape and CanSpawn index the field without a bounds check.
  CanMoveDown checks only that the row below each cell is not past the bottom, and
  CanMoveHorizontal only that the target column is on the field. The game calls them only
  in that situation.
- Engine.Engine.ClearArea requires that no occupied cell of the piece lies above row 0. That
  is the one bound the source's guard does not check.

## Findings

| source | as written | input that shows it | evidently intended | confidence | as-written member | corrected member |
|---|---|---|---|---|---|---|
| Tetris/Engine.cs:280-285 | IsRotateCorrect bounds the column of each occupied cell but not its row, then reads `_field[i][j]` | On an empty field, the flat I piece (row 2 of its matrix occupied) falls to Y = 20, where it cannot move down. Turning it anti-clockwise gives a vertical bar whose cells are rows 20 to 23. Row 23 does not exist, so the check reads outside the field and throws instead of rejecting the turn. | An occupied cell outside the rows of the field makes the turn incorrect, as one outside the columns does | not executed | EngineRules.ScanFrom, EngineRules.TurnOnFloorOutOfRange | Engine.Engine.IsRotateCorrect |
