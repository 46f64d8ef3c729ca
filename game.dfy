/** The game-state engine: playfield, current and next piece, score state and mode flags. */
module Game {
  import opened Pieces
  import opened Board
  import opened Motion
  import opened Scoring
  import opened Controls

  /** Column at which a new current piece is put. */
  const SPAWN_X: int := W / 2 - 2

  /** The lookahead piece promoted to the spawn position, five columns from the left wall
      on the top row: it always fits an empty playfield, and a piece loaded from the tables
      arrives there well formed. */
  function Spawned(p: Tetromino): (r: Tetromino)
    ensures r.shape == p.shape && r.color == p.color && r.kind == p.kind
    ensures r.x == 5 && r.y == 0
    ensures !Collides(EmptyBoard(), r, 0, 0)
    ensures Loaded(p) ==> WellFormed(r) && HasCell(r.shape)
  {
    var r := p.(x := SPAWN_X, y := 0);
    SpawnFitsEmptyBoard(r);
    if Loaded(p) then
      LoadedIsWellFormed(p);
      r
    else
      r
  }

  class TetrisGame {
    /** Occupancy flags and colours of the playfield, indexed [row, column]. */
    const grid: array2<int>
    const gridColors: array2<Color>
    /** The playfield as a value: the flag and colour of every cell of the two arrays. */
    ghost var board: Board
    var currentPiece: Tetromino
    var nextPiece: Tetromino
    var lastFallTime: real
    var fallSpeed: real
    var gameOver: bool
    var gamePaused: bool
    var showHelp: bool
    var score: int
    var level: int
    var linesCleared: int

    ghost predicate Dims()
    {
      grid.Length0 == H && grid.Length1 == W && gridColors.Length0 == H && gridColors.Length1 == W
    }

    /** The two arrays hold exactly the cells of `board`. */
    ghost predicate Sync()
      reads this`board, grid, gridColors
    {
      && Dims()
      && forall i, j {:trigger grid[i, j]} :: 0 <= i < H && 0 <= j < W ==> Cell(grid[i, j], gridColors[i, j]) == board[i][j]
    }

    /** The score state agrees with the level rule and the gravity formula. */
    ghost predicate ScoreOk()
      reads this`score, this`linesCleared, this`level, this`fallSpeed
    {
      score >= 0 && linesCleared >= 0 && level == LevelFor(linesCleared) && fallSpeed == FallSpeedFor(level)
    }

    /** The engine's invariant between calls: no full row is left standing, and while the game
        is not over the current piece fits where it stands. */
    ghost predicate Valid()
      reads this, grid, gridColors
    {
      && Sync()
      && WellFormed(currentPiece) && Loaded(nextPiece)
      && NoFullRow(board)
      && (!gameOver ==> !Collides(board, currentPiece, 0, 0))
      && ScoreOk()
    }

    /** Playfield, lookahead piece, game-over flag and score state are as before. */
    twostate predicate SameGame()
      reads this
    {
      && board == old(board)
      && nextPiece == old(nextPiece) && gameOver == old(gameOver)
      && score == old(score) && level == old(level) && linesCleared == old(linesCleared)
      && fallSpeed == old(fallSpeed)
    }

    /** The state a restart leaves, apart from the current piece: empty playfield, score state
        and flags cleared, two pieces drawn; the fall clock is not reset. */
    twostate predicate Reset(firstDraw: PieceType, secondDraw: PieceType)
      reads this
    {
      && board == EmptyBoard()
      && score == 0 && level == 1 && linesCleared == 0 && fallSpeed == BASE_FALL_SPEED
      && !gameOver && !gamePaused && !showHelp
      && lastFallTime == old(lastFallTime)
      && nextPiece == SetType(SetType(old(nextPiece), firstDraw), secondDraw)
    }

    /** The playfield and score state after the current piece is written into the playfield
        and the full rows are cleared and scored at the level before the clear. */
    twostate predicate Settled()
      reads this`board, this`linesCleared, this`score, this`level
    {
      var placed := Placed(old(board), old(currentPiece));
      var k := FullCount(placed);
      && k <= 4
      && board == Compacted(placed)
      && linesCleared == old(linesCleared) + k
      && score == old(score) + LinePoints(k, old(level))
      && level == LevelFor(linesCleared) && level >= old(level)
    }

    /** The state after the current piece lands: settled into the playfield, the lookahead
        piece spawned, and the game over exactly when that piece is blocked at once. */
    twostate predicate Landed(draw: PieceType)
      reads this
    {
      && Settled()
      && currentPiece == Spawned(old(nextPiece))
      && nextPiece == SetType(old(nextPiece), draw)
      && gameOver == Collides(board, currentPiece, 0, 0)
      && gamePaused == old(gamePaused) && showHelp == old(showHelp)
    }

    /** A new game; the two draws stand for the random generator's first two outputs. */
    constructor (firstDraw: PieceType, secondDraw: PieceType)
      ensures Valid() && fresh(grid) && fresh(gridColors)
      ensures board == EmptyBoard()
      ensures score == 0 && level == 1 && linesCleared == 0 && fallSpeed == BASE_FALL_SPEED
      ensures !gameOver && !gamePaused && !showHelp && lastFallTime == 0.0
      ensures currentPiece == Spawned(SetType(DefaultTetromino(), firstDraw))
      ensures nextPiece == SetType(SetType(DefaultTetromino(), firstDraw), secondDraw)
    {
      grid := new int[H, W];
      gridColors := new Color[H, W];
      currentPiece, nextPiece := DefaultTetromino(), DefaultTetromino();
      new;
      ClearGrid();
      ResetScore();
      DealPieces(firstDraw, secondDraw);
      EmptyBoardHasNoFullRow();
      lastFallTime := 0.0;
    }

    // ---------------------------------------------------------------- queries

    /** Whether `piece`, displaced by (dx, dy), is blocked by a wall, the floor or the playfield. */
    method CheckCollision(piece: Tetromino, dx: int, dy: int) returns (hit: bool)
      requires Sync()
      ensures hit == Collides(board, piece, dx, dy)
    {
      for y := 0 to 4
        invariant forall r, c :: 0 <= r < y && 0 <= c < 4 && piece.shape[r][c] != 0 ==>
          !Hit(board, piece.x + c + dx, piece.y + r + dy)
      {
        for x := 0 to 4
          invariant forall r, c :: 0 <= r < y && 0 <= c < 4 && piece.shape[r][c] != 0 ==>
            !Hit(board, piece.x + c + dx, piece.y + r + dy)
          invariant forall c :: 0 <= c < x && piece.shape[y][c] != 0 ==>
            !Hit(board, piece.x + c + dx, piece.y + y + dy)
        {
          if piece.shape[y][x] != 0 {
            var newX := piece.x + x + dx;
            var newY := piece.y + y + dy;
            if newX < 0 || newX >= W || newY >= H {
              assert Hit(board, newX, newY);
              return true;
            }
            if newY >= 0 && grid[newY, newX] != 0 {
              assert Hit(board, newX, newY);
              return true;
            }
          }
        }
      }
      return false;
    }

    /** While the game is not over, the current piece fits where it stands. */
    function IsGameOver(): (r: bool)
      reads this, grid, gridColors
      ensures Valid() && !r ==> !Collides(board, currentPiece, 0, 0)
    {
      gameOver
    }

    function IsPaused(): bool
      reads this
    {
      gamePaused
    }

    function GetScore(): (r: int)
      reads this, grid, gridColors
      ensures Valid() ==> r >= 0
    {
      score
    }

    /** The level is one more than the number of whole tens of cleared rows. */
    function GetLevel(): (r: int)
      reads this, grid, gridColors
      ensures Valid() ==> r == linesCleared / 10 + 1 && r >= 1
    {
      level
    }

    function GetLines(): (r: int)
      reads this, grid, gridColors
      ensures Valid() ==> r >= 0 && LevelFor(r) == level
    {
      linesCleared
    }

    // ---------------------------------------------------------------- spawning and landing

    /** Promotes the lookahead piece to the spawn position and draws a new lookahead piece;
        the game ends if the new current piece is blocked where it appears. */
    method SpawnNewPiece(draw: PieceType)
      requires Sync()
      modifies this`currentPiece, this`nextPiece, this`gameOver
      ensures currentPiece == Spawned(old(nextPiece))
      ensures nextPiece == SetType(old(nextPiece), draw)
      ensures gameOver == (old(gameOver) || Collides(board, currentPiece, 0, 0))
    {
      currentPiece := nextPiece.(x := SPAWN_X, y := 0);
      nextPiece := SetType(nextPiece, draw);
      var blocked := CheckCollision(currentPiece, 0, 0);
      if blocked {
        gameOver := true;
      }
    }

    /** Sets one cell of both arrays. */
    method SetCell(row: int, col: int, filled: int, color: Color)
      requires Sync() && 0 <= row < H && 0 <= col < W
      modifies grid, gridColors, this`board
      ensures Sync() && board == old(board)[row := old(board)[row][col := Cell(filled, color)]]
    {
      grid[row, col] := filled;
      gridColors[row, col] := color;
      board := board[row := board[row][col := Cell(filled, color)]];
    }

    /** Writes the occupied cells of the current piece that lie at row 0 or below. */
    method WritePieceCells()
      requires Sync() && !Collides(board, currentPiece, 0, 0)
      modifies grid, gridColors, this`board
      ensures Sync() && board == Placed(old(board), currentPiece)
    {
      ghost var g0 := board;
      var p := currentPiece;
      for y := 0 to 4
        invariant Sync()
        invariant forall i, j :: 0 <= i < H && 0 <= j < W ==>
          board[i][j] == if Covers(p, i, j) && i - p.y < y then Cell(1, p.color) else g0[i][j]
      {
        for x := 0 to 4
          invariant Sync()
          invariant forall i, j :: 0 <= i < H && 0 <= j < W ==>
            board[i][j] == if Covers(p, i, j) && (i - p.y < y || (i - p.y == y && j - p.x < x)) then Cell(1, p.color) else g0[i][j]
        {
          if p.shape[y][x] != 0 {
            var gridX := p.x + x;
            var gridY := p.y + y;
            if gridY >= 0 {
              LivePieceInBounds(g0, p, y, x);
              SetCell(gridY, gridX, 1, p.color);
            }
          }
        }
      }
      SameCells(board, Placed(g0, p));
    }

    /** Whether row y of the playfield is full. */
    method RowIsFull(y: int) returns (fullLine: bool)
      requires Sync() && 0 <= y < H
      ensures fullLine == Full(board[y])
    {
      fullLine := true;
      for x := 0 to W
        invariant fullLine && forall j :: 0 <= j < x ==> board[y][j].filled != 0
      {
        if grid[y, x] == 0 {
          fullLine := false;
          break;
        }
      }
    }

    /** Removes row y: every row above it moves down one row, and row 0 becomes empty. */
    method DropRowsAbove(y: int)
      requires Sync() && 0 <= y < H
      modifies grid, gridColors, this`board
      ensures Sync() && board == ShiftDown(old(board), y)
    {
      ghost var g0 := board;
      var moveY := y;
      while moveY > 0
        invariant 0 <= moveY <= y && Sync()
        invariant forall i, j :: 0 <= i < H && 0 <= j < W ==>
          board[i][j] == if moveY < i <= y then g0[i - 1][j] else g0[i][j]
      {
        for x := 0 to W
          invariant Sync()
          invariant forall i, j :: 0 <= i < H && 0 <= j < W ==>
            board[i][j] == if moveY < i <= y || (i == moveY && j < x) then g0[i - 1][j] else g0[i][j]
        {
          SetCell(moveY, x, grid[moveY - 1, x], gridColors[moveY - 1, x]);
        }
        moveY := moveY - 1;
      }
      for x := 0 to W
        invariant Sync()
        invariant forall i, j :: 0 <= i < H && 0 <= j < W ==>
          board[i][j] == if 0 < i <= y then g0[i - 1][j] else if i == 0 && j < x then Cell(0, NoColor) else g0[i][j]
      {
        SetCell(0, x, 0, NoColor);
      }
      SameCells(board, ShiftDown(g0, y));
    }

    /** The playfield is the scan state with `c` rows cleared and the top `u` input rows
        of `g0` not yet examined. */
    ghost predicate Scanning(g0: Board, c: nat, u: nat)
      reads this`board
    {
      u <= H && c == FullCount(g0[u..]) && board == ScanState(g0, c, u)
    }

    /** Scans the rows from the bottom up, removing every full row and re-examining the same
        row index after a removal; returns the number of rows removed. */
    method ClearLines() returns (clearedCount: int)
      requires Sync()
      modifies grid, gridColors, this`board
      ensures Sync()
      ensures clearedCount == FullCount(old(board))
      ensures board == Compacted(old(board))
    {
      ghost var g0 := board;
      ghost var u: nat := H;
      ScanStart(g0);
      clearedCount := 0;
      var y := H - 1;
      while y >= 0
        invariant -1 <= y < H && 0 <= clearedCount
        invariant Sync() && Scanning(g0, clearedCount, u)
        invariant y + 1 <= clearedCount + u
        invariant u > 0 ==> y + 1 == clearedCount + u
        decreases y + 1 + H - clearedCount
      {
        var removed;
        ghost var c';
        removed, c', u := ExamineRow(y, g0, clearedCount, u);
        if removed {
          clearedCount := clearedCount + 1;
          y := y + 1;
        }
        y := y - 1;
      }
      ScanEnd(g0, clearedCount);
    }

    /** One step of the scan: row y is removed if it is full. A removal takes one more input
        row into the cleared count; otherwise the scan passes over the row and keeps it. */
    method ExamineRow(y: int, ghost g0: Board, ghost c: nat, ghost u: nat) returns (removed: bool, ghost c': nat, ghost u': nat)
      requires 0 <= y < H && y + 1 <= c + u && (u > 0 ==> y + 1 == c + u)
      requires Sync() && Scanning(g0, c, u)
      modifies grid, gridColors, this`board
      ensures Sync() && Scanning(g0, c', u')
      ensures removed ==> u > 0 && c' == c + 1 && u' == u - 1
      ensures !removed ==> board == old(board) && c' == c && u' == (if u > 0 then u - 1 else 0)
    {
      ScanRow(g0, c, u, y);
      removed := RowIsFull(y);
      if removed {
        DropRowsAbove(y);
        c', u' := c + 1, u - 1;
      } else {
        c', u' := c, if u > 0 then u - 1 else 0;
      }
    }

    /** Adds the cleared rows and their points, then raises the level (and shortens the
        gravity interval) if the cleared-row total has reached a new level. */
    method UpdateScore(clearedLines: int)
      requires 0 <= clearedLines <= 4 && ScoreOk()
      modifies this`score, this`level, this`linesCleared, this`fallSpeed
      ensures ScoreOk()
      ensures linesCleared == old(linesCleared) + clearedLines
      ensures score == old(score) + LinePoints(clearedLines, old(level))
      ensures level >= old(level)
      ensures fallSpeed == (if level > old(level) then FallSpeedFor(level) else old(fallSpeed))
      ensures clearedLines == 0 ==> score == old(score) && level == old(level) && fallSpeed == old(fallSpeed)
    {
      if clearedLines > 0 {
        linesCleared := linesCleared + clearedLines;
        score := score + SCORE_VALUES[clearedLines - 1] * level;
        var newLevel := linesCleared / 10 + 1;
        if newLevel > level {
          level := newLevel;
          fallSpeed := BASE_FALL_SPEED / (1.0 + (level - 1) as real * 0.1);
        }
        LevelMonotone(old(linesCleared), clearedLines);
      }
    }

    /** Lands the current piece: writes it, clears and scores full rows, spawns the next piece. */
    method PlacePiece(draw: PieceType)
      requires Valid() && !gameOver
      modifies grid, gridColors, this`board, this`currentPiece, this`nextPiece, this`gameOver
      modifies this`score, this`level, this`linesCleared, this`fallSpeed
      ensures Valid() && Landed(draw)
    {
      SettlePiece();
      LoadedIsWellFormed(nextPiece);
      SpawnNewPiece(draw);
    }

    /** The landing steps before the spawn: write the piece, clear full rows, score them. */
    method SettlePiece()
      requires Sync() && ScoreOk() && NoFullRow(board) && !Collides(board, currentPiece, 0, 0)
      modifies grid, gridColors, this`board, this`score, this`level, this`linesCleared, this`fallSpeed
      ensures Sync() && ScoreOk() && NoFullRow(board) && Settled()
    {
      PlacementFillsAtMostFourRows(board, currentPiece);
      WritePieceCells();
      var clearedLines := ClearLines();
      CompactedLayout(Placed(old(board), currentPiece));
      UpdateScore(clearedLines);
    }

    // ---------------------------------------------------------------- moving the piece

    /** One sideways or downward step of the current piece, taken only if it does not collide. */
    method ShiftPiece(dx: int, dy: int)
      requires Sync()
      modifies this`currentPiece
      ensures currentPiece == TryMove(board, old(currentPiece), dx, dy)
    {
      var blocked := CheckCollision(currentPiece, dx, dy);
      if !blocked {
        currentPiece := currentPiece.(x := currentPiece.x + dx, y := currentPiece.y + dy);
      }
    }

    /** Moves the current piece down while the row below is free. */
    method HardDrop()
      requires Sync() && HasCell(currentPiece.shape)
      modifies this`currentPiece
      ensures currentPiece == Dropped(board, old(currentPiece))
    {
      var blocked := CheckCollision(currentPiece, 0, 1);
      while !blocked
        invariant HasCell(currentPiece.shape)
        invariant Dropped(board, currentPiece) == Dropped(board, old(currentPiece))
        invariant blocked == Collides(board, currentPiece, 0, 1)
        decreases H - currentPiece.y
      {
        ghost var before := currentPiece;
        FallRoom(board, currentPiece);
        currentPiece := currentPiece.(y := currentPiece.y + 1);
        assert currentPiece == Moved(before, 0, 1);
        DropStep(board, before);
        blocked := CheckCollision(currentPiece, 0, 1);
      }
    }

    /** Turns the current piece clockwise, trying the unshifted position and then each kick. */
    method RotatePiece()
      requires Sync()
      modifies this`currentPiece
      ensures currentPiece == RotateOutcome(board, old(currentPiece))
    {
      var shape := RotateShape(currentPiece.shape);
      var rotated := currentPiece.(shape := shape);
      assert rotated == Turned(currentPiece);
      var blocked := CheckCollision(rotated, 0, 0);
      if !blocked {
        currentPiece := rotated;
      } else {
        KickPiece(rotated);
      }
    }

    /** Tries the kicks in order for a turned piece that collides where it stands; the first
        one that fits is taken, and if none fits the current piece stays as it is. */
    method KickPiece(rotated: Tetromino)
      requires Sync()
      modifies this`currentPiece
      ensures currentPiece == KickSearch(board, rotated, old(currentPiece), 0)
    {
      var kicks := KICKS;
      for i := 0 to |kicks|
        invariant currentPiece == old(currentPiece)
        invariant KickSearch(board, rotated, currentPiece, i) == KickSearch(board, rotated, currentPiece, 0)
      {
        var kicked := CheckCollision(rotated, kicks[i].0, kicks[i].1);
        if !kicked {
          currentPiece := rotated.(x := rotated.x + kicks[i].0, y := rotated.y + kicks[i].1);
          return;
        }
      }
    }

    /** The stepping keys of one frame, applied in order. */
    method ShiftKeys(f: InputFrame)
      requires Sync()
      modifies this`currentPiece
      ensures currentPiece == Shifted(board, old(currentPiece), f)
    {
      if IsKeyPressed(f, KeyLeft) || IsKeyPressed(f, KeyA) {
        ShiftPiece(-1, 0);
      }
      if IsKeyPressed(f, KeyRight) || IsKeyPressed(f, KeyD) {
        ShiftPiece(1, 0);
      }
      if IsKeyPressed(f, KeyDown) || IsKeyPressed(f, KeyS) {
        ShiftPiece(0, 1);
      }
    }

    /** The movement keys of one frame, applied in order. */
    method SteerPiece(f: InputFrame)
      requires Sync() && HasCell(currentPiece.shape)
      modifies this`currentPiece
      ensures currentPiece == Steer(board, old(currentPiece), f)
    {
      ShiftKeys(f);
      if IsKeyPressed(f, KeySpace) {
        HardDrop();
      }
      if IsKeyPressed(f, KeyUp) || IsKeyPressed(f, KeyW) {
        RotatePiece();
      }
    }

    // ---------------------------------------------------------------- per-frame entry points

    /** Gravity: once the interval has elapsed, the piece falls one row or, if it cannot,
        lands. Does nothing while the game is over, paused or showing help. */
    method Update(currentTime: real, draw: PieceType)
      requires Valid()
      modifies this, grid, gridColors
      ensures Valid()
      ensures old(gameOver || gamePaused || showHelp) || currentTime - old(lastFallTime) < old(fallSpeed) ==>
        unchanged(this, grid, gridColors)
      ensures !old(gameOver || gamePaused || showHelp) && currentTime - old(lastFallTime) >= old(fallSpeed) ==>
        lastFallTime == currentTime &&
        if !Collides(old(board), old(currentPiece), 0, 1) then
          currentPiece == Moved(old(currentPiece), 0, 1) && SameGame() && !gamePaused && !showHelp
        else
          Landed(draw)
    {
      if gameOver || gamePaused || showHelp {
        return;
      }
      if currentTime - lastFallTime >= fallSpeed {
        var blocked := CheckCollision(currentPiece, 0, 1);
        if !blocked {
          CollidesAtOffset(board, currentPiece, 0, 1);
          currentPiece := currentPiece.(y := currentPiece.y + 1);
        } else {
          PlacePiece(draw);
        }
        lastFallTime := currentTime;
      }
    }

    /** Empties every cell of the playfield. */
    method ClearGrid()
      requires Dims()
      modifies grid, gridColors, this`board
      ensures Sync() && board == EmptyBoard()
    {
      for i := 0 to H
        invariant forall r, c :: 0 <= r < H && 0 <= c < W ==>
          Cell(grid[r, c], gridColors[r, c]) == if r < i then Cell(0, NoColor) else old(Cell(grid[r, c], gridColors[r, c]))
      {
        for j := 0 to W
          invariant forall r, c :: 0 <= r < H && 0 <= c < W ==>
            Cell(grid[r, c], gridColors[r, c]) ==
            (if r < i || (r == i && c < j) then Cell(0, NoColor) else old(Cell(grid[r, c], gridColors[r, c])))
        {
          grid[i, j] := 0;
          gridColors[i, j] := NoColor;
        }
      }
      board := EmptyBoard();
    }

    /** Starts a new game from any state; the two draws stand for the generator's next outputs. */
    method Restart(firstDraw: PieceType, secondDraw: PieceType)
      requires Dims()
      modifies grid, gridColors, this`board, this`currentPiece, this`nextPiece
      modifies this`gameOver, this`gamePaused, this`showHelp
      modifies this`score, this`level, this`linesCleared, this`fallSpeed
      ensures Valid() && Reset(firstDraw, secondDraw)
      ensures currentPiece == Spawned(SetType(old(nextPiece), firstDraw))
    {
      ClearGrid();
      ResetScore();
      DealPieces(firstDraw, secondDraw);
      EmptyBoardHasNoFullRow();
    }

    /** On an empty playfield: loads a fresh lookahead piece and spawns it; it always fits. */
    method DealPieces(firstDraw: PieceType, secondDraw: PieceType)
      requires Sync() && board == EmptyBoard() && !gameOver
      modifies this`currentPiece, this`nextPiece, this`gameOver
      ensures !gameOver && WellFormed(currentPiece) && Loaded(nextPiece) && !Collides(board, currentPiece, 0, 0)
      ensures currentPiece == Spawned(SetType(old(nextPiece), firstDraw))
      ensures nextPiece == SetType(SetType(old(nextPiece), firstDraw), secondDraw)
    {
      nextPiece := SetType(nextPiece, firstDraw);
      LoadedIsWellFormed(nextPiece);
      SpawnNewPiece(secondDraw);
    }

    /** Clears the flags and the score state. */
    method ResetScore()
      modifies this`gameOver, this`gamePaused, this`showHelp
      modifies this`score, this`level, this`linesCleared, this`fallSpeed
      ensures ScoreOk() && score == 0 && level == 1 && linesCleared == 0 && fallSpeed == BASE_FALL_SPEED
      ensures !gameOver && !gamePaused && !showHelp
    {
      gameOver, gamePaused, showHelp := false, false, false;
      score, level, linesCleared := 0, 1, 0;
      fallSpeed := BASE_FALL_SPEED;
      FallSpeedAtLevelOne();
    }

    /** One frame of input. A click on restart, help or close acts and ends the frame; while
        help is shown nothing else is handled; otherwise the keys are handled. */
    method HandleInput(f: InputFrame, firstDraw: PieceType, secondDraw: PieceType)
      requires Valid()
      modifies this, grid, gridColors
      ensures Valid() && lastFallTime == old(lastFallTime)
      ensures RouteOf(f, old(showHelp)) == RestartClick ==>
        Reset(firstDraw, secondDraw) && currentPiece == Spawned(SetType(old(nextPiece), firstDraw))
      ensures RouteOf(f, old(showHelp)) == HelpClick ==>
        SameGame() && currentPiece == old(currentPiece) && gamePaused == old(gamePaused) && showHelp == !old(showHelp)
      ensures RouteOf(f, old(showHelp)) == CloseHelpClick ==>
        SameGame() && currentPiece == old(currentPiece) && gamePaused == old(gamePaused) && !showHelp
      ensures RouteOf(f, old(showHelp)) == HelpShown ==>
        unchanged(this, grid, gridColors)
      ensures RouteOf(f, old(showHelp)) == KeyHandling && IsKeyPressed(f, KeyR) ==>
        Reset(firstDraw, secondDraw) &&
        currentPiece == Steer(EmptyBoard(), Spawned(SetType(old(nextPiece), firstDraw)), f)
      ensures RouteOf(f, old(showHelp)) == KeyHandling && !IsKeyPressed(f, KeyR) ==>
        SameGame() && !showHelp &&
        gamePaused == (old(gamePaused) != IsKeyPressed(f, KeyP)) &&
        currentPiece == if old(gameOver) || gamePaused then old(currentPiece) else Steer(board, old(currentPiece), f)
    {
      if IsMouseClicked(f) {
        if f.overRestart {
          Restart(firstDraw, secondDraw);
          return;
        }
        if f.overHelp {
          showHelp := !showHelp;
          return;
        }
        if showHelp && f.overCloseHelp {
          showHelp := false;
          return;
        }
      }
      if showHelp {
        return;
      }
      HandleKeys(f, firstDraw, secondDraw);
    }

    /** The keys of one frame while help is not shown: P and R work even when the game is
        over, and R does not end the frame; the movement keys are then handled only when the
        game is neither over nor paused. */
    method HandleKeys(f: InputFrame, firstDraw: PieceType, secondDraw: PieceType)
      requires Valid() && !showHelp
      modifies this, grid, gridColors
      ensures Valid() && lastFallTime == old(lastFallTime)
      ensures IsKeyPressed(f, KeyR) ==>
        Reset(firstDraw, secondDraw) &&
        currentPiece == Steer(EmptyBoard(), Spawned(SetType(old(nextPiece), firstDraw)), f)
      ensures !IsKeyPressed(f, KeyR) ==>
        SameGame() && !showHelp &&
        gamePaused == (old(gamePaused) != IsKeyPressed(f, KeyP)) &&
        currentPiece == if old(gameOver) || gamePaused then old(currentPiece) else Steer(board, old(currentPiece), f)
    {
      if IsKeyPressed(f, KeyP) {
        gamePaused := !gamePaused;
      }
      if IsKeyPressed(f, KeyR) {
        Restart(firstDraw, secondDraw);
      }
      MovementKeys(f);
    }

    /** The movement keys, handled only when the game is neither over nor paused. */
    method MovementKeys(f: InputFrame)
      requires Valid()
      modifies this`currentPiece
      ensures Valid()
      ensures currentPiece == if gameOver || gamePaused then old(currentPiece) else Steer(board, old(currentPiece), f)
    {
      if gameOver || gamePaused {
        return;
      }
      CountedCellExists(currentPiece.shape);
      SteerKeepsPieceLive(board, currentPiece, f);
      SteerPiece(f);
    }
  }
}
