# Tetris game-state engine in Dafny

This project models the game-state engine of a single-file Tetris game (`TetrisGame` in
`tetrisFinal.cpp`) and proves properties of it. The game has:

- a playfield of 15 columns by 20 rows, held as an occupancy array and a colour array;
- a falling *current piece* and a *next piece* (the lookahead) drawn at random from the
  seven tetrominoes;
- gravity on a timer, bottom-up line clearing, the classic 40/100/300/1200 score table
  multiplied by the level, and a level that rises every ten cleared rows;
- clockwise rotation with five wall kicks, and edge-triggered keyboard and mouse input
  with pause, restart and a help overlay.

Modules, in dependency order:

- `Pieces` (`pieces.dfy`) has the seven shape matrices, the piece record, its default
  value, `SetType`, and the quarter turn. The turn is a function (`Rotated`) and also the
  buffer loop of `rotatePiece` (`RotateShape`), which fills a fresh matrix from the
  current piece's shape.
- `Board` (`board.dfy`) has the playfield as a value (`Board`, a sequence of rows of
  cells). It defines collision, writing a piece into the playfield (`Placed`) and the
  result of clearing every full row (`Compacted`). It also holds the ghost bookkeeping
  (`ScanState`) that relates the engine's bottom-up, re-examine-after-removal scan to
  `Compacted`.
- `Motion` (`motion.dfy`) has the single steps, the hard drop and the rotation outcome
  with its ordered kick search.
- `Scoring` (`scoring.dfy`) has the score table, the level rule and the gravity interval.
- `Controls` (`controls.dfy`) covers one frame of input: edge detection, which branch a
  mouse click takes, and the combined effect of the movement keys.
- `Game` (`game.dfy`) has the class `TetrisGame`.
  - Its two `array2` fields hold the grid and the colours, and its other fields are the
    source's fields.
  - Every method of the source that updates them is a method here, proved against the
    functions of the modules above.
  - A ghost field `board` mirrors the two arrays (`Sync`).
  - The class invariant `Valid` says:
    - no full row is left standing;
    - while the game is not over, the current piece fits where it stands;
    - the level and the gravity interval agree with the cleared-row count.

Behaviour that follows the code and may be surprising:

- The P key toggles pause even after the game is over.
- The R key restarts without ending the frame: the movement keys of the same frame are
  then applied to the freshly spawned piece (`HandleKeys`).
- A hard drop moves the piece to its landing row but does not place it. Placement happens
  on the next gravity tick.
- Spawning and restarting do not reset the fall clock (`lastFallTime`).
- Cells of a placed piece above the top row are dropped.

The edge tests `isKeyPressed` and `isMouseClicked` are the plain definitions
`Controls.IsKeyPressed` and `Controls.IsMouseClicked`; `HeldKeyFiresOnce` and `RouteOf`
state their properties.

Random draws, the clock and the polled input devices are parameters:

- `PieceType` draws stand for the generator's outputs.
- `currentTime` is a real number.
- `InputFrame` holds the keys and mouse button now and one frame earlier, and the three
  hover flags.

## Model

| member | source | states |
|---|---|---|
| Pieces.ShapesHaveFourCells | tetrisFinal.cpp:23-31 | every entry of the shape table has exactly four occupied cells |
| Pieces.DefaultTetromino | tetrisFinal.cpp:51-55 | a default piece has no occupied cell, colour zero, position (0, 0) and variant 0 |
| Pieces.SetType | tetrisFinal.cpp:57-61 | loading a variant sets variant, shape and colour from the tables, keeps the position, and the shape has an occupied cell |
| Pieces.LoadedIsWellFormed | tetrisFinal.cpp:23-41 | a piece loaded from the tables has four cells and its variant's colour |
| Pieces.Rotated | tetrisFinal.cpp:873-877 | the quarter turn sends the cell at (row, col) to (col, 3 - row) |
| Pieces.Turned | tetrisFinal.cpp:870-877 | the rotation candidate keeps the number of occupied cells, and a well-formed piece (four cells of its own colour) stays well formed with an occupied cell |
| Pieces.RotateShape | tetrisFinal.cpp:871-877 | the buffer loop of the rotation computes exactly `Rotated` of the shape |
| Pieces.RotationKeepsCellCount | tetrisFinal.cpp:873-877 | a quarter turn keeps the number of occupied cells |
| Pieces.FourTurnsRestore | tetrisFinal.cpp:873-877 | four quarter turns give back the original shape |
| Board.EmptyBoardHasNoFullRow | tetrisFinal.cpp:103-104 | the cleared playfield has no full row |
| Board.EmptyBoardHasNoCells | tetrisFinal.cpp:103-104 | the cleared playfield has no occupied cell |
| Board.SameCells | tetrisFinal.cpp:66-67 | the playfield is determined by its cells |
| Board.CollidesAtOffset | tetrisFinal.cpp:783-801 | checking a displacement is checking the displaced piece in place |
| Board.LivePieceInBounds | tetrisFinal.cpp:790-796 | a piece that does not collide lies inside the walls and above the floor, and covers only free cells inside the playfield |
| Board.SpawnFitsEmptyBoard | tetrisFinal.cpp:771-781 | a piece at the spawn position never collides with an empty playfield |
| Board.PlacedStampsPiece | tetrisFinal.cpp:804-816 | placement fills exactly the piece's cells at row 0 or below with its colour, all of them previously free, drops those above the top and keeps every other cell |
| Board.Moved | tetrisFinal.cpp:968-988 | the displaced piece covers exactly the cells the original covers, each shifted by the offsets |
| Board.FullCount | tetrisFinal.cpp:823-855 | the number of full rows is at most the number of rows |
| Board.NonFullRows | tetrisFinal.cpp:823-855 | the surviving rows number the input rows minus the full ones, and none of them is full |
| Board.Repeat | tetrisFinal.cpp:845-848 | n copies of a row |
| Board.CompactedLayout | tetrisFinal.cpp:823-855 | after clearing no row is full; the top rows, one per removed row, are empty; below them are the surviving rows |
| Board.NonFullRowsMembers | tetrisFinal.cpp:826-851 | a row survives clearing exactly when it was in the playfield and was not full; colours travel with their rows |
| Board.NonFullRowsAppend | tetrisFinal.cpp:838-843 | clearing keeps the vertical order of the surviving rows |
| Board.CompactedWithoutFullRows | tetrisFinal.cpp:823-855 | with no full row, clearing removes nothing and changes nothing |
| Board.CompactedIdempotent | tetrisFinal.cpp:823-855 | clearing twice is clearing once |
| Board.CompactedFilledCount | tetrisFinal.cpp:835-848 | clearing removes exactly 15 occupied cells per removed row and no other |
| Board.ShiftDown | tetrisFinal.cpp:838-848 | removing row y moves every row above it down one row, keeps the rows below, and empties row 0 |
| Board.FullCountAppend | tetrisFinal.cpp:823-855 | the full-row count of stacked blocks is the sum of their counts |
| Board.NoFullRowCountsZero | tetrisFinal.cpp:823-855 | rows with no full row count zero |
| Board.NonFullRowsOfNoFull | tetrisFinal.cpp:823-855 | rows with no full row all survive |
| Board.FilledCountAppend | tetrisFinal.cpp:823-855 | the occupied-cell count of stacked blocks is the sum of their counts |
| Board.FilledCountEmptyRows | tetrisFinal.cpp:845-848 | the empty rows a clear adds are unoccupied |
| Board.NonFullRowsFilled | tetrisFinal.cpp:823-855 | dropping the full rows removes 15 occupied cells per row |
| Board.RowFilledAll | tetrisFinal.cpp:827-833 | a full row has 15 occupied cells |
| Board.RowFilledNone | tetrisFinal.cpp:845-848 | an emptied row has no occupied cell |
| Board.ScanStart | tetrisFinal.cpp:824-826 | before the scan the playfield is the input |
| Board.ScanEnd | tetrisFinal.cpp:852-854 | when the scan ends having removed every full input row, the playfield is the compacted input |
| Board.ScanRowAt | tetrisFinal.cpp:826-833 | the row under examination is the topmost unexamined input row |
| Board.ScanCount | tetrisFinal.cpp:835-836 | the cleared count grows by one exactly when the examined input row is full |
| Board.ScanSplit | tetrisFinal.cpp:826-851 | mid-scan layout: cleared empty rows, unexamined input rows, the current row, then the examined survivors |
| Board.ScanRemove | tetrisFinal.cpp:835-850 | removing a full examined row advances the scan by one input row and one cleared row |
| Board.ScanKeep | tetrisFinal.cpp:826-852 | a row that is not full stays and the scan moves up past it |
| Board.ScanStep | tetrisFinal.cpp:826-852 | one examined input row advances the scan state with or without a removal |
| Board.ScanRow | tetrisFinal.cpp:826-852 | examining row y after a removal re-examines the row that moved into y; above the input only empty rows remain |
| Board.PlacementFillsAtMostFourRows | tetrisFinal.cpp:803-820 | with no full row before the placement, at most four rows are full after it |
| Motion.TryMove | tetrisFinal.cpp:967-983 | a step is taken exactly when the displaced piece does not collide, and otherwise the piece stays where it is; a live piece stays live |
| Motion.FallRoom | tetrisFinal.cpp:985-989 | a piece that can still fall is above the floor |
| Motion.Dropped | tetrisFinal.cpp:985-989 | a hard drop keeps column, shape, colour and variant and never moves the piece up |
| Motion.DropStep | tetrisFinal.cpp:986-988 | one iteration of the drop loop does not change where the drop ends |
| Motion.DroppedLands | tetrisFinal.cpp:985-989 | a hard drop ends on the first row from which the piece cannot fall, passes no row from which it could, and keeps a live piece live |
| Motion.KickSearchFinds | tetrisFinal.cpp:884-892 | the kick loop takes the first kick in list order under which the turned piece fits |
| Motion.KickSearchFails | tetrisFinal.cpp:884-893 | if no kick fits, the kick loop leaves the piece unchanged |
| Motion.RotationTakesFirstFit | tetrisFinal.cpp:879-892 | rotation prefers the unshifted position, then the kicks (-1,0), (1,0), (0,-1), (-1,-1), (1,-1) in order |
| Motion.RotationWithoutFitIsDiscarded | tetrisFinal.cpp:884-893 | when no candidate position fits, the rotation is discarded |
| Motion.KickSearchShape | tetrisFinal.cpp:884-892 | a kicked result is the turned piece at a position where it does not collide |
| Motion.RotationOutcome | tetrisFinal.cpp:870-893 | rotation leaves the piece unchanged or turns it to a free position; variant and colour never change; a live piece stays live |
| Scoring.LinePoints | tetrisFinal.cpp:857-861 | clearing no row scores nothing, and clearing any row scores at least 40 times the level |
| Scoring.ScoreTable | tetrisFinal.cpp:43 | one, two, three and four rows score 40, 100, 300 and 1200 times the level |
| Scoring.FallSpeedFor | tetrisFinal.cpp:865 | the gravity interval is positive and never longer than the base interval |
| Scoring.FallSpeedAtLevelOne | tetrisFinal.cpp:107-108 | at level 1 the interval is the base interval |
| Scoring.LevelMonotone | tetrisFinal.cpp:862-866 | more cleared rows never lower the level |
| Scoring.FallSpeedShrinks | tetrisFinal.cpp:865 | each level gained strictly shortens the gravity interval |
| Controls.HeldKeyFiresOnce | tetrisFinal.cpp:908-913 | a key fires in the frame it goes down and not in the next frame while held |
| Controls.RouteOf | tetrisFinal.cpp:940-955 | the keys are handled exactly when help is hidden and no restart or help button is clicked; the frame is swallowed exactly when help is shown and no button is clicked; close acts only while help is shown |
| Controls.Shifted | tetrisFinal.cpp:967-983 | left, right and soft drop keep shape, colour and variant and keep a live piece live |
| Controls.SteerKeepsPieceLive | tetrisFinal.cpp:965-993 | all movement keys of a frame keep a live piece live, well formed and of the same variant |
| Controls.SteerWithoutKeys | tetrisFinal.cpp:967-993 | without a movement key the piece does not move |
| Game.Spawned | tetrisFinal.cpp:771-774 | a spawned piece always fits an empty playfield, and a piece loaded from the tables arrives well formed with an occupied cell |
| Game.TetrisGame.constructor | tetrisFinal.cpp:102-137 | a new game has an empty playfield, zero score and lines, level 1, the base interval, all flags off, the fall clock at 0, the first draw spawned and the second drawn as lookahead; the invariant holds |
| Game.TetrisGame.CheckCollision | tetrisFinal.cpp:783-801 | the cell loop answers exactly `Collides` on the playfield |
| Game.TetrisGame.IsGameOver | tetrisFinal.cpp:1125-1127 | while the game is not over, the current piece fits where it stands |
| Game.TetrisGame.GetScore | tetrisFinal.cpp:1133-1135 | the score is never negative |
| Game.TetrisGame.GetLevel | tetrisFinal.cpp:1137-1139 | the level is lines / 10 + 1 |
| Game.TetrisGame.GetLines | tetrisFinal.cpp:1141-1143 | the cleared-row count is never negative and determines the level |
| Game.TetrisGame.SpawnNewPiece | tetrisFinal.cpp:771-781 | the lookahead piece moves to the spawn position, a new one is drawn, and the game is over if the new piece is blocked where it appears (the flag is never cleared here) |
| Game.TetrisGame.SetCell | tetrisFinal.cpp:811-812 | writing one cell of both arrays changes exactly that cell of the playfield |
| Game.TetrisGame.WritePieceCells | tetrisFinal.cpp:804-816 | the write loop leaves exactly `Placed` of the playfield and the current piece |
| Game.TetrisGame.RowIsFull | tetrisFinal.cpp:827-833 | the early-exit row test answers exactly whether the row is full |
| Game.TetrisGame.DropRowsAbove | tetrisFinal.cpp:838-848 | the shifting loops remove row y (`ShiftDown`) |
| Game.TetrisGame.ClearLines | tetrisFinal.cpp:823-855 | the bottom-up scan returns the number of full rows and leaves the compacted playfield |
| Game.TetrisGame.ExamineRow | tetrisFinal.cpp:826-851 | one scan iteration keeps the scan invariant, counting and removing a full row or passing a row that is not full |
| Game.TetrisGame.UpdateScore | tetrisFinal.cpp:857-868 | lines and score grow by the cleared rows and their points at the old level; the level follows lines / 10 + 1 and never falls; the interval changes only when the level rises; nothing changes when no row was cleared |
| Game.TetrisGame.PlacePiece | tetrisFinal.cpp:803-820 | landing writes the piece, clears and scores the k <= 4 full rows at the old level, spawns the lookahead piece, and ends the game exactly when that piece is blocked; the invariant is kept |
| Game.TetrisGame.SettlePiece | tetrisFinal.cpp:803-819 | writing the piece, clearing and scoring leave the compacted placed playfield, no full row and a consistent score state |
| Game.TetrisGame.ShiftPiece | tetrisFinal.cpp:967-983 | one step is `TryMove` on the playfield |
| Game.TetrisGame.HardDrop | tetrisFinal.cpp:985-989 | the drop loop lands the piece at `Dropped` and does not place it |
| Game.TetrisGame.RotatePiece | tetrisFinal.cpp:870-893 | the rotation leaves the piece at `RotateOutcome` |
| Game.TetrisGame.KickPiece | tetrisFinal.cpp:884-893 | the kick loop leaves the piece at the first fitting kick, or unchanged |
| Game.TetrisGame.ShiftKeys | tetrisFinal.cpp:967-983 | left, right and soft-drop keys apply their steps in that order |
| Game.TetrisGame.SteerPiece | tetrisFinal.cpp:967-993 | the movement keys of a frame give `Steer` of the current piece |
| Game.TetrisGame.Update | tetrisFinal.cpp:895-906 | no effect while over, paused, showing help or before the interval has elapsed; otherwise the piece falls one row if it can and lands if it cannot, and the fall clock is set to now; the invariant is kept |
| Game.TetrisGame.ClearGrid | tetrisFinal.cpp:997-998 | both arrays are cleared to the empty playfield |
| Game.TetrisGame.Restart | tetrisFinal.cpp:996-1008 | empty playfield, score state at its start values, flags off, a new lookahead drawn and spawned, the fall clock untouched; the invariant holds |
| Game.TetrisGame.DealPieces | tetrisFinal.cpp:1006-1007 | on an empty playfield the freshly loaded piece spawns without collision and the game is not over |
| Game.TetrisGame.ResetScore | tetrisFinal.cpp:999-1005 | flags off, score and lines 0, level 1, base interval |
| Game.TetrisGame.HandleInput | tetrisFinal.cpp:937-994 | for each branch of the frame: a restart click restarts; a help click toggles help; a close click hides it; a frame while help is shown changes nothing; otherwise the keys are handled; the invariant and the fall clock are kept |
| Game.TetrisGame.HandleKeys | tetrisFinal.cpp:957-993 | P toggles pause even when the game is over; R restarts and the movement keys still apply to the new piece; without R the movement keys apply only when neither over nor paused |
| Game.TetrisGame.MovementKeys | tetrisFinal.cpp:965-993 | the movement keys act only when the game is neither over nor paused, and keep the invariant |

The engine invariant `Valid` is established by the constructor and kept by `Update`,
`HandleInput` and `Restart`. Two entry points have a precondition beyond the invariant:

- `PlacePiece` requires the game not to be over. It is reached only from `update`, after
  the game-over guard, and a non-colliding piece keeps every write inside the arrays.
- `ExamineRow` requires the scan's bookkeeping to hold, which `ClearLines` maintains.

## Left out

- Rendering, shaders, the pixel font, the buttons' drawing and the main loop are not
  modelled: they only read the state.
- Input polling is not modelled: `updateInput` is represented by its outputs (`InputFrame`).
  The three button hover tests, which compare cursor coordinates with rectangles, are
  given as booleans. The close-button flag is combined with `showHelp` as the source
  does.
- The random generator (`mt19937`, a uniform distribution over 0..6) is a parameter: each
  operation that draws a piece takes the drawn variant as a parameter. `HandleInput`
  takes two draws even in frames that do not restart.
- Time and the gravity interval are binary64 values in the source. Here they are exact
  reals, and `FallSpeedFor` evaluates the formula exactly, without rounding.
- Colours are float triples in the source. Here a colour is the index of its variant in
  the colour table (`PieceColor`), and `NoColor` stands for the all-zero triple.
- `baseFallSpeed` is a field that is never changed after construction. It is the
  constant `Scoring.BASE_FALL_SPEED`.
- The grid is two arrays in the class. Proofs reason about the ghost `board`, which the
  invariant `Sync` ties to the arrays cell by cell.
- Game.TetrisGame.UpdateScore: the source's `int` score, line count and level are 32-bit
  and could overflow after extremely long play. That wrap-around is not modelled; the
  fields are unbounded integers.
- Game.TetrisGame.IsPaused: it only returns the pause flag, so it has no contract.
