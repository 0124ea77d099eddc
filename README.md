# Falling-block puzzle rules engine in Dafny

This project models the rules engine of a browser falling-block puzzle game
and its earlier Python reference engine, and proves properties of both.

The browser engine is the `Tetromino` and `Tetris` classes of
`singleplayer-main.js`. Its state is:

- a 20 x 10 matrix of empty (`null`) or typed cells;
- an active piece (type, rotation, x, y) whose shape is a set of indices
  0..24 of a 5 x 5 frame;
- a queue refilled with shuffled bags of the seven types;
- a hold slot and its once-per-piece flag;
- score, level and lines cleared;
- the lock-delay machine: armed flag, countdown timer and a move-reset
  counter capped at 15.

The Python engine (`tetris.py`) is a simpler variant. It uses 3 x 3 or
5 x 5 scan frames, cells 0 (empty) or type + 1, literal offset tables, and
a queue refilled below six pieces.

Layout:

- **Value modules.** `Wrappers`, `Geometry` (types, spawn, figure and
  offset tables), `Playfield` (collision, locking, line clear, ghost row,
  slide), `Kicks` (rotation arithmetic, first-free-kick search), `Scoring`,
  `LockDelay`, `Controls` (held-key times, auto-shift, soft-drop cadence,
  gravity lookup) and `Bag` (refill, bag order). These are shared by both
  engines.
- **`Rules`.** Each browser operation as a function on a `GameState`
  value, with the properties the code promises proved about those functions.
- **`Engine`.** The browser `Tetris` class as a Dafny class whose fields
  the methods update in place. Every method is proved to leave the fields
  equal to what the matching `Rules` function computes from the old
  fields, so every property proved in `Rules` holds of the class.
- **`ReferenceRules` and `ReferenceEngine`.** The same split for
  `tetris.py`, with its quirks. Two defects are modelled both as written
  and corrected (see Findings).

The tables the browser engine loads from JSON (figures, offsets, gravities)
are parameters in `Rules.Config`. The shuffle is a function `bags` from bag
number to a permutation of 0..6. A ghost counter `dealt` and the invariant
`QueueInBagOrder` tie the queue to that stream.

Where the code does something other than what one might expect of it,
the model follows the code:

- **Auto-shift tie.** On an exact tie of held times the code moves left,
  although its own comment at singleplayer-main.js:536 says a tie is
  biased to the right (`Controls.TieMovesLeft`).
- **Moves of two or more rows.** `moveTetrominoY` shrinks a blocked move
  one row at a time and stops at the first free row. For |dy| >= 2 the
  piece can therefore end on the far side of a block that the move would
  have hit after one row (`Playfield.SlideCanPassOverBlock`). One-row
  moves never pass a block (`Rules.OneRowMoveNeverTunnels`).
- **Python scoring.** The Python engine multiplies line points by `level`,
  not `level + 1`.
- **Game over.** The game ends when the frame loop finds the active piece
  overlapping something, not by refusing to spawn. After that, the
  lock-delay countdown still runs each frame (`Rules.GameOverFreezesBoard`).

## Model

| member | source | states |
|---|---|---|
| Geometry.Spawn | singleplayer-main.js:38-52 | a new piece is unrotated and its 5 x 5 frame lies inside the matrix; it starts at column 3, row 1, and the I piece at column 2, row 0 |
| Geometry.Image | singleplayer-main.js:55-62 | a valid type and rotation give a non-empty figure of indices of the 5 x 5 frame; a lookup outside the table gives a figure with no cells (the fallback value contains no index) |
| Geometry.OffsetTableIndex | singleplayer-main.js:140-192 | the I piece uses offset table 1, the O piece table 2, every other type table 0 |
| Playfield.CollidesIffSomeCell | singleplayer-main.js:474-494 | a piece collides iff one of its figure indices lands on a blocked cell |
| Playfield.Collides | singleplayer-main.js:474-494 | the collision test of `intersects`, cell by cell of the figure; what it means is stated by CollidesIffSomeCell and CollidesIffOccupied |
| Playfield.CollidesIffOccupied | singleplayer-main.js:474-494 | a piece collides iff some occupied frame cell (i, j) maps to (y+i, x+j) outside the 20 x 10 bounds or onto a non-empty cell |
| Playfield.FreePlacementInside | singleplayer-main.js:474-494 | every cell of a non-colliding piece is inside the matrix and empty |
| Playfield.FreePlacementAboveFloor | singleplayer-main.js:474-494 | a non-colliding piece with a cell has its frame top above the floor |
| Playfield.NoCollisionInEmptyFrame | singleplayer-main.js:474-494 | a piece whose frame lies inside an empty matrix does not collide |
| Playfield.LockAt | singleplayer-main.js:306-316 | after locking, a cell holds the piece's value exactly where the figure covers it and is unchanged elsewhere |
| Playfield.Lock | singleplayer-main.js:306-316 | the write loop of `placeTetromino`; it keeps the matrix 20 x 10, and LockAt states which cells it writes |
| Playfield.LockedPieceCollides | singleplayer-main.js:306-316 | once locked, the piece's own cells are taken, so the same placement collides |
| Playfield.LockKeepsCollisions | singleplayer-main.js:306-316 | locking never frees a cell: whatever collided before still collides |
| Playfield.IsFullIffNoEmpty | singleplayer-main.js:376 | a row counts as full iff it has no empty cell |
| Playfield.EmptyRow | singleplayer-main.js:387 | the new top row has width 10 and only empty cells |
| Playfield.EmptyRowNotFull | singleplayer-main.js:387 | the new top row is never full |
| Playfield.KeptRows | singleplayer-main.js:373-389 | the rows a clear keeps are never full and are no more than the rows given |
| Playfield.FullRowCount | singleplayer-main.js:373-389 | the number of full rows; RemoveFullRows proves the row loop counts exactly these |
| Playfield.ClearFullRows | singleplayer-main.js:373-389 | the cleared matrix keeps its row count; ClearedHasNoFullRow, ClearIdempotent and RemoveFullRows state the rest |
| Playfield.ClearFullRowsSnoc | singleplayer-main.js:373-389 | extending the scan by one row adds one to the count and one empty row on top when that row is full, and keeps it at the bottom otherwise |
| Playfield.KeptRowsOfNoFullRows | singleplayer-main.js:373-389 | with no full row, every row is kept |
| Playfield.KeptRowsAreRows | singleplayer-main.js:373-389 | a clear keeps only rows of the original matrix |
| Playfield.ClearKeepsShape | singleplayer-main.js:373-389 | a clear leaves 20 rows of width 10 |
| Playfield.ClearedHasNoFullRow | singleplayer-main.js:373-389 | after a clear no row is full |
| Playfield.ClearWithoutFullRowsIsIdentity | singleplayer-main.js:373-389 | a clear without full rows counts 0 lines and changes nothing |
| Playfield.ClearIdempotent | singleplayer-main.js:373-389 | clearing twice is clearing once |
| Playfield.ClearSingleFullRow | singleplayer-main.js:373-389 | with exactly one full row k, one line is counted and the result is an empty row on top of the rows above k and the rows below k |
| Playfield.KeptRowsAroundFullRow | singleplayer-main.js:373-389 | with exactly one full row k, the kept rows are the rows above k followed by the rows below k |
| Playfield.ShiftDown | singleplayer-main.js:380-387 | removing row i: row 0 becomes empty, rows 1..i take the row above, rows below i are unchanged |
| Playfield.ClearScanStep | singleplayer-main.js:373-389 | one pass of the clear loop turns "prefix i cleared, rest untouched" into the same for prefix i+1, and adds one line exactly when row i is full |
| Playfield.RemoveFullRows | singleplayer-main.js:370-389 | the row loop leaves exactly the cleared matrix and counts exactly the full rows |
| Playfield.GhostRow | singleplayer-main.js:574-594 | the ghost row is at or below the start row, every row from below the start to it is free, and the next row collides |
| Playfield.GhostRowUnique | singleplayer-main.js:574-594 | there is only one ghost row |
| Playfield.GhostRowStepDown | singleplayer-main.js:574-594 | one row lower, the ghost row is unchanged while the piece is above it |
| Playfield.GhostRowIsResting | singleplayer-main.js:574-594 | a piece that fits where it is also fits on its ghost row and would collide one row lower |
| Playfield.SlideAsWritten | singleplayer-main.js:241-264 | a blocked move of dy rows ends between 0 and dy rows away, on a free row (if it moves), and every row between that row and the target collides |
| Playfield.SlideOneRow | singleplayer-main.js:241-264 | a blocked one-row move does not move; an unblocked one moves one row |
| Playfield.SlideCanPassOverBlock | singleplayer-main.js:241-264 | a two-row move can end past a block that stops it one row down |
| Kicks.RotationAfter | singleplayer-main.js:135-139 | the new rotation lies in [0, 4) and is congruent to rotation + distance mod 4, also for negative distances |
| Kicks.RotateBackRestores | singleplayer-main.js:135-139 | turning by -distance after distance restores the rotation |
| Kicks.FourQuarterTurnsIdentity | singleplayer-main.js:135-139 | a multiple of four quarter turns restores the rotation |
| Kicks.FirstFreeKick | singleplayer-main.js:192-207 | the column returned leaves the turned piece free and every earlier column is blocked; no column is returned iff every column is blocked |
| Kicks.KickOffset | singleplayer-main.js:149-156 | the kick is the old state's offset minus the new state's; a turn to the same state does not move the piece |
| Kicks.FirstFreeKickSkipsBlocked | singleplayer-main.js:192-207 | a search started past blocked columns gives the same answer as one started before them |
| Kicks.SingleColumn | tetris.py:119-130 | the O piece's four offsets form a well-formed one-column table |
| Scoring.LinePoints | singleplayer-main.js:392-408 | points are positive exactly for 1 to 4 lines and at least 100 per line |
| Scoring.ClearScore | singleplayer-main.js:392-408 | with a positive multiplier the award is positive exactly for 1 to 4 lines, and never negative |
| Scoring.MoreLinesEarnMore | singleplayer-main.js:392-408 | more lines at once earn strictly more, and more than the same number of single-line clears |
| Scoring.RaisedLevel | singleplayer-main.js:410-414 | the level never falls, reaches at least lines / 10, and is either the old level or lines / 10 |
| Scoring.ProgressTracksLines | singleplayer-main.js:410-414 | over any sequence of clears, lines add up and the level is the raised level of the total |
| Scoring.LevelNeverFalls | singleplayer-main.js:410-414 | over any sequence of clears the level never drops below where it started |
| LockDelay.MoveReset | singleplayer-main.js:427-436 | the counter rises by one exactly while armed and below 15, and then the timer restarts at 30; otherwise nothing changes |
| LockDelay.CountDown | singleplayer-main.js:564-571 | an armed timer drops by one; a disarmed one is reset to the full delay |
| LockDelay.Landed | singleplayer-main.js:275-280 | a blocked downward move arms the lock delay; from disarmed the timer starts at 30 with the counter at 0, and an armed state stays as it was |
| LockDelay.Fell | singleplayer-main.js:288-292 | a free downward move disarms and forgets the resets while fewer than 15 are used, and otherwise changes nothing |
| LockDelay.ShouldPlace | singleplayer-main.js:464-468 | a lock is forced by a hard drop, 15 used resets or an expired timer; JustArmedDoesNotLock, FifteenthResetForcesLock and LocksAfterDelay state when it becomes true |
| LockDelay.JustArmedDoesNotLock | singleplayer-main.js:464-468 | a freshly armed or disarmed state does not force a lock |
| LockDelay.ResetsStayInRange | singleplayer-main.js:427-436 | any number of move resets keeps the counter within 0..15 |
| LockDelay.ResetsCountUp | singleplayer-main.js:427-436 | n resets after arming leave the counter at min(n, 15) |
| LockDelay.ResetsCountFrom | singleplayer-main.js:427-436 | n resets from k leave the counter at min(k + n, 15) |
| LockDelay.FifteenthResetForcesLock | singleplayer-main.js:464-468 | the fifteenth reset forces a lock and the fourteenth does not |
| LockDelay.CountDownFrom | singleplayer-main.js:564-571 | n frames of countdown lower an armed timer by n |
| LockDelay.LocksAfterDelay | singleplayer-main.js:464-468 | after arming, the piece must lock exactly from the 30th countdown frame on |
| Controls.IncreaseKeyHeldTimes | singleplayer-main.js:1147-1163 | a held key's time rises by one each frame; a released key stays at 0 |
| Controls.HeldTimeCounts | singleplayer-main.js:1147-1163 | after n frames a held key's time has risen by n |
| Controls.DasShift | singleplayer-main.js:511-552 | the shift is left iff left is past the delay, on a repeat frame, and right is not past the delay or held at least as long; symmetrically for right with a strict comparison |
| Controls.MoreRecentKeyWins | singleplayer-main.js:534-547 | with both keys past the delay, only the more recently pressed key can move the piece, on its repeat frames |
| Controls.TieMovesLeft | singleplayer-main.js:537-546 | on an exact tie on a repeat frame the piece moves left |
| Controls.NoRepeatFrameNoMove | singleplayer-main.js:523-526 | when neither time is on a repeat frame, nothing moves |
| Controls.HeldKeyRepeats | singleplayer-main.js:511-533 | one held key moves the piece exactly on frames 12, 15, 18, ... |
| Controls.SoftDropFires | singleplayer-main.js:554-562 | the soft-drop step fires only from frame 3 of holding the key on; SoftDropCadence states the cadence |
| Controls.SoftDropCadence | singleplayer-main.js:554-562 | a held soft-drop key drops exactly once in every three consecutive frames |
| Controls.GravityEntry | singleplayer-main.js:497-509 | the gravity entry is the level's row, or the last row for levels past the table |
| Controls.GravityClamps | singleplayer-main.js:504-508 | every level past the table uses the same entry |
| Controls.GravityFires | singleplayer-main.js:497-509 | an interval of 1 moves the piece every frame and an interval of 0 never does |
| Bag.BagHasEveryKindOnce | singleplayer-main.js:459 | a bag holds each of the seven types exactly once |
| Bag.Refill | singleplayer-main.js:453-461 | a short queue gets one bag appended; a long enough queue is unchanged |
| Bag.RefillReachesThreshold | singleplayer-main.js:453-461 | after a refill the queue is at least as long as the threshold |
| Bag.BagPieceAt | singleplayer-main.js:453-461 | piece 7n + j of the stream is piece j of bag n |
| Bag.EveryKindWithinThirteen | singleplayer-main.js:453-461 | every type appears within any 13 consecutive pieces |
| Bag.NextSameWithinThirteen | singleplayer-main.js:453-461 | the next piece of the same type comes within 13 draws, so at most 12 others lie between two of one type |
| Bag.AppendBagKeepsOrder | singleplayer-main.js:453-461 | appending the next bag keeps the queue equal to the next pieces of the stream |
| Bag.TakeHeadKeepsOrder | singleplayer-main.js:439-451 | the head of the queue is the next piece of the stream, and the rest stays in stream order |
| Rules.DropRow | singleplayer-main.js:574-594 | the row found is the piece's ghost row |
| Rules.EmptyMatrix | singleplayer-main.js:113-124 | the new matrix is 20 x 10 and every cell is empty |
| Rules.NewGame | singleplayer-main.js:70-111 | a new game is consistent and running: empty matrix, nothing held, lock delay off, score and lines 0, the given level, and the first piece of the stream active at its spawn position |
| Rules.Cleared | singleplayer-main.js:363-425 | while the game runs: the matrix becomes the cleared matrix, lines rise by the number of full rows, the score by their points times level + 1, the level is raised to match the new total, and a sprint ends at 20 lines; nothing else changes, no row is left full, the game stays consistent, and once the game is over nothing changes |
| Rules.ClearedRowsNotFull | singleplayer-main.js:373-389 | no row of a cleared matrix is full |
| Rules.Refilled | singleplayer-main.js:453-461 | below five pieces the queue gets the next bag, otherwise it is unchanged; either way at least five pieces follow in stream order and nothing else changes |
| Rules.Advanced | singleplayer-main.js:439-451 | the next piece of the stream spawns, the queue loses its head and is refilled in order, and matrix, score, level, lines, lock, hold and game state are unchanged |
| Rules.Placed | singleplayer-main.js:297-326 | placing keeps the game consistent, spawns the queue's head, makes hold available, ends the hard drop, leaves the lock delay alone and leaves no full row |
| Rules.LockedIn | singleplayer-main.js:306-319 | the matrix becomes the old matrix with the piece locked in under its type, the hard drop ends and the piece is gone; nothing else changes |
| Rules.PlaceAttempted | singleplayer-main.js:297-326 | a piece is placed only while the game runs and where it rests (fits here and not one row lower); otherwise nothing changes |
| Rules.CanPlace | singleplayer-main.js:470-472 | the piece fits and would collide one row lower; PlaceableIffOnGhostRow states what this means |
| Rules.PlaceableIffOnGhostRow | singleplayer-main.js:470-472 | a piece that fits may be locked exactly when it is on its own ghost row |
| Rules.PlacedIgnoresLock | singleplayer-main.js:297-326 | placing does not read or change the lock-delay state |
| Rules.ClearedIgnoresLock | singleplayer-main.js:363-425 | clearing does not read or change the lock-delay state |
| Rules.AdvancedIgnoresLock | singleplayer-main.js:439-451 | advancing the queue does not read or change the lock-delay state |
| Rules.RefilledIgnoresLock | singleplayer-main.js:453-461 | refilling does not read or change the lock-delay state |
| Rules.MovedX | singleplayer-main.js:216-228 | while the game runs, a move whose target is free moves the piece by exactly dx and counts a move reset; a blocked move or a stopped game changes nothing |
| Rules.MovedY | singleplayer-main.js:230-295 | a vertical move keeps the game consistent and does nothing without a piece or once the game is over |
| Rules.Settled | singleplayer-main.js:262-280 | when no lock is forced, the piece moves to the landing place and the lock delay is armed; when a hard drop, 15 used resets or an expired timer force a lock, the piece at the landing place is placed if the game runs and it rests there, the hard drop ends and the lock delay is disarmed; the game stays consistent |
| Rules.Landing | singleplayer-main.js:241-264 | a blocked move keeps type, rotation and column, ends between the start row and the target row, and on a free row when it moves |
| Rules.HardDropped | singleplayer-main.js:350-361 | a hard drop keeps the game consistent and does nothing once the game is over |
| Rules.TableFor | singleplayer-main.js:140-192 | each piece type has a well-formed offset table |
| Rules.KickFor | singleplayer-main.js:140-207 | the kick column found is a column of the piece's table |
| Rules.Kicked | singleplayer-main.js:149-156 | a kicked piece keeps its type and takes the new rotation |
| Rules.KickedFits | singleplayer-main.js:192-207 | the kicked piece fits |
| Rules.Rotated | singleplayer-main.js:127-214 | a rotation changes the state only while the game runs with a piece, then leaves the piece free and counts a move reset |
| Rules.Held | singleplayer-main.js:328-348 | while the game runs with a piece and hold unused, a hold marks hold used and stores the active type; the held type spawns when there is one, otherwise the next piece of the queue is drawn; matrix, score and lock are unchanged; otherwise nothing changes |
| Rules.Shifted | singleplayer-main.js:511-552 | without an auto-shift nothing changes |
| Rules.SoftDropped | singleplayer-main.js:554-562 | off the soft-drop cadence nothing changes |
| Rules.CountedDown | singleplayer-main.js:564-571 | the countdown changes only the timer |
| Rules.Gravitated | singleplayer-main.js:497-509 | off the gravity frames nothing changes |
| Rules.OverlapChecked | singleplayer-main.js:1176-1178 | a piece that overlaps the matrix ends the game; a free piece leaves the state unchanged; nothing but the running flag ever changes |
| Rules.Ticked | singleplayer-main.js:1165-1181 | after a frame the game is consistent and, if still running, the active piece overlaps nothing |
| Rules.SpawnFitsEmptyMatrix | singleplayer-main.js:38-52 | every type fits at its spawn position in an empty matrix |
| Rules.MoveXRoundTrip | singleplayer-main.js:216-228 | a successful move by dx followed by one by -dx restores the piece and the matrix |
| Rules.MovesKeepPieceFree | singleplayer-main.js:127-228 | horizontal moves and rotations never make a free piece overlap |
| Rules.RotationTakesFirstFreeKick | singleplayer-main.js:127-214 | a rotation applies the first free kick column after all earlier ones were blocked; when all are blocked, nothing changes |
| Rules.HoldOncePerPiece | singleplayer-main.js:328-348 | a second hold before the next placement changes nothing |
| Rules.HardDropLocksOnGhostRow | singleplayer-main.js:350-361 | a hard drop places the piece on its ghost row, where it rests, and disarms the lock delay |
| Rules.HardDropStepsDown | singleplayer-main.js:350-361 | above the ghost row, each pass of the hard-drop loop moves the piece one row down and the drop continues |
| Rules.HardDropEndsOnGhostRow | singleplayer-main.js:350-361 | on the ghost row, the next pass ends the drop with the result of the hard drop |
| Rules.RestingPieceLocks | singleplayer-main.js:238-281 | a one-row move of a resting piece settles it where it is |
| Rules.FreeMoveFalls | singleplayer-main.js:283-293 | an unblocked vertical move moves the piece by dy and applies the free-fall lock rule |
| Rules.BlockedMoveSettles | singleplayer-main.js:241-281 | a blocked vertical move settles the piece on the row the slide reaches |
| Rules.SettledInPlace | singleplayer-main.js:266-273 | whenever a lock is forced (hard drop, 15 used resets or an expired timer), settling in place attempts the placement and disarms the lock delay |
| Rules.OneRowMoveNeverTunnels | singleplayer-main.js:241-264 | a blocked one-row move that does not lock leaves the piece where it was |
| Rules.GameOverFreezesBoard | singleplayer-main.js:1165-1181 | once the game is over, a frame changes nothing but the lock-delay timer |
| Rules.NoDrought | singleplayer-main.js:453-461 | the queue lists the next pieces of the stream, and every type comes within the next 13 pieces |
| Engine.CreateNewMatrix | singleplayer-main.js:113-124 | the loops build exactly 20 rows of 10 empty cells |
| Engine.LockCells | singleplayer-main.js:305-316 | the write loops over the 5 x 5 frame produce the matrix with the piece locked in |
| Engine.Tetris.constructor | singleplayer-main.js:70-111 | the constructor leaves the state of a new game |
| Engine.Tetris.Intersects | singleplayer-main.js:474-494 | the flag loop returns whether the piece collides |
| Engine.Tetris.CanPlaceTetromino | singleplayer-main.js:470-472 | true iff the piece fits here and not one row lower |
| Engine.Tetris.FindGhostPieceY | singleplayer-main.js:574-594 | with a piece, the probing loop returns its ghost row; without one it fails |
| Engine.Tetris.MoveReset | singleplayer-main.js:427-436 | while the game runs, applies the move-reset rule to the lock fields; otherwise changes nothing |
| Engine.Tetris.SlideBack | singleplayer-main.js:241-260 | the shrinking loop returns the slide distance |
| Engine.Tetris.MoveTetrominoX | singleplayer-main.js:216-228 | leaves the state the horizontal-move rule gives |
| Engine.Tetris.MoveTetrominoY | singleplayer-main.js:230-295 | leaves the state the vertical-move rule gives |
| Engine.Tetris.Fall | singleplayer-main.js:283-293 | moves the piece and applies the free-fall lock rule |
| Engine.Tetris.Settle | singleplayer-main.js:262-280 | leaves the settled state |
| Engine.Tetris.PlaceAndDisarm | singleplayer-main.js:266-273 | attempts the placement, ends the hard drop and disarms the lock delay |
| Engine.Tetris.ArmLockDelay | singleplayer-main.js:276-280 | arms the lock delay unless it is armed |
| Engine.Tetris.FindKick | singleplayer-main.js:192-207 | the kick loop returns the first free column |
| Engine.Tetris.RotateTetromino | singleplayer-main.js:127-214 | leaves the rotated state, and fails exactly when the game runs without a piece |
| Engine.Tetris.HoldTetromino | singleplayer-main.js:328-348 | leaves the state the hold rule gives |
| Engine.Tetris.HardDrop | singleplayer-main.js:350-361 | the drop loop ends and leaves the hard-dropped state |
| Engine.Tetris.PlaceTetromino | singleplayer-main.js:297-326 | leaves the state of the placement attempt |
| Engine.Tetris.LockActive | singleplayer-main.js:303-319 | writes the piece into the matrix, ends the hard drop and removes the piece |
| Engine.Tetris.ClearLines | singleplayer-main.js:363-425 | leaves the cleared state |
| Engine.Tetris.ScoreLines | singleplayer-main.js:391-408 | adds the line points times level + 1 to the score and changes nothing else |
| Engine.Tetris.CountLines | singleplayer-main.js:410-424 | adds the lines, raises the level, and ends a sprint at 20 lines |
| Engine.Tetris.HandleDAS | singleplayer-main.js:511-552 | leaves the auto-shifted state |
| Engine.Tetris.HandleSoftDrop | singleplayer-main.js:554-562 | leaves the soft-dropped state |
| Engine.Tetris.HandleLockDelay | singleplayer-main.js:564-571 | leaves the counted-down state |
| Engine.Tetris.HandleGravity | singleplayer-main.js:497-509 | leaves the state gravity gives |
| Engine.Tetris.Tick | singleplayer-main.js:1165-1181 | increases the held times and leaves the state of one frame |
| Engine.Tetris.AdvanceNextQueue | singleplayer-main.js:439-451 | with no active piece, spawns the next piece and refills the queue; with one, fails and changes nothing |
| Engine.Tetris.RefillNextQueue | singleplayer-main.js:453-461 | leaves the refilled state |
| ReferenceRules.ScanDimension | tetris.py:302-313 | the scan side is 0 without a piece, 5 for the I piece and 3 for every other type |
| ReferenceRules.Dim | tetris.py:302-313 | an active piece is scanned in a 3 x 3 or 5 x 5 frame |
| ReferenceRules.FiguresFitScanFrames | tetris.py:32-43 | every literal figure is a set of indices of its piece's scan frame |
| ReferenceRules.PyImage | tetris.py:96-99 | the image is a valid figure of the piece's scan frame |
| ReferenceRules.KickTable | tetris.py:45-67 | the offset tables are well formed, with one column for the O piece and five otherwise |
| ReferenceRules.FreePieceInField | tetris.py:375-391 | a piece that does not intersect lies inside the field |
| ReferenceRules.SpawnInField | tetris.py:81-87 | every spawn position lies inside the field |
| ReferenceRules.NewPyGame | tetris.py:180-203 | a new game has an empty 20 x 10 field, no piece, an empty queue and is running |
| ReferenceRules.Probe | tetris.py:375-391 | the placement probed is x + xd, y - yd, with the rotation turned by rd |
| ReferenceRules.PyHits | tetris.py:375-391 | the collision test with cells 0 as empty and the piece's scan frame; FreePieceInField states that a piece it lets through lies inside the field |
| ReferenceRules.IntersectsAt | tetris.py:375-391 | `intersects(xd, yd, rd)`: without a piece nothing intersects; with one the probed placement is checked for a collision; Game.Intersects proves the flag loop computes it |
| ReferenceRules.QueueAdvanced | tetris.py:224-234 | the returned type is the next piece of the stream; below six pieces a bag is appended first; the queue loses its head, keeps stream order and keeps at least five pieces |
| ReferenceRules.RefillKeepsOrder | tetris.py:227-230 | a refill keeps stream order and leaves at least six pieces |
| ReferenceRules.Spawned | tetris.py:69-91 | a new piece comes from hold if one is held and hold is asked for, otherwise from the queue; it is at its spawn position inside the field, with the lock delay off and a fresh counter; only the queue, bag count and dealt count may change besides |
| ReferenceRules.ShiftDownAsWritten | tetris.py:247-251 | as written, removing row i copies rows into rows 2..i only and empties row 0, so row 1 keeps its old content |
| ReferenceRules.ClearScanAsWritten | tetris.py:242-251 | the as-written clear loop keeps the field size |
| ReferenceRules.ScanKeepsRowOne | tetris.py:247-249 | the as-written clear never changes row 1 |
| ReferenceRules.ScanCountsRowOne | tetris.py:243-246 | a full row 1 is counted by the as-written scan |
| ReferenceRules.FullRowOneSurvivesClear | tetris.py:247 | as written, a full row 1 is counted, stays full, and is counted again by the next clear; the corrected clear leaves it not full |
| ReferenceRules.PyCleared | tetris.py:236-264 | the corrected clear leaves no full row, adds the number of full rows to the lines and never lowers the score at a non-negative level; only field, score and lines change |
| ReferenceRules.ClearedRowsNotFull | tetris.py:243-251 | no row of a cleared field is full |
| ReferenceRules.ClearScoresTimesLevel | tetris.py:254-264 | a clear of 1 to 4 lines adds the line points times the level itself |
| ReferenceRules.PyPlaced | tetris.py:278-300 | a piece is placed only while the game runs and when it would intersect one row lower; then it is written, the corrected clear runs (not the row-1 loop of tetris.py:247), it is gone, hold is available and the lock delay is off; otherwise nothing changes |
| ReferenceRules.PyLocked | tetris.py:288-292 | the write loop changes only the field |
| ReferenceRules.PlacedLocksAndClears | tetris.py:278-300 | placing writes the piece as type + 1 and applies the corrected clear (not the row-1 loop of tetris.py:247), removes the piece and makes hold available |
| ReferenceRules.PlacedWritesTypePlusOne | tetris.py:289-292 | before the corrected clear, each covered cell holds type + 1 and every other cell is unchanged |
| ReferenceRules.MovedH | tetris.py:322-332 | a move whose target is free moves the piece by exactly dx; a blocked one leaves it in place; while the lock delay is on the counter rises by one either way |
| ReferenceRules.MoveHRoundTrip | tetris.py:322-332 | a successful move by dx followed by one by -dx restores the piece |
| ReferenceRules.BlockedMoveHStillCounts | tetris.py:325-332 | a blocked move leaves the piece but still counts a move reset |
| ReferenceRules.MovedDownAsWritten | tetris.py:334-361 | the as-written downward move keeps the field 20 x 10; its defect is stated by HardDropAfterFifteenResetsHangs |
| ReferenceRules.SteppedDown | tetris.py:358-361 | a free step moves the piece one row down and switches the lock delay off while fewer than 15 resets are used |
| ReferenceRules.MovedDown | tetris.py:334-361 | the corrected downward move steps a free piece down keeping the drop flag; a blocked piece is placed and the drop ends during a hard drop and, outside one, once 15 or more resets are used; without a piece nothing changes; the game stays consistent |
| ReferenceRules.BlockedBelow | tetris.py:340-356 | the blocked branch: with 15 or more resets or during a hard drop the piece is placed (with the corrected clear) and the drop ends; otherwise, with the lock delay off, it is switched on with a fresh counter, and with it on nothing changes; the game stays consistent |
| ReferenceRules.MovedDownBranches | tetris.py:337-361 | a downward move is the blocked branch when the row below intersects and a free step otherwise |
| ReferenceRules.MovedDownAgreesOutsideHardDrop | tetris.py:343-349 | outside a hard drop the corrected move equals the move as written |
| ReferenceRules.LandingArmsLockDelay | tetris.py:351-356 | a blocked piece with fewer than 15 resets stays put and arms the lock delay, with a fresh counter if it was off |
| ReferenceRules.DropPassesAsWritten | tetris.py:372-373 | passes of the as-written hard-drop loop keep the field 20 x 10 |
| ReferenceRules.NoPieceDropNeverEnds | tetris.py:363-373 | as written, without an active piece no pass changes anything, so the drop flag stays set |
| ReferenceRules.HardDropAfterFifteenResetsHangs | tetris.py:344-345 | as written, a hard drop onto the stack after 15 move resets places the piece but leaves the drop flag set with no piece, for every later pass; the corrected move clears the flag |
| ReferenceRules.HardDropLanding | tetris.py:363-373 | the hard drop falls to the piece's ghost row, with only the piece, drop flags and lock delay changed |
| ReferenceRules.PyHardDropped | tetris.py:363-373 | the corrected hard drop (with the corrected clear on placement) always ends with the drop flags off, and changes only them without a piece |
| ReferenceRules.PyHardDropLocksOnGhostRow | tetris.py:363-373 | a hard drop places the piece on its ghost row, where it rests, writes it as type + 1 and clears full rows |
| ReferenceRules.PyDropStepsDown | tetris.py:372-373 | above the ghost row, each pass moves the piece one row down to a free row and the drop continues |
| ReferenceRules.PyDropEndsOnGhostRow | tetris.py:372-373 | on the ghost row, the next pass ends the drop with the hard-dropped state |
| ReferenceRules.PyKick | tetris.py:101-146 | the kick found is a column of the piece's table |
| ReferenceRules.PyKicked | tetris.py:113-117 | the kicked piece keeps its type and takes the new rotation |
| ReferenceRules.PyKickFits | tetris.py:101-146 | the kicked piece does not intersect |
| ReferenceRules.PyRotated | tetris.py:101-150 | a rotation changes only the piece and the counter, which rises by one while the lock delay is on, whether or not the piece turned |
| ReferenceRules.PyRotationTakesFirstFreeKick | tetris.py:101-146 | a rotation applies the first free kick after all earlier ones were blocked; when all are blocked the piece stays |
| ReferenceRules.PyHeld | tetris.py:266-276 | a hold with a piece and hold unused marks hold used, stores the active type and switches the lock delay off and resets the move-reset counter; the held type spawns when there is one, otherwise the next piece of the stream is drawn; field, score, level, lines and the other flags are unchanged; otherwise nothing changes |
| ReferenceRules.PyHoldOncePerPiece | tetris.py:266-276 | a second hold before the next placement changes nothing |
| ReferenceEngine.WriteCells | tetris.py:288-292 | the write loops over the scan frame produce the field with the piece locked in |
| ReferenceEngine.Game.constructor | tetris.py:180-203 | the constructor leaves the state of a new game |
| ReferenceEngine.Game.GetScanDimension | tetris.py:302-313 | returns the scan side of the active piece |
| ReferenceEngine.Game.Intersects | tetris.py:375-391 | the flag loop returns whether the probed placement is out of bounds or on a non-empty cell |
| ReferenceEngine.Game.AdvancePieceQueue | tetris.py:224-234 | returns the next type and leaves the advanced queue |
| ReferenceEngine.Game.RefillQueue | tetris.py:227-230 | below six pieces appends the next bag; changes nothing else |
| ReferenceEngine.Game.SpawnTetromino | tetris.py:69-91 | returns the spawned piece and leaves the spawned state |
| ReferenceEngine.Game.ClearLines | tetris.py:236-264 | leaves the state of the corrected clear |
| ReferenceEngine.Game.PlacePiece | tetris.py:278-300 | leaves the state of the placement, with the corrected clear |
| ReferenceEngine.Game.LockPiece | tetris.py:285-300 | for a resting piece in a running game, writes it, applies the corrected clear, and resets the flags |
| ReferenceEngine.Game.WritePiece | tetris.py:288-292 | writes the piece as type + 1 and changes nothing else |
| ReferenceEngine.Game.HoldPiece | tetris.py:266-276 | leaves the state of the hold |
| ReferenceEngine.Game.MovePieceH | tetris.py:322-332 | leaves the state of the horizontal move |
| ReferenceEngine.Game.MovePieceDown | tetris.py:334-361 | leaves the state of the corrected downward move |
| ReferenceEngine.Game.StepUnlessBlocked | tetris.py:337-341 | tells whether the row below intersects, and moves the piece there exactly when it does not |
| ReferenceEngine.Game.Land | tetris.py:343-356 | leaves the state of the blocked branch |
| ReferenceEngine.Game.HardDrop | tetris.py:363-373 | the corrected drop loop ends and leaves the hard-dropped state |
| ReferenceEngine.Game.FindKick | tetris.py:107-117 | the kick loop returns the first free column |
| ReferenceEngine.Game.Rotate | tetris.py:101-150 | leaves the rotated state |
| ReferenceEngine.Game.KickColumn | tetris.py:104-146 | returns the kick for the piece's type: the I and JLSTZ tables or the O piece's single offset |

## Left out

- Drawing: `GameDisplay`, zoom and text sizing, sprites, and the p5 `preload`/`setup`/`keyPressed`/`keyReleased` handlers are I/O and floating point. `draw` is modelled only as the order of the per-frame handlers (`Engine.Tetris.Tick`).
- The pygame main loop and rendering (tetris.py:393-650) are left out. This covers the level formula, gravity timers, DAS events, respawning after a placement and game over in the Python engine.
- The pygame timers (`set_timer`, `PIECE_LOCK`, `DAS_LEFT`, `DAS_RIGHT`) are asynchronous events. The Python lock delay is the `lockDelay` flag alone.
- Sprint timing via `millis()` is wall-clock input. `CountLines` ends the sprint but does not record `finalSprintTime`, and `handleSprintTimer` is not modelled.
- The shuffle is an arbitrary permutation of 0..6 per bag, given by the `bags` parameter; the random number generator is not modelled.
- The JSON figure, offset and gravity tables are parameters constrained only by well-formedness (`Rules.TablesOk`).
- `ghostPieceY` is only read by the display. `FindGhostPieceY` returns the row and the other methods do not store it.
- The `exists` flag is always true, so `Tick` assumes the game exists.
- `handleDAS` returns -1 on some paths, and no caller reads it; the return value is not modelled.
- The `return -1` branch of `moveTetrominoY` needs a non-numeric `dy`, which integers cannot be.
- `placeTetromino`'s optional position arguments are always left at their defaults by the engine, so the model places the active piece.
- `Geometry.Image` replaces the `["wallace"]` fallback with an empty figure. Neither contains a frame index, so both behave alike.
- `Engine.Tetris.Intersects` is called only with existing rows. The JavaScript read of `matrix[y + i].length` is reached only after the row test.
- `get_scan_dimension`'s "Queue"/"Hold" variant serves only the display.
- `__str__`, the `debug` prints and `call_rotation`'s bare `except` are not modelled. The `except` is modelled as "no piece, no rotation"; other exceptions it would swallow do not arise in the model.
- Python's per-piece `move_reset_counter` is a field of the game (`moveResets`) that every spawn resets.
- Python negative indices would wrap around, but every write and read in the model is inside the field. `intersects` tests the bounds before indexing, and the active piece always lies inside the field (`ReferenceRules.PyConsistent`).
- Gravity intervals are integers here; tetris.py:177 has an interval of 0.5, and that table belongs to the pygame main loop, which is not part of this model. The browser engine's gravity table is a parameter whose entries are taken as integers.
- JavaScript numbers are doubles. Score, level and line counts are unbounded integers here, so the model does not cover precision loss above 2^53.
- Neither `main.js` (an abandoned draft of the same class) nor `task-test.js` (a delayed-callback registry) is part of this model.
- ReferenceRules.MovedDownAsWritten: its own contract states only the field shape. Its behaviour is stated by `MovedDownAgreesOutsideHardDrop` and `HardDropAfterFifteenResetsHangs`.
- ReferenceRules.ClearScanAsWritten: its own contract states only the field size. Its behaviour is stated by `ScanKeepsRowOne`, `ScanCountsRowOne` and `FullRowOneSurvivesClear`.

## Findings

| source | as written | input that shows it | evidently intended | confidence | as-written member | corrected member |
|---|---|---|---|---|---|---|
| tetris.py:247 | `range(i, 1, -1)` stops shifting at row 2, so row 1 is never replaced by the row above it | a field whose row 1 is full: the clear counts it, leaves it full, and the next clear counts it again; also any clear of a full row i of 2 or more: the old row 1 stays in row 1 as well as moving to row 2, and the old row 0 is lost | shift down to row 1, as `range(i, 0, -1)` and as singleplayer-main.js:380 does | high; not executed | ReferenceRules.ClearScanAsWritten (shown by ReferenceRules.FullRowOneSurvivesClear) | ReferenceRules.PyCleared, ReferenceEngine.Game.ClearLines; also used by ReferenceRules.PyPlaced, PlacedLocksAndClears, PlacedWritesTypePlusOne, PyHardDropped and ReferenceEngine.Game.PlacePiece, LockPiece |
| tetris.py:344-345 | after 15 move resets the blocked branch places the piece but does not clear `hard_dropping`, and `hard_drop`'s loop (tetris.py:372-373) then spins with no active piece | a hard drop of a piece resting on the stack whose move-reset counter is 15 or more; also any hard drop started with no active piece | end the hard drop whenever the piece is placed, as tetris.py:347-349 does; the corrected `Game.HardDrop` also stops its loop when no piece is active, where tetris.py:372 tests only `hard_dropping` | high; not executed | ReferenceRules.MovedDownAsWritten (shown by ReferenceRules.HardDropAfterFifteenResetsHangs and ReferenceRules.NoPieceDropNeverEnds) | ReferenceRules.MovedDown, ReferenceRules.PyHardDropped, ReferenceEngine.Game.HardDrop |
