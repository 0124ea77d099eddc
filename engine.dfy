/** The browser engine's `Tetris` class: the game state lives in mutable
    fields and every operation updates them in place. Each method is proved
    to leave the fields describing exactly the state the corresponding
    function of `Rules` computes from the old fields, so the properties
    proved there hold of the running game. */
module Engine {
  import opened Wrappers
  import opened Geometry
  import opened Playfield
  import opened Kicks
  import opened Scoring
  import opened LockDelay
  import opened Bag
  import opened Controls
  import opened Rules

  /** The two situations in which the engine throws. */
  datatype EngineError = NoActivePiece | ActivePieceExists

  /** Builds the matrix of a new game, one row and one cell at a time. */
  method CreateNewMatrix() returns (newMatrix: Matrix)
    ensures |newMatrix| == MATRIX_HEIGHT
    ensures forall i :: 0 <= i < |newMatrix| ==> |newMatrix[i]| == MATRIX_WIDTH
    ensures forall i, j :: 0 <= i < |newMatrix| && 0 <= j < |newMatrix[i]| ==> newMatrix[i][j] == None
    ensures newMatrix == EmptyMatrix()
  {
    newMatrix := [];
    for i := 0 to MATRIX_HEIGHT
      invariant |newMatrix| == i
      invariant forall k :: 0 <= k < i ==> newMatrix[k] == EmptyRow<Cell>(None)
    {
      var row: seq<Cell> := [];
      for j := 0 to MATRIX_WIDTH
        invariant |row| == j && forall k :: 0 <= k < j ==> row[k] == None
      {
        row := row + [None];
      }
      assert row == EmptyRow<Cell>(None);
      newMatrix := newMatrix + [row];
    }
    assert newMatrix == EmptyRows<Cell>(None, MATRIX_HEIGHT as nat);
  }

  /** The write loop of `placeTetromino`: every cell of the 5 x 5 frame
      at (x, y) that the figure covers is set to `v`. Where the figure
      fits, the result is the matrix with the piece locked in. */
  method LockCells(m0: Matrix, f: Figure, x: int, y: int, v: Cell) returns (m: Matrix)
    requires WellShaped(m0) && !Collides(m0, None, f, FRAME, x, y)
    ensures m == Lock(m0, f, FRAME, x, y, v)
  {
    m := m0;
    for i := 0 to FRAME
      invariant WellShaped(m)
      invariant forall row, col :: 0 <= row < MATRIX_HEIGHT && 0 <= col < MATRIX_WIDTH ==>
                  m[row][col] == if Occupies(f, FRAME, row - y, col - x) && row - y < i then v else m0[row][col]
    {
      for j := 0 to FRAME
        invariant WellShaped(m)
        invariant forall row, col :: 0 <= row < MATRIX_HEIGHT && 0 <= col < MATRIX_WIDTH ==>
                    m[row][col] == if Occupies(f, FRAME, row - y, col - x) && (row - y < i || (row - y == i && col - x < j)) then v else m0[row][col]
      {
        if i * FRAME + j in f {
          FreePlacementInside(m0, None, f, FRAME, x, y, i, j);
          m := m[y + i := m[y + i][x + j := v]];
        }
      }
    }
    forall row, col | 0 <= row < MATRIX_HEIGHT && 0 <= col < MATRIX_WIDTH
      ensures m[row][col] == Lock(m0, f, FRAME, x, y, v)[row][col]
    {
      LockAt(m0, f, FRAME, x, y, v, row, col);
    }
    SameCells(m, Lock(m0, f, FRAME, x, y, v));
  }

  class Tetris {
    /** The tables and the randomiser the game was started with. */
    const c: Config

    var matrix: Matrix
    var activePiece: Option<Piece>
    var heldPieceType: Option<PieceKind>
    var queue: seq<PieceKind>
    /** Bags taken from the randomiser so far. */
    var bagsUsed: nat
    /** Pieces taken from the queue so far. */
    ghost var dealt: nat

    var score: int
    var level: int
    var linesCleared: int

    var holdUsed: bool
    var droppingHard: bool
    var droppingSoft: bool

    var lockDelay: bool
    var lockDelayTimer: int
    var moveResetCounter: int

    var active: bool

    /** The lock-delay fields as one value. */
    function LockState(): LockDelayState
      reads this
    {
      LockDelayState(lockDelay, lockDelayTimer, moveResetCounter)
    }

    /** The fields as one game state. */
    ghost function State(): GameState
      reads this
    {
      GameState(matrix, activePiece, heldPieceType, queue, bagsUsed, dealt,
                score, level, linesCleared, holdUsed, droppingHard, droppingSoft,
                LockState(), active)
    }

    /** Between calls: well-formed tables, a consistent state and a piece in
        play. */
    ghost predicate Valid()
      reads this
    {
      TablesOk(c) && Consistent(c, State()) && activePiece.Some?
    }

    /** A new game: an empty matrix, a bag dealt into the queue and its
        first piece spawned, at the chosen starting level. The game mode is
        part of `c0`. */
    constructor(c0: Config, startingLevel: int)
      requires TablesOk(c0)
      ensures Valid() && State() == NewGame(c0, startingLevel)
    {
      c := c0;
      score := 0;
      level := startingLevel;
      linesCleared := 0;
      activePiece := None;
      heldPieceType := None;
      queue := [];
      bagsUsed := 0;
      dealt := 0;
      holdUsed := false;
      droppingHard := false;
      droppingSoft := false;
      lockDelay := false;
      lockDelayTimer := LOCK_DELAY_TIME;
      moveResetCounter := 0;
      active := false;
      new;
      matrix := CreateNewMatrix();
      ghost var blank := GameState(EmptyMatrix(), None, None, [], 0, 0, 0, startingLevel, 0,
                                   false, false, false, Disarmed, false);
      assert State() == blank;
      RefillNextQueue();
      ghost var filled := Refilled(c, blank);
      assert IsNthBag(c.bags, 0);
      var _ := AdvanceNextQueue();
      assert State() == Advanced(c, filled);
      active := true;
      assert State() == NewGame(c0, startingLevel);
    }

    // ------------------------------------------------------------- queries

    /** The piece of type `kind` in rotation `rotation` with its frame at
        (x, y) is out of bounds or overlaps a block: the 5 x 5 frame is
        scanned and a flag is raised at every covered cell that is blocked.
        The figure is read through the active piece, which must exist. */
    method Intersects(x: int, y: int, rotation: int, kind: int) returns (intersection: bool)
      requires WellShaped(matrix) && activePiece.Some?
      ensures intersection == Collides(matrix, None, Image(c.figures, kind, rotation), FRAME, x, y)
    {
      intersection := false;
      var temp := Image(c.figures, kind, rotation);
      for i := 0 to FRAME
        invariant intersection <==> exists n :: 0 <= n < i * FRAME && n in temp && CellBlocked(matrix, None, FRAME, x, y, n)
      {
        for j := 0 to FRAME
          invariant intersection <==> exists n :: 0 <= n < i * FRAME + j && n in temp && CellBlocked(matrix, None, FRAME, x, y, n)
        {
          CellIndex(FRAME, i, j);
          if i * FRAME + j in temp {
            if y + i < 0 || y + i > |matrix| - 1 || x + j < 0 || x + j > |matrix[y + i]| - 1 || matrix[y + i][x + j] != None {
              assert CellBlocked(matrix, None, FRAME, x, y, i * FRAME + j);
              intersection := true;
            }
          }
        }
      }
      CollidesIffSomeCell(matrix, None, temp, FRAME, x, y);
    }

    /** The active piece may be locked where it is: it fits, and one row
        lower it would not. */
    method CanPlaceTetromino() returns (b: bool)
      requires WellShaped(matrix) && activePiece.Some?
      ensures b == CanPlace(c, matrix, activePiece.value)
    {
      var p := activePiece.value;
      var here := Intersects(p.x, p.y, p.rotation, p.kind);
      var below := Intersects(p.x, p.y + 1, p.rotation, p.kind);
      b := !here && below;
    }

    /** The ghost row of the active piece, found by probing one row down at
        a time; throws when there is no active piece. */
    method FindGhostPieceY() returns (r: Result<int, EngineError>)
      requires TablesOk(c) && WellShaped(matrix)
      ensures activePiece.None? ==> r == Err(NoActivePiece)
      ensures activePiece.Some? ==> r == Ok(DropRow(c, matrix, activePiece.value))
    {
      if activePiece.None? {
        return Err(NoActivePiece);
      }
      var p := activePiece.value;
      var f := Img(c, p);
      var ghostPieceY := p.y;
      var dropAllowed := true;
      while dropAllowed
        invariant p.y <= ghostPieceY
        invariant forall row :: p.y < row <= ghostPieceY ==> !Collides(matrix, None, f, FRAME, p.x, row)
        invariant !dropAllowed ==> Collides(matrix, None, f, FRAME, p.x, ghostPieceY + 1)
        decreases dropAllowed, MATRIX_HEIGHT - ghostPieceY
      {
        var blocked := Intersects(p.x, ghostPieceY + 1, p.rotation, p.kind);
        if !blocked {
          FreePlacementAboveFloor(matrix, None, f, FRAME, p.x, ghostPieceY + 1);
          ghostPieceY := ghostPieceY + 1;
        } else {
          dropAllowed := false;
        }
      }
      GhostRowUnique(matrix, None, f, FRAME, p.x, p.y, ghostPieceY, DropRow(c, matrix, p));
      r := Ok(ghostPieceY);
    }

    /** A move or rotation while the game runs counts as a move reset. */
    method MoveReset()
      modifies this
      ensures State() == if old(active) then old(State()).(lock := LockDelay.MoveReset(old(LockState()))) else old(State())
    {
      if !active {
        return;
      }
      if lockDelay && moveResetCounter < MOVE_RESET_LIMIT {
        moveResetCounter := moveResetCounter + 1;
        lockDelayTimer := LOCK_DELAY_TIME;
      }
    }

    // ------------------------------------------------------------ movement

    /** The slide of `moveTetrominoY` after a blocked move: `dy` shrinks
        toward 0 one row at a time until the piece fits there or `dy` is 0. */
    method SlideBack(p: Piece, dy: int) returns (d: int)
      requires WellShaped(matrix) && activePiece.Some?
      requires Collides(matrix, None, Img(c, p), FRAME, p.x, p.y + dy)
      ensures d == SlideAsWritten(matrix, None, Img(c, p), FRAME, p.x, p.y, dy)
    {
      ghost var f := Img(c, p);
      d := dy;
      var blocked := true;
      while blocked && d != 0
        invariant blocked == Collides(matrix, None, f, FRAME, p.x, p.y + d)
        invariant SlideAsWritten(matrix, None, f, FRAME, p.x, p.y, d) == SlideAsWritten(matrix, None, f, FRAME, p.x, p.y, dy)
        decreases if d < 0 then -d else d
      {
        if d > 0 {
          d := d - 1;
        } else {
          d := d + 1;
        }
        blocked := Intersects(p.x, p.y + d, p.rotation, p.kind);
      }
    }


    /** Moves the active piece `dx` columns when the destination is free. */
    method MoveTetrominoX(dx: int)
      requires Valid()
      modifies this
      ensures Valid() && State() == MovedX(c, old(State()), dx)
    {
      if !active {
        return;
      }
      var p := activePiece.value;
      var blocked := Intersects(p.x + dx, p.y, p.rotation, p.kind);
      if !blocked {
        activePiece := Some(p.(x := p.x + dx));
        MoveReset();
      }
    }

    /** Moves the active piece `dy` rows. A destination that collides makes
        `dy` shrink toward 0 one row at a time until the piece fits (or `dy`
        reaches 0); the piece then locks if it should, or else the lock
        delay starts. A free destination is taken, and the lock delay is
        stopped while move resets remain. */
    method MoveTetrominoY(dy: int)
      requires Valid()
      modifies this
      ensures Valid() && State() == MovedY(c, old(State()), dy)
    {
      if !active {
        return;
      }
      var p := activePiece.value;
      ghost var s := State();
      var blocked := Intersects(p.x, p.y + dy, p.rotation, p.kind);
      if blocked {
        BlockedMoveSettles(c, s, dy);
        var d := SlideBack(p, dy);
        assert p.(y := p.y + d) == Landing(c, matrix, p, dy);
        Settle(p.(y := p.y + d));
      } else {
        FreeMoveFalls(c, s, dy);
        Fall(p.(y := p.y + dy));
      }
    }

    /** A free vertical move: the piece moves to `q`, and the countdown stops
        and the resets are forgotten unless all resets are used up. */
    method Fall(q: Piece)
      modifies this
      ensures State() == old(State()).(activePiece := Some(q), lock := Fell(old(LockState())))
    {
      activePiece := Some(q);
      if moveResetCounter < MOVE_RESET_LIMIT {
        lockDelay := false;
        lockDelayTimer := LOCK_DELAY_TIME;
        moveResetCounter := 0;
      }
    }

    /** The end of a blocked vertical move, with the piece moved to `q`: it
        locks there if the lock delay has run out or a hard drop is under
        way, and the lock delay is cleared; otherwise the countdown starts
        unless it is already running. */
    method Settle(q: Piece)
      requires Valid()
      modifies this
      ensures Valid() && State() == Settled(c, old(State()), q)
    {
      ghost var s := State();
      activePiece := Some(q);
      assert State() == s.(activePiece := Some(q));
      if ShouldPlace(LockState(), droppingHard) {
        PlaceAndDisarm();
      } else {
        ArmLockDelay();
      }
    }

    /** The placing arm of a blocked downward move: lock the piece, end the
        hard drop and stop the countdown. */
    method PlaceAndDisarm()
      requires Valid()
      modifies this
      ensures State() == PlaceAttempted(c, old(State())).(droppingHard := false, lock := Disarmed)
    {
      PlaceTetromino();
      droppingHard := false;
      lockDelay := false;
      lockDelayTimer := LOCK_DELAY_TIME;
      moveResetCounter := 0;
    }

    /** The waiting arm of a blocked downward move: start the countdown
        unless it already runs. */
    method ArmLockDelay()
      modifies this
      ensures State() == old(State()).(lock := Landed(old(LockState())))
    {
      if !lockDelay {
        lockDelay := true;
        lockDelayTimer := LOCK_DELAY_TIME;
        moveResetCounter := 0;
      }
    }

    // ------------------------------------------------------------- rotation

    /** The kick loop of `rotateTetromino`: the columns of the piece's
        offset table are tried in order, and the first whose kick leaves the
        rotated piece free is returned. */
    method FindKick(p: Piece, to: Rotation, t: OffsetTable) returns (col: Option<nat>)
      requires WellShaped(matrix) && activePiece.Some? && WellFormedOffsetTable(t)
      ensures col == FirstFreeKick(matrix, None, Image(c.figures, p.kind, to), FRAME, t, p.rotation, to, p.x, p.y, 0)
    {
      ghost var f := Image(c.figures, p.kind, to);
      var i := 0;
      while i < |t[0]|
        invariant 0 <= i <= |t[0]|
        invariant forall k :: 0 <= k < i ==> KickBlocked(matrix, None, f, FRAME, t, p.rotation, to, p.x, p.y, k)
      {
        var offsetX := t[p.rotation][i].0 - t[to][i].0;
        var offsetY := t[p.rotation][i].1 - t[to][i].1;
        var blocked := Intersects(p.x + offsetX, p.y - offsetY, to, p.kind);
        if !blocked {
          FirstFreeKickSkipsBlocked(matrix, None, f, FRAME, t, p.rotation, to, p.x, p.y, 0, i);
          return Some(i);
        }
        i := i + 1;
      }
      FirstFreeKickSkipsBlocked(matrix, None, f, FRAME, t, p.rotation, to, p.x, p.y, 0, i);
      return None;
    }

    /** Rotates the active piece by `distance` quarter turns, taking the
        first kick of its type's offset table that fits; with no fitting
        kick nothing changes. Throws when the game runs without an active
        piece. */
    method RotateTetromino(distance: int) returns (r: Result<(), EngineError>)
      requires TablesOk(c) && Consistent(c, State())
      modifies this
      ensures State() == Rotated(c, old(State()), distance)
      ensures r.Err? <==> old(active) && old(activePiece).None?
      ensures r.Err? ==> r.error == NoActivePiece
    {
      if !active {
        return Ok(());
      }
      if activePiece.None? {
        return Err(NoActivePiece);
      }
      var p := activePiece.value;
      var newRotation := p.rotation + distance;
      while newRotation < 0
        invariant (newRotation - p.rotation - distance) % 4 == 0
        decreases -newRotation
      {
        newRotation := newRotation + 4;
      }
      newRotation := newRotation % 4;
      assert newRotation == RotationAfter(p.rotation, distance) by {
        assert (newRotation - RotationAfter(p.rotation, distance)) % 4 == 0;
      }
      var t: OffsetTable;
      if p.kind == I_PIECE {
        t := c.offsetData[1];
      } else if p.kind == O_PIECE {
        t := c.offsetData[2];
      } else {
        t := c.offsetData[0];
      }
      assert t == TableFor(c, p.kind);
      var col := FindKick(p, newRotation, t);
      assert col == KickFor(c, matrix, p, distance);
      if col.Some? {
        var k := col.value;
        activePiece := Some(Piece(p.kind, newRotation, p.x + (t[p.rotation][k].0 - t[newRotation][k].0),
                                  p.y - (t[p.rotation][k].1 - t[newRotation][k].1)));
        assert activePiece.value == Kicked(c, p, distance, k);
        MoveReset();
      }
      r := Ok(());
    }

    // ----------------------------------------------------------------- hold

    /** Swaps the active piece's type into the hold slot, once per piece;
        the held type spawns in its place, or the next piece from the queue
        when nothing was held. */
    method HoldTetromino()
      requires Valid()
      modifies this
      ensures Valid() && State() == Held(c, old(State()))
    {
      if !active {
        return;
      }
      if activePiece.Some? && !holdUsed {
        holdUsed := true;
        var kind := activePiece.value.kind;
        if heldPieceType.None? {
          heldPieceType := Some(kind);
          activePiece := None;
          var _ := AdvanceNextQueue();
        } else {
          activePiece := Some(Spawn(heldPieceType.value));
          heldPieceType := Some(kind);
        }
      }
    }

    // ------------------------------------------------------------ hard drop

    /** Moves the active piece down one row at a time while the hard drop is
        under way; the move that finds the piece resting locks it and ends
        the drop. */
    method HardDrop()
      requires Valid()
      modifies this
      ensures Valid() && State() == HardDropped(c, old(State()))
    {
      if !active {
        return;
      }
      ghost var s0 := State();
      ghost var g := DropRow(c, matrix, activePiece.value);
      droppingHard := true;
      droppingSoft := false;
      assert Dropping(c, s0, State()) by {
        assert s0.activePiece.value.(y := activePiece.value.y) == activePiece.value;
      }
      while droppingHard
        invariant Valid()
        invariant droppingHard ==> Dropping(c, s0, State())
        invariant !droppingHard ==> State() == HardDropped(c, s0)
        decreases if droppingHard then g + 1 - activePiece.value.y else 0
      {
        if activePiece.value.y < g {
          HardDropStepsDown(c, s0, State());
        } else {
          HardDropEndsOnGhostRow(c, s0, State());
        }
        MoveTetrominoY(1);
      }
    }

    // ------------------------------------------------------------ placement

    /** Locks the active piece where it is, if the game runs and the piece
        rests there: each covered cell of its 5 x 5 frame is set to its type;
        then full rows are cleared, the next piece spawns and hold becomes
        available again. */
    method PlaceTetromino()
      requires TablesOk(c) && Consistent(c, State()) && activePiece.Some?
      modifies this
      ensures State() == PlaceAttempted(c, old(State()))
    {
      if !active {
        return;
      }
      var canPlace := CanPlaceTetromino();
      if canPlace {
        ghost var s := State();
        LockActive();
        ClearLines();
        assert State() == Cleared(c, LockedIn(c, s));
        var _ := AdvanceNextQueue();
        holdUsed := false;
        assert State() == Placed(c, s);
      }
    }

    /** The write loop of `placeTetromino` for a piece that fits: each
        covered cell of its 5 x 5 frame is set to its type; then the hard
        drop ends and the piece is gone. */
    method LockActive()
      requires WellShaped(matrix) && activePiece.Some? && !Hits(c, matrix, activePiece.value)
      modifies this
      ensures State() == LockedIn(c, old(State()))
    {
      var p := activePiece.value;
      matrix := LockCells(matrix, Img(c, p), p.x, p.y, Some(p.kind));
      droppingHard := false;
      activePiece := None;
    }

    /** Removes every full row, scanning from the top: a full row is
        overwritten by the rows above it, each moved down one cell at a
        time, and row 0 becomes empty. Then the score, line total and level
        are updated, and a sprint ends once enough lines are cleared. */
    method ClearLines()
      requires Consistent(c, State())
      modifies this
      ensures State() == Cleared(c, old(State()))
    {
      if !active {
        return;
      }
      var m, lines := RemoveFullRows(matrix, None);
      matrix := m;
      ScoreLines(lines);
      CountLines(lines);
    }

    /** The scoring switch of `clearLines`: 100, 300, 500 or 800 points for
        one to four rows, times the level plus one. */
    method ScoreLines(lines: int)
      modifies this
      ensures State() == old(State()).(score := old(score) + ClearScore(lines, old(level) + 1))
    {
      if lines == 1 {
        score := score + 100 * (level + 1);
      } else if lines == 2 {
        score := score + 300 * (level + 1);
      } else if lines == 3 {
        score := score + 500 * (level + 1);
      } else if lines == 4 {
        score := score + 800 * (level + 1);
      }
    }

    /** The end of `clearLines`: the rows join the line total, the level
        rises to a tenth of it when that is higher, and a sprint ends once
        SPRINT_REQUIREMENT lines are cleared. */
    method CountLines(lines: int)
      modifies this
      ensures var total := old(linesCleared) + lines;
              State() == old(State()).(linesCleared := total, level := RaisedLevel(old(level), total),
                                       active := old(active) && !(c.gameMode == Sprint && total >= SPRINT_REQUIREMENT))
    {
      ghost var s := State();
      linesCleared := linesCleared + lines;
      if linesCleared / 10 > level {
        level := linesCleared / 10;
      }
      assert State() == s.(linesCleared := linesCleared, level := RaisedLevel(s.level, linesCleared));
      if c.gameMode == Sprint && linesCleared >= SPRINT_REQUIREMENT {
        active := false;
      }
    }

    // ------------------------------------------------------- frame handlers

    /** Delayed auto shift for the given held times of the left and right
        keys: the branches pick a direction (or none) and move there. */
    method HandleDAS(leftTime: nat, rightTime: nat)
      requires Valid()
      modifies this
      ensures Valid() && State() == Shifted(c, old(State()), leftTime, rightTime)
    {
      var leftPassedDelay := leftTime > AUTO_START_DELAY;
      var rightPassedDelay := rightTime > AUTO_START_DELAY;
      var leftMatches := leftTime % AUTO_REPEAT_RATE == 0;
      var rightMatches := rightTime % AUTO_REPEAT_RATE == 0;
      if !(leftMatches || rightMatches) {
        return;
      }
      if leftPassedDelay && !rightPassedDelay && leftMatches {
        MoveTetrominoX(-1);
      } else if !leftPassedDelay && rightPassedDelay && rightMatches {
        MoveTetrominoX(1);
      } else if leftPassedDelay && rightPassedDelay {
        if rightTime < leftTime {
          if rightMatches {
            MoveTetrominoX(1);
          }
        } else if leftMatches {
          MoveTetrominoX(-1);
        }
      }
    }

    /** Soft drop: one row down on every SOFT_DROP_SPEED-th frame the key is
        held. */
    method HandleSoftDrop(softTime: nat)
      requires Valid()
      modifies this
      ensures Valid() && State() == SoftDropped(c, old(State()), softTime)
    {
      if softTime % SOFT_DROP_SPEED == 0 && softTime > 0 {
        MoveTetrominoY(1);
      }
    }

    /** The lock-delay countdown: a running countdown loses a frame, a
        stopped one is held at its full length. */
    method HandleLockDelay()
      requires Valid()
      modifies this
      ensures Valid() && State() == CountedDown(old(State()))
    {
      if lockDelay {
        lockDelayTimer := lockDelayTimer - 1;
      } else {
        lockDelayTimer := LOCK_DELAY_TIME;
      }
    }

    /** Gravity: on every frame the level's interval divides, the piece
        moves down by the level's number of rows. A level past the table
        uses its last entry; an interval of 0 never fires. */
    method HandleGravity(frameCount: nat)
      requires Valid()
      modifies this
      ensures Valid() && State() == Gravitated(c, old(State()), frameCount)
    {
      var entry;
      if 0 <= level < |c.levelGravities| {
        entry := c.levelGravities[level];
      } else {
        entry := c.levelGravities[|c.levelGravities| - 1];
      }
      if entry.0 != 0 && frameCount % entry.0 == 0 {
        MoveTetrominoY(entry.1);
      }
    }

    /** One frame of the game loop: the held times of the keys that are
        down grow by one, then auto shift, soft drop, the lock-delay
        countdown and gravity run in that order, and the game ends if the
        active piece then overlaps something. */
    method Tick(frameCount: nat, held: HeldTimes) returns (next: HeldTimes)
      requires Valid()
      modifies this
      ensures next == IncreaseKeyHeldTimes(held)
      ensures Valid() && State() == Ticked(c, old(State()), frameCount, next)
    {
      next := IncreaseKeyHeldTimes(held);
      HandleDAS(next.left, next.right);
      HandleSoftDrop(next.softDrop);
      HandleLockDelay();
      HandleGravity(frameCount);
      var p := activePiece.value;
      var overlaps := Intersects(p.x, p.y, p.rotation, p.kind);
      if overlaps {
        active := false;
      }
    }

    // ---------------------------------------------------------------- queue

    /** Spawns the head of the queue as the active piece and refills the
        queue; throws when a piece is still active. */
    method AdvanceNextQueue() returns (r: Result<(), EngineError>)
      requires AllBags(c.bags) && |queue| > 0 && QueueInBagOrder(c.bags, queue, dealt, bagsUsed)
      modifies this
      ensures old(activePiece).Some? ==> r == Err(ActivePieceExists) && State() == old(State())
      ensures old(activePiece).None? ==> r == Ok(()) && State() == Advanced(c, old(State()))
    {
      if activePiece.Some? {
        return Err(ActivePieceExists);
      }
      ghost var s := State();
      ghost var taken := s.(activePiece := Some(Spawn(s.queue[0])), queue := s.queue[1..], dealt := s.dealt + 1);
      TakeHeadKeepsOrder(c.bags, queue, dealt, bagsUsed);
      activePiece := Some(Spawn(queue[0]));
      queue := queue[1..];
      dealt := dealt + 1;
      assert State() == taken;
      RefillNextQueue();
      assert Advanced(c, s) == Refilled(c, taken);
      r := Ok(());
    }

    /** Appends a freshly shuffled bag when fewer than QUEUE_LENGTH pieces
        remain. */
    method RefillNextQueue()
      requires AllBags(c.bags) && QueueInBagOrder(c.bags, queue, dealt, bagsUsed)
      modifies this
      ensures State() == Refilled(c, old(State()))
    {
      if |queue| < QUEUE_LENGTH {
        queue := queue + c.bags(bagsUsed);
        bagsUsed := bagsUsed + 1;
      }
    }
  }
}
