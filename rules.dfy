/** The browser engine's rules as functions on one value holding the whole
    game state. Each operation of the `Tetris` class is proved to turn its
    state into the state one of these functions gives, and the properties
    of the game are proved here, about the functions. */
module Rules {
  import opened Wrappers
  import opened Geometry
  import opened Playfield
  import opened Kicks
  import opened Scoring
  import opened LockDelay
  import opened Bag
  import opened Controls

  /** A matrix cell: empty, or the type of the piece locked there. */
  type Cell = Option<PieceKind>
  type Matrix = seq<seq<Cell>>

  const SPRINT_REQUIREMENT: int := 20

  datatype GameMode = Marathon | Sprint

  /** What the engine reads but never changes: the figure table, the three
      offset tables, the gravity table, the shuffled bags and the mode. */
  datatype Config = Config(figures: seq<seq<Figure>>, offsetData: seq<OffsetTable>,
                           levelGravities: seq<(int, int)>, bags: nat -> seq<PieceKind>,
                           gameMode: GameMode)

  ghost predicate TablesOk(c: Config) {
    WellFormedFigures(c.figures) && WellFormedOffsetData(c.offsetData) &&
    |c.levelGravities| > 0 && AllBags(c.bags)
  }

  /** Everything the rules change. `dealt` counts the pieces taken from the
      queue so far; `bagsUsed` counts the bags appended to it. */
  datatype GameState = GameState(
    matrix: Matrix, activePiece: Option<Piece>, heldPieceType: Option<PieceKind>,
    queue: seq<PieceKind>, bagsUsed: nat, dealt: nat,
    score: int, level: int, linesCleared: int,
    holdUsed: bool, droppingHard: bool, droppingSoft: bool,
    lock: LockDelayState, active: bool)

  /** The invariant every operation keeps: a 20 x 10 matrix, a queue that
      can show QUEUE_LENGTH pieces, pieces dealt exactly in bag order, and a
      move-reset count within its limit. */
  ghost predicate Consistent(c: Config, s: GameState) {
    WellShaped(s.matrix) && |s.queue| >= QUEUE_LENGTH &&
    QueueInBagOrder(c.bags, s.queue, s.dealt, s.bagsUsed) && InRange(s.lock)
  }

  function Img(c: Config, p: Piece): Figure {
    Image(c.figures, p.kind, p.rotation)
  }

  /** The piece, where it is, is out of bounds or overlaps a block. */
  ghost predicate Hits(c: Config, m: Matrix, p: Piece)
    requires WellShaped(m)
  {
    Collides(m, None, Img(c, p), FRAME, p.x, p.y)
  }

  /** The piece may be locked where it is: it fits, and one row lower it
      would not. */
  ghost predicate CanPlace(c: Config, m: Matrix, p: Piece)
    requires WellShaped(m)
  {
    !Hits(c, m, p) && Hits(c, m, p.(y := p.y + 1))
  }

  /** A piece that fits may be locked exactly when it is on its own ghost
      row. */
  lemma PlaceableIffOnGhostRow(c: Config, m: Matrix, p: Piece)
    requires TablesOk(c) && WellShaped(m) && !Hits(c, m, p)
    ensures CanPlace(c, m, p) <==> DropRow(c, m, p) == p.y
  {
    var f := Img(c, p);
    if CanPlace(c, m, p) {
      assert IsGhostRow(m, None, f, FRAME, p.x, p.y, p.y);
      GhostRowUnique(m, None, f, FRAME, p.x, p.y, p.y, DropRow(c, m, p));
    }
  }

  /** The ghost row of a piece. */
  ghost function DropRow(c: Config, m: Matrix, p: Piece): (g: int)
    requires TablesOk(c) && WellShaped(m)
    ensures IsGhostRow(m, None, Img(c, p), FRAME, p.x, p.y, g)
  {
    GhostRow(m, None, Img(c, p), FRAME, p.x, p.y)
  }

  /** The matrix a new game starts with: every cell empty. */
  function EmptyMatrix(): (m: Matrix)
    ensures WellShaped(m)
    ensures forall r, k :: 0 <= r < |m| && 0 <= k < |m[r]| ==> m[r][k] == None
  {
    EmptyRows(None, MATRIX_HEIGHT as nat)
  }

  /** A new game: empty matrix, nothing held, a bag dealt into the queue,
      its first piece spawned, at the chosen starting level. */
  ghost function NewGame(c: Config, startingLevel: int): (r: GameState)
    requires TablesOk(c)
    ensures Consistent(c, r) && r.active
    ensures r.activePiece == Some(Spawn(BagPiece(c.bags, 0))) && r.dealt == 1
    ensures r.matrix == EmptyMatrix() && r.heldPieceType == None && r.lock == Disarmed
    ensures r.score == 0 && r.level == startingLevel && r.linesCleared == 0 && !r.holdUsed
  {
    var blank := GameState(EmptyMatrix(), None, None, [], 0, 0, 0, startingLevel, 0,
                           false, false, false, Disarmed, false);
    var filled := Refilled(c, blank);
    assert IsNthBag(c.bags, 0);
    Advanced(c, filled).(active := true)
  }

  // ------------------------------------------------------------ line clear

  /** After locking a piece: full rows are cleared, the score, line total and
      level are updated, and a sprint ends at SPRINT_REQUIREMENT lines. Does
      nothing once the game is over. */
  ghost function Cleared(c: Config, s: GameState): (r: GameState)
    requires Consistent(c, s)
    ensures Consistent(c, r)
    ensures r.activePiece == s.activePiece && r.queue == s.queue && r.dealt == s.dealt
    ensures s.active ==> forall k :: 0 <= k < |r.matrix| ==> !IsFull(r.matrix[k], None)
    ensures r.linesCleared >= s.linesCleared && r.level >= s.level
    ensures s.level >= 0 ==> r.score >= s.score
    ensures s.active ==> r.matrix == ClearFullRows(s.matrix, None)
    ensures s.active ==> var n := FullRowCount(s.matrix, None);
              r.linesCleared == s.linesCleared + n && r.score == s.score + ClearScore(n, s.level + 1) &&
              r.level == RaisedLevel(s.level, s.linesCleared + n)
    ensures s.active ==> (r.active <==> !(c.gameMode == Sprint && r.linesCleared >= SPRINT_REQUIREMENT))
    ensures r == s.(matrix := r.matrix, score := r.score, linesCleared := r.linesCleared, level := r.level, active := r.active)
    ensures !s.active ==> r == s
  {
    if !s.active then s
    else
      var n := FullRowCount(s.matrix, None);
      var lines := s.linesCleared + n;
      ClearKeepsShape(s.matrix, None);
      ClearedRowsNotFull(s.matrix);
      s.(matrix := ClearFullRows(s.matrix, None),
         score := s.score + ClearScore(n, s.level + 1),
         linesCleared := lines,
         level := RaisedLevel(s.level, lines),
         active := !(c.gameMode == Sprint && lines >= SPRINT_REQUIREMENT))
  }

  lemma ClearedRowsNotFull(m: Matrix)
    ensures forall k :: 0 <= k < |m| ==> !IsFull(ClearFullRows(m, None)[k], None)
  {
    forall k | 0 <= k < |m| ensures !IsFull(ClearFullRows(m, None)[k], None) {
      ClearedHasNoFullRow(m, None, k);
    }
  }

  // ------------------------------------------------------------------ queue

  /** A bag is appended when fewer than QUEUE_LENGTH pieces remain. */
  ghost function Refilled(c: Config, s: GameState): (r: GameState)
    requires AllBags(c.bags) && QueueInBagOrder(c.bags, s.queue, s.dealt, s.bagsUsed)
    ensures |r.queue| >= QUEUE_LENGTH && QueueInBagOrder(c.bags, r.queue, r.dealt, r.bagsUsed)
    ensures |s.queue| >= QUEUE_LENGTH ==> r == s
    ensures |s.queue| < QUEUE_LENGTH ==> r.queue == s.queue + NthBag(c.bags, s.bagsUsed) && r.bagsUsed == s.bagsUsed + 1
    ensures r == s.(queue := r.queue, bagsUsed := r.bagsUsed)
  {
    if |s.queue| < QUEUE_LENGTH then
      var b := NthBag(c.bags, s.bagsUsed);
      AppendBagKeepsOrder(c.bags, s.queue, s.dealt, s.bagsUsed);
      s.(queue := s.queue + b, bagsUsed := s.bagsUsed + 1)
    else s
  }

  /** The next piece leaves the head of the queue and spawns: pieces spawn
      exactly in the randomiser's order. */
  ghost function Advanced(c: Config, s: GameState): (r: GameState)
    requires AllBags(c.bags) && |s.queue| > 0 && QueueInBagOrder(c.bags, s.queue, s.dealt, s.bagsUsed)
    ensures r.activePiece == Some(Spawn(s.queue[0])) && s.queue[0] == BagPiece(c.bags, s.dealt)
    ensures r.dealt == s.dealt + 1
    ensures |r.queue| >= QUEUE_LENGTH && QueueInBagOrder(c.bags, r.queue, r.dealt, r.bagsUsed)
    ensures |s.queue| > QUEUE_LENGTH ==> r.queue == s.queue[1..] && r.bagsUsed == s.bagsUsed
    ensures |s.queue| <= QUEUE_LENGTH ==> r.queue == s.queue[1..] + NthBag(c.bags, s.bagsUsed) && r.bagsUsed == s.bagsUsed + 1
    ensures r.matrix == s.matrix && r.score == s.score && r.level == s.level && r.linesCleared == s.linesCleared
    ensures r.lock == s.lock && r.active == s.active && r.holdUsed == s.holdUsed && r.heldPieceType == s.heldPieceType
  {
    TakeHeadKeepsOrder(c.bags, s.queue, s.dealt, s.bagsUsed);
    Refilled(c, s.(activePiece := Some(Spawn(s.queue[0])), queue := s.queue[1..], dealt := s.dealt + 1))
  }

  // -------------------------------------------------------------- placement

  /** The active piece is locked into the matrix with its type; then full
      rows are cleared, the next piece spawns and hold is available again. */
  ghost function Placed(c: Config, s: GameState): (r: GameState)
    requires Consistent(c, s) && AllBags(c.bags) && s.activePiece.Some?
    ensures Consistent(c, r)
    ensures r.activePiece == Some(Spawn(s.queue[0])) && !r.holdUsed && !r.droppingHard
    ensures r.dealt == s.dealt + 1 && r.lock == s.lock
    ensures r.linesCleared >= s.linesCleared && r.level >= s.level
    ensures s.active ==> forall k :: 0 <= k < |r.matrix| ==> !IsFull(r.matrix[k], None)
  {
    Advanced(c, Cleared(c, LockedIn(c, s))).(holdUsed := false)
  }

  /** The write loop of `placeTetromino` and what follows it: every cell
      the active piece covers takes its type, the hard drop ends and the
      piece is gone; the rest of the state is kept. */
  ghost function LockedIn(c: Config, s: GameState): (r: GameState)
    requires WellShaped(s.matrix) && s.activePiece.Some?
    ensures WellShaped(r.matrix) && r.activePiece.None? && !r.droppingHard
    ensures r == s.(matrix := r.matrix, droppingHard := false, activePiece := None)
    ensures var p := s.activePiece.value; r.matrix == Lock(s.matrix, Img(c, p), FRAME, p.x, p.y, Some(p.kind))
  {
    var p := s.activePiece.value;
    s.(matrix := Lock(s.matrix, Img(c, p), FRAME, p.x, p.y, Some(p.kind)), droppingHard := false, activePiece := None)
  }

  /** An attempt to lock the active piece: it is locked only while the game
      runs and only where it rests (fits, and would not fit one row lower);
      otherwise nothing changes. */
  ghost function PlaceAttempted(c: Config, s: GameState): (r: GameState)
    requires Consistent(c, s) && AllBags(c.bags) && s.activePiece.Some?
    ensures Consistent(c, r) && r.activePiece.Some?
    ensures r != s ==> s.active && CanPlace(c, s.matrix, s.activePiece.value) && r == Placed(c, s)
    ensures s.active && CanPlace(c, s.matrix, s.activePiece.value) ==> r.dealt == s.dealt + 1
  {
    if s.active && CanPlace(c, s.matrix, s.activePiece.value) then Placed(c, s) else s
  }

  /** The lock-delay state plays no part in locking a piece. */
  lemma PlacedIgnoresLock(c: Config, s: GameState, l: LockDelayState)
    requires Consistent(c, s) && AllBags(c.bags) && s.activePiece.Some? && InRange(l)
    ensures Placed(c, s.(lock := l)) == Placed(c, s).(lock := l)
  {
    var locked := LockedIn(c, s);
    var s' := s.(lock := l);
    assert LockedIn(c, s') == locked.(lock := l);
    ClearedIgnoresLock(c, locked, l);
    var cleared := Cleared(c, locked);
    AdvancedIgnoresLock(c, cleared, l);
    assert Placed(c, s') == Advanced(c, cleared.(lock := l)).(holdUsed := false);
    assert Placed(c, s) == Advanced(c, cleared).(holdUsed := false);
  }

  lemma ClearedIgnoresLock(c: Config, s: GameState, l: LockDelayState)
    requires Consistent(c, s) && InRange(l)
    ensures Cleared(c, s.(lock := l)) == Cleared(c, s).(lock := l)
  {
  }

  lemma AdvancedIgnoresLock(c: Config, s: GameState, l: LockDelayState)
    requires AllBags(c.bags) && |s.queue| > 0 && QueueInBagOrder(c.bags, s.queue, s.dealt, s.bagsUsed)
    ensures Advanced(c, s.(lock := l)) == Advanced(c, s).(lock := l)
  {
    var taken := s.(activePiece := Some(Spawn(s.queue[0])), queue := s.queue[1..], dealt := s.dealt + 1);
    TakeHeadKeepsOrder(c.bags, s.queue, s.dealt, s.bagsUsed);
    RefilledIgnoresLock(c, taken, l);
  }

  lemma RefilledIgnoresLock(c: Config, s: GameState, l: LockDelayState)
    requires AllBags(c.bags) && QueueInBagOrder(c.bags, s.queue, s.dealt, s.bagsUsed)
    ensures Refilled(c, s.(lock := l)) == Refilled(c, s).(lock := l)
  {
  }

  // -------------------------------------------------------------- movement

  /** A horizontal move by `dx`: taken when the destination is free, and then
      it counts as a move reset; otherwise nothing changes. */
  ghost function MovedX(c: Config, s: GameState, dx: int): (r: GameState)
    requires Consistent(c, s)
    ensures Consistent(c, r)
    ensures r.activePiece.Some? <==> s.activePiece.Some?
    ensures r != s ==>
              s.active && s.activePiece.Some? &&
              r == s.(activePiece := Some(s.activePiece.value.(x := s.activePiece.value.x + dx)), lock := MoveReset(s.lock)) &&
              !Hits(c, s.matrix, r.activePiece.value)
    ensures s.active && s.activePiece.Some? && !Hits(c, s.matrix, s.activePiece.value.(x := s.activePiece.value.x + dx)) ==>
              r == s.(activePiece := Some(s.activePiece.value.(x := s.activePiece.value.x + dx)), lock := MoveReset(s.lock))
    ensures s.activePiece.Some? && Hits(c, s.matrix, s.activePiece.value.(x := s.activePiece.value.x + dx)) ==> r == s
  {
    if s.active && s.activePiece.Some? && !Hits(c, s.matrix, s.activePiece.value.(x := s.activePiece.value.x + dx)) then
      s.(activePiece := Some(s.activePiece.value.(x := s.activePiece.value.x + dx)), lock := MoveReset(s.lock))
    else s
  }

  /** A vertical move by `dy`. A free destination is taken, and a move
      down stops the countdown while resets remain. A blocked destination
      makes the piece slide back toward its row; it then locks if it should
      (and can), or else the countdown starts. */
  ghost function MovedY(c: Config, s: GameState, dy: int): (r: GameState)
    requires TablesOk(c) && Consistent(c, s)
    ensures Consistent(c, r)
    ensures r.activePiece.Some? <==> s.activePiece.Some?
    ensures !s.active || s.activePiece.None? ==> r == s
  {
    if !s.active || s.activePiece.None? then s
    else
      var p := s.activePiece.value;
      if !Hits(c, s.matrix, p.(y := p.y + dy)) then
        s.(activePiece := Some(p.(y := p.y + dy)), lock := Fell(s.lock))
      else
        Settled(c, s, Landing(c, s.matrix, p, dy))
  }

  /** Where a blocked vertical move of `dy` rows leaves the piece. */
  ghost function Landing(c: Config, m: Matrix, p: Piece, dy: int): (q: Piece)
    requires WellShaped(m)
    ensures q.kind == p.kind && q.rotation == p.rotation && q.x == p.x
    ensures 0 <= dy ==> p.y <= q.y <= p.y + dy
    ensures dy <= 0 ==> p.y + dy <= q.y <= p.y
    ensures q.y != p.y ==> !Hits(c, m, q)
  {
    p.(y := p.y + SlideAsWritten(m, None, Img(c, p), FRAME, p.x, p.y, dy))
  }

  /** A blocked vertical move ends with the piece at `q`: it locks there if
      it should (and can), and the lock delay is cleared; otherwise the
      countdown starts. */
  ghost function Settled(c: Config, s: GameState, q: Piece): (r: GameState)
    requires TablesOk(c) && Consistent(c, s)
    ensures Consistent(c, r) && r.activePiece.Some?
    ensures !ShouldPlace(s.lock, s.droppingHard) ==> r == s.(activePiece := Some(q), lock := Landed(s.lock))
    ensures ShouldPlace(s.lock, s.droppingHard) ==>
              r == PlaceAttempted(c, s.(activePiece := Some(q))).(droppingHard := false, lock := Disarmed)
  {
    if ShouldPlace(s.lock, s.droppingHard) then
      PlaceAttempted(c, s.(activePiece := Some(q))).(droppingHard := false, lock := Disarmed)
    else
      s.(activePiece := Some(q), lock := Landed(s.lock))
  }

  /** Hard drop: the piece falls row by row to its ghost row and locks there
      (unless it could not even fit where it started), and the lock delay is
      cleared. Does nothing once the game is over. */
  ghost function HardDropped(c: Config, s: GameState): (r: GameState)
    requires TablesOk(c) && Consistent(c, s) && (s.active ==> s.activePiece.Some?)
    ensures Consistent(c, r)
    ensures !s.active ==> r == s
  {
    if !s.active then s
    else
      var p := s.activePiece.value;
      var q := p.(y := DropRow(c, s.matrix, p));
      PlaceAttempted(c, s.(activePiece := Some(q), droppingHard := true, droppingSoft := false))
        .(droppingHard := false, lock := Disarmed)
  }

  // -------------------------------------------------------------- rotation

  /** The offset table the piece's type uses. */
  function TableFor(c: Config, kind: PieceKind): (t: OffsetTable)
    requires TablesOk(c)
    ensures WellFormedOffsetTable(t)
  {
    c.offsetData[OffsetTableIndex(kind)]
  }

  /** The first kick column that fits for rotating `p` by `distance`. */
  ghost function KickFor(c: Config, m: Matrix, p: Piece, distance: int): (k: Option<nat>)
    requires TablesOk(c) && WellShaped(m)
    ensures k.Some? ==> k.value < |TableFor(c, p.kind)[0]|
  {
    var to := RotationAfter(p.rotation, distance);
    FirstFreeKick(m, None, Image(c.figures, p.kind, to), FRAME, TableFor(c, p.kind), p.rotation, to, p.x, p.y, 0)
  }

  /** The piece after rotating with kick column `col`. */
  function Kicked(c: Config, p: Piece, distance: int, col: int): (q: Piece)
    requires TablesOk(c) && 0 <= col < |TableFor(c, p.kind)[0]|
    ensures q.kind == p.kind && q.rotation == RotationAfter(p.rotation, distance)
  {
    var to := RotationAfter(p.rotation, distance);
    var k := KickOffset(TableFor(c, p.kind), p.rotation, to, col);
    Piece(p.kind, to, p.x + k.0, p.y - k.1)
  }

  /** The kick found fits. */
  lemma KickedFits(c: Config, m: Matrix, p: Piece, distance: int)
    requires TablesOk(c) && WellShaped(m) && KickFor(c, m, p, distance).Some?
    ensures !Hits(c, m, Kicked(c, p, distance, KickFor(c, m, p, distance).value))
  {
    var to := RotationAfter(p.rotation, distance);
    var t := TableFor(c, p.kind);
    var col := KickFor(c, m, p, distance).value;
    assert !KickBlocked(m, None, Image(c.figures, p.kind, to), FRAME, t, p.rotation, to, p.x, p.y, col);
    var q := Kicked(c, p, distance, col);
    assert Img(c, q) == Image(c.figures, p.kind, to);
  }

  /** A rotation by `distance` quarter turns: the first kick that fits is
      taken and counts as a move reset; if none fits, nothing changes. */
  ghost function Rotated(c: Config, s: GameState, distance: int): (r: GameState)
    requires TablesOk(c) && Consistent(c, s)
    ensures Consistent(c, r)
    ensures r.activePiece.Some? <==> s.activePiece.Some?
    ensures r != s ==>
              s.active && s.activePiece.Some? && !Hits(c, s.matrix, r.activePiece.value) &&
              r == s.(activePiece := r.activePiece, lock := MoveReset(s.lock))
  {
    if !s.active || s.activePiece.None? then s
    else
      var p := s.activePiece.value;
      match KickFor(c, s.matrix, p, distance)
      case None => s
      case Some(col) =>
        KickedFits(c, s.matrix, p, distance);
        s.(activePiece := Some(Kicked(c, p, distance, col)), lock := MoveReset(s.lock))
  }

  // ------------------------------------------------------------------- hold

  /** Hold: once per piece, the active piece's type goes to the hold slot;
      the held type (or, with an empty slot, the next piece from the queue)
      spawns instead. The lock delay is left as it is. */
  ghost function Held(c: Config, s: GameState): (r: GameState)
    requires Consistent(c, s) && AllBags(c.bags)
    ensures Consistent(c, r)
    ensures r.activePiece.Some? <==> s.activePiece.Some?
    ensures r != s ==> s.activePiece.Some? && r.holdUsed && r.heldPieceType == Some(s.activePiece.value.kind)
    ensures s.heldPieceType.Some? && r != s ==>
      r == s.(holdUsed := true, activePiece := Some(Spawn(s.heldPieceType.value)), heldPieceType := r.heldPieceType)
    ensures r.lock == s.lock && r.matrix == s.matrix && r.score == s.score
    ensures s.active && s.activePiece.Some? && !s.holdUsed ==>
              r.holdUsed && r.heldPieceType == Some(s.activePiece.value.kind)
    ensures s.active && s.activePiece.Some? && !s.holdUsed && s.heldPieceType.None? ==>
              r.activePiece == Some(Spawn(s.queue[0])) && r.dealt == s.dealt + 1
    ensures s.active && s.activePiece.Some? && !s.holdUsed && s.heldPieceType.Some? ==>
              r.activePiece == Some(Spawn(s.heldPieceType.value)) && r.queue == s.queue
    ensures !(s.active && s.activePiece.Some? && !s.holdUsed) ==> r == s
  {
    if !s.active || s.activePiece.None? || s.holdUsed then s
    else
      var p := s.activePiece.value;
      match s.heldPieceType
      case None => Advanced(c, s.(holdUsed := true, heldPieceType := Some(p.kind), activePiece := None))
      case Some(h) => s.(holdUsed := true, activePiece := Some(Spawn(h)), heldPieceType := Some(p.kind))
  }

  // ------------------------------------------------------------- one frame

  /** The auto-shift of one frame: a move by the direction `DasShift`
      picks, if any. */
  ghost function Shifted(c: Config, s: GameState, left: nat, right: nat): (r: GameState)
    requires Consistent(c, s)
    ensures Consistent(c, r) && (r.activePiece.Some? <==> s.activePiece.Some?)
    ensures DasShift(left, right) == 0 ==> r == s
  {
    var dx := DasShift(left, right);
    if dx != 0 then MovedX(c, s, dx) else s
  }

  /** The soft drop of one frame: a one-row move down on the frames the
      soft-drop cadence picks. */
  ghost function SoftDropped(c: Config, s: GameState, softTime: nat): (r: GameState)
    requires TablesOk(c) && Consistent(c, s)
    ensures Consistent(c, r) && (r.activePiece.Some? <==> s.activePiece.Some?)
    ensures !SoftDropFires(softTime) ==> r == s
  {
    if SoftDropFires(softTime) then MovedY(c, s, 1) else s
  }

  /** The lock-delay countdown of one frame. It runs whether or not the
      game is over. */
  function CountedDown(s: GameState): (r: GameState)
    ensures r == s.(lock := r.lock) && r.lock.armed == s.lock.armed && r.lock.resets == s.lock.resets
  {
    s.(lock := CountDown(s.lock))
  }

  /** Gravity for one frame: on the frames the level's gravity entry picks,
      a move down by the entry's number of rows. */
  ghost function Gravitated(c: Config, s: GameState, frameCount: nat): (r: GameState)
    requires TablesOk(c) && Consistent(c, s)
    ensures Consistent(c, r) && (r.activePiece.Some? <==> s.activePiece.Some?)
    ensures !GravityFires(frameCount, GravityEntry(c.levelGravities, s.level).0) ==> r == s
  {
    var e := GravityEntry(c.levelGravities, s.level);
    if GravityFires(frameCount, e.0) then MovedY(c, s, e.1) else s
  }

  /** The game ends as soon as the active piece overlaps something. */
  ghost function OverlapChecked(c: Config, s: GameState): (r: GameState)
    requires Consistent(c, s) && s.activePiece.Some?
    ensures Consistent(c, r) && r.activePiece.Some?
    ensures r.active ==> !Hits(c, r.matrix, r.activePiece.value)
    ensures r == s.(active := r.active) && (r.active ==> s.active)
    ensures !Hits(c, s.matrix, s.activePiece.value) ==> r == s
    ensures Hits(c, s.matrix, s.activePiece.value) ==> !r.active
  {
    if Hits(c, s.matrix, s.activePiece.value) then s.(active := false) else s
  }

  /** One frame of the game loop after the held times were increased: auto
      shift, soft drop, lock-delay countdown, gravity, and the game ends when
      the active piece overlaps something. */
  ghost function Ticked(c: Config, s: GameState, frameCount: nat, keys: HeldTimes): (r: GameState)
    requires TablesOk(c) && Consistent(c, s) && s.activePiece.Some?
    ensures Consistent(c, r) && r.activePiece.Some?
    ensures r.active ==> !Hits(c, r.matrix, r.activePiece.value)
  {
    var s1 := Shifted(c, s, keys.left, keys.right);
    var s2 := SoftDropped(c, s1, keys.softDrop);
    var s3 := CountedDown(s2);
    var s4 := Gravitated(c, s3, frameCount);
    OverlapChecked(c, s4)
  }

  // ============================================================= properties

  /** Every piece fits at its spawn position in an empty matrix, whatever
      its figure. */
  lemma SpawnFitsEmptyMatrix(c: Config, kind: PieceKind)
    requires TablesOk(c)
    ensures WellShaped(EmptyMatrix()) && !Hits(c, EmptyMatrix(), Spawn(kind))
  {
    var p := Spawn(kind);
    NoCollisionInEmptyFrame(EmptyMatrix(), None, Img(c, p), FRAME, p.x, p.y);
  }

  /** A horizontal move is undone by the opposite move: moving back is
      always possible, since the piece came from there. */
  lemma MoveXRoundTrip(c: Config, s: GameState, dx: int)
    requires Consistent(c, s) && s.activePiece.Some? && !Hits(c, s.matrix, s.activePiece.value)
    requires MovedX(c, s, dx) != s
    ensures MovedX(c, MovedX(c, s, dx), -dx).activePiece == s.activePiece
    ensures MovedX(c, MovedX(c, s, dx), -dx).matrix == s.matrix
  {
    var p := s.activePiece.value;
    var s1 := MovedX(c, s, dx);
    var q := s1.activePiece.value;
    assert q.(x := q.x + -dx) == p;
  }

  /** A piece that fits still fits after any horizontal move or rotation. */
  lemma MovesKeepPieceFree(c: Config, s: GameState, dx: int, distance: int)
    requires TablesOk(c) && Consistent(c, s) && s.activePiece.Some? && !Hits(c, s.matrix, s.activePiece.value)
    ensures !Hits(c, s.matrix, MovedX(c, s, dx).activePiece.value)
    ensures !Hits(c, s.matrix, Rotated(c, s, distance).activePiece.value)
  {
  }

  /** A rotation takes the first kick that fits and no later one: every
      earlier kick collides. */
  lemma RotationTakesFirstFreeKick(c: Config, s: GameState, distance: int)
    requires TablesOk(c) && Consistent(c, s) && s.active && s.activePiece.Some?
    ensures var p := s.activePiece.value;
            var to := RotationAfter(p.rotation, distance);
            var t := TableFor(c, p.kind);
            match KickFor(c, s.matrix, p, distance)
            case Some(col) =>
              Rotated(c, s, distance).activePiece == Some(Kicked(c, p, distance, col)) &&
              forall k :: 0 <= k < col ==> KickBlocked(s.matrix, None, Image(c.figures, p.kind, to), FRAME, t, p.rotation, to, p.x, p.y, k)
            case None =>
              Rotated(c, s, distance) == s &&
              forall k :: 0 <= k < |t[0]| ==> KickBlocked(s.matrix, None, Image(c.figures, p.kind, to), FRAME, t, p.rotation, to, p.x, p.y, k)
  {
  }

  /** A second hold before the next placement does nothing. */
  lemma HoldOncePerPiece(c: Config, s: GameState)
    requires Consistent(c, s) && AllBags(c.bags)
    ensures Held(c, Held(c, s)) == Held(c, s)
  {
  }

  /** A hard drop from a position that fits always locks the piece on its
      ghost row: the next piece spawns, hold is free again and the lock
      delay is cleared. */
  lemma HardDropLocksOnGhostRow(c: Config, s: GameState)
    requires TablesOk(c) && Consistent(c, s) && s.active && s.activePiece.Some?
    requires !Hits(c, s.matrix, s.activePiece.value)
    ensures var p := s.activePiece.value;
            var q := p.(y := DropRow(c, s.matrix, p));
            CanPlace(c, s.matrix, q) &&
            HardDropped(c, s) == Placed(c, s.(activePiece := Some(q), droppingHard := true, droppingSoft := false)).(droppingHard := false, lock := Disarmed)
  {
    var p := s.activePiece.value;
    GhostRowIsResting(s.matrix, None, Img(c, p), FRAME, p.x, p.y, DropRow(c, s.matrix, p));
  }

  /** `t` is a state reached by a hard drop from `s` that is still under
      way: only the piece's row (between its start and the ghost row) and
      the lock delay differ from the drop's starting state. */
  ghost predicate Dropping(c: Config, s: GameState, t: GameState)
    requires TablesOk(c) && Consistent(c, s) && s.activePiece.Some?
  {
    var p := s.activePiece.value;
    t.activePiece.Some? && InRange(t.lock) &&
    p.y <= t.activePiece.value.y <= DropRow(c, s.matrix, p) &&
    t == s.(activePiece := Some(p.(y := t.activePiece.value.y)), droppingHard := true, droppingSoft := false, lock := t.lock)
  }

  /** Hard drop, one row at a time, as the game runs it: above the ghost
      row a one-row move down just moves the piece, and the drop goes on... */
  lemma HardDropStepsDown(c: Config, s: GameState, t: GameState)
    requires TablesOk(c) && Consistent(c, s) && s.active && s.activePiece.Some?
    requires Dropping(c, s, t) && t.activePiece.value.y < DropRow(c, s.matrix, s.activePiece.value)
    ensures Consistent(c, t)
    ensures var u := t.(activePiece := Some(t.activePiece.value.(y := t.activePiece.value.y + 1)), lock := Fell(t.lock));
            MovedY(c, t, 1) == u && u.droppingHard && Dropping(c, s, u)
  {
    var p := s.activePiece.value;
    var row := t.activePiece.value.y;
    assert Img(c, p.(y := row + 1)) == Img(c, p);
    assert p.y < row + 1 <= DropRow(c, s.matrix, p);
    assert !Hits(c, s.matrix, p.(y := row + 1));
    FreeMoveFalls(c, t, 1);
  }

  /** ...and on the ghost row it locks the piece, giving exactly the hard
      drop's result, whatever the lock delay was meanwhile, and the drop
      ends. */
  lemma HardDropEndsOnGhostRow(c: Config, s: GameState, t: GameState)
    requires TablesOk(c) && Consistent(c, s) && s.active && s.activePiece.Some?
    requires Dropping(c, s, t) && t.activePiece.value.y == DropRow(c, s.matrix, s.activePiece.value)
    ensures Consistent(c, t)
    ensures MovedY(c, t, 1) == HardDropped(c, s) && !HardDropped(c, s).droppingHard
  {
    var p := s.activePiece.value;
    var g := DropRow(c, s.matrix, p);
    var q := p.(y := g);
    assert Img(c, q.(y := g + 1)) == Img(c, p);
    RestingPieceLocks(c, t);
    SettledInPlace(c, t);
    var moved := s.(activePiece := Some(q), droppingHard := true, droppingSoft := false);
    assert t == moved.(lock := t.lock);
    assert HardDropped(c, s) == PlaceAttempted(c, moved).(droppingHard := false, lock := Disarmed);
    if CanPlace(c, s.matrix, q) {
      PlacedIgnoresLock(c, moved, t.lock);
    }
  }

  /** A piece that cannot move one row down locks on a one-row move while
      hard-dropping (if it rests where it is). */
  lemma RestingPieceLocks(c: Config, t: GameState)
    requires TablesOk(c) && Consistent(c, t) && t.active && t.activePiece.Some?
    requires Hits(c, t.matrix, t.activePiece.value.(y := t.activePiece.value.y + 1))
    ensures MovedY(c, t, 1) == Settled(c, t, t.activePiece.value)
  {
    var p := t.activePiece.value;
    assert Landing(c, t.matrix, p, 1) == p by {
      SlideOneRow(t.matrix, None, Img(c, p), FRAME, p.x, p.y);
      assert p.(y := p.y + 0) == p;
    }
    BlockedMoveSettles(c, t, 1);
  }

  /** A vertical move to a free row takes the piece there and touches
      nothing but the lock delay. */
  lemma FreeMoveFalls(c: Config, t: GameState, dy: int)
    requires TablesOk(c) && Consistent(c, t) && t.active && t.activePiece.Some?
    requires !Hits(c, t.matrix, t.activePiece.value.(y := t.activePiece.value.y + dy))
    ensures MovedY(c, t, dy) == t.(activePiece := Some(t.activePiece.value.(y := t.activePiece.value.y + dy)), lock := Fell(t.lock))
  {
  }

  /** A blocked vertical move settles the piece on the row the slide
      reaches. */
  lemma BlockedMoveSettles(c: Config, t: GameState, dy: int)
    requires TablesOk(c) && Consistent(c, t) && t.active && t.activePiece.Some?
    requires Hits(c, t.matrix, t.activePiece.value.(y := t.activePiece.value.y + dy))
    ensures MovedY(c, t, dy) == Settled(c, t, Landing(c, t.matrix, t.activePiece.value, dy))
  {
  }

  /** A forced lock attempts the placement where the piece is and disarms
      the lock delay. */
  lemma SettledInPlace(c: Config, t: GameState)
    requires TablesOk(c) && Consistent(c, t) && t.activePiece.Some? && ShouldPlace(t.lock, t.droppingHard)
    ensures Settled(c, t, t.activePiece.value) == PlaceAttempted(c, t).(droppingHard := false, lock := Disarmed)
  {
    assert t.(activePiece := Some(t.activePiece.value)) == t;
  }

  /** A one-row move down never passes anything: the piece either moves
      exactly one row or, blocked, stays in its row. */
  lemma OneRowMoveNeverTunnels(c: Config, s: GameState)
    requires TablesOk(c) && Consistent(c, s) && s.active && s.activePiece.Some?
    requires Hits(c, s.matrix, s.activePiece.value.(y := s.activePiece.value.y + 1))
    requires !ShouldPlace(s.lock, s.droppingHard)
    ensures MovedY(c, s, 1).activePiece == s.activePiece
  {
    var p := s.activePiece.value;
    SlideOneRow(s.matrix, None, Img(c, p), FRAME, p.x, p.y);
  }

  /** Once the game is over a frame changes nothing but the lock countdown. */
  lemma GameOverFreezesBoard(c: Config, s: GameState, frameCount: nat, keys: HeldTimes)
    requires TablesOk(c) && Consistent(c, s) && s.activePiece.Some? && !s.active
    ensures Ticked(c, s, frameCount, keys) == s.(lock := CountDown(s.lock))
  {
  }

  /** No drought: every type is among the next thirteen pieces to spawn,
      the first of which are the ones the queue shows. */
  lemma NoDrought(c: Config, s: GameState, k: PieceKind)
    requires TablesOk(c) && Consistent(c, s)
    ensures exists i :: s.dealt <= i < s.dealt + 13 && BagPiece(c.bags, i) == k
    ensures forall i :: 0 <= i < |s.queue| ==> s.queue[i] == BagPiece(c.bags, s.dealt + i)
  {
    EveryKindWithinThirteen(c.bags, s.dealt, k);
    forall i | 0 <= i < |s.queue| ensures s.queue[i] == BagPiece(c.bags, s.dealt + i) {
      InStreamOrderAt(c.bags, s.queue, s.dealt, i);
    }
  }
}
