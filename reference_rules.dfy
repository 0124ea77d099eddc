/** The rules of the earlier Python engine (`tetris.py`) as functions on one
    value holding its game state. The `Game` class of `ReferenceEngine` is
    proved to follow them, and its properties are proved here.

    This engine differs from the browser one: cells hold 0 for empty and
    type + 1 for a locked block; the I piece's figures live in a 5 x 5
    frame and all others in a 3 x 3 frame; the rotation offsets are
    literal tables; the queue is refilled below six pieces; the score is
    multiplied by the level itself; and the move-reset counter is not
    capped, it only forces a lock once it reaches 15. */
module ReferenceRules {
  import opened Wrappers
  import opened Geometry
  import opened Playfield
  import opened Kicks
  import opened Scoring
  import opened LockDelay
  import opened Bag

  /** Field cells: EMPTY, or the type of the locked piece plus one. */
  type Field = seq<seq<int>>

  const EMPTY: int := 0

  /** A bag is appended when fewer than this many pieces are queued. */
  const REFILL_BELOW: int := 6

  /** Type x rotation -> occupied indices of the piece's scan frame. */
  const Figures: seq<seq<Figure>> := [
    [[11, 12, 13, 14], [7, 12, 17, 22], [10, 11, 12, 13], [2, 7, 12, 17]],
    [[0, 3, 4, 5], [1, 2, 4, 7], [3, 4, 5, 8], [1, 4, 6, 7]],
    [[2, 3, 4, 5], [1, 4, 7, 8], [3, 4, 5, 6], [0, 1, 4, 7]],
    [[1, 2, 4, 5], [4, 5, 7, 8], [3, 4, 6, 7], [0, 1, 3, 4]],
    [[1, 2, 3, 4], [1, 4, 5, 8], [4, 5, 6, 7], [0, 3, 4, 7]],
    [[1, 3, 4, 5], [1, 4, 5, 7], [3, 4, 5, 7], [1, 3, 4, 7]],
    [[0, 1, 4, 5], [2, 4, 5, 7], [3, 4, 7, 8], [1, 3, 4, 6]]
  ]

  /** The offset table of the J, L, S, T and Z pieces. */
  const JlstzOffsets: OffsetTable := [
    [(0, 0), (0, 0), (0, 0), (0, 0), (0, 0)],
    [(0, 0), (1, 0), (1, -1), (0, 2), (1, 2)],
    [(0, 0), (0, 0), (0, 0), (0, 0), (0, 0)],
    [(0, 0), (-1, 0), (-1, -1), (0, 2), (-1, 2)]
  ]

  /** The offset table of the I piece. */
  const IOffsets: OffsetTable := [
    [(0, 0), (-1, 0), (2, 0), (-1, 0), (2, 0)],
    [(-1, 0), (0, 0), (0, 0), (0, 1), (0, -2)],
    [(-1, 1), (1, 1), (-2, 1), (1, 0), (-2, 0)],
    [(0, 1), (0, 1), (0, 1), (0, -1), (0, 2)]
  ]

  /** The O piece has a single reference point per rotation state. */
  const OOffsets: seq<(int, int)> := [(0, 0), (0, -1), (-1, -1), (-1, 0)]

  /** The side of the frame the scans of `intersects` and `place_piece` walk
      for the active piece: none without a piece, 5 for the I piece and 3
      for every other type. */
  function ScanDimension(kind: Option<PieceKind>): (d: int)
    ensures d == 0 <==> kind.None?
    ensures d == 5 <==> kind == Some(I_PIECE)
    ensures d == 3 <==> kind.Some? && kind.value != I_PIECE
  {
    match kind
    case None => 0
    case Some(k) => if k == I_PIECE then 5 else 3
  }

  function Dim(p: Piece): (d: int)
    ensures d == 3 || d == 5
  {
    ScanDimension(Some(p.kind))
  }

  /** The figure table has seven types of four rotations each, and every
      figure lies inside the scan frame of its type, so the scans see all
      of it. */
  predicate PyFiguresOk(figs: seq<seq<Figure>>) {
    |figs| == 7 &&
    forall k :: 0 <= k < 7 ==>
      |figs[k]| == 4 && forall r :: 0 <= r < 4 ==> ValidFigure(figs[k][r], ScanDimension(Some(k)))
  }

  lemma FiguresFitScanFrames()
    ensures PyFiguresOk(Figures)
  {
    assert forall r :: 0 <= r < 4 ==> forall n :: n in Figures[0][r] ==> 0 <= n < 25;
    assert forall k :: 1 <= k < 7 ==> forall r :: 0 <= r < 4 ==> forall n :: n in Figures[k][r] ==> 0 <= n < 9;
  }

  /** What the engine reads but never changes: the figure table (the class
      constant `Figures`, held as a value so that proofs use only its
      shape) and the shuffled bags. */
  datatype PyConfig = PyConfig(figures: seq<seq<Figure>>, bags: nat -> seq<PieceKind>)

  ghost predicate PyTablesOk(c: PyConfig) {
    PyFiguresOk(c.figures) && AllBags(c.bags)
  }

  /** The figure of the piece's type and rotation, as `image()` returns it. */
  function PyImage(c: PyConfig, p: Piece): (f: Figure)
    ensures PyFiguresOk(c.figures) ==> ValidFigure(f, Dim(p))
  {
    Image(c.figures, p.kind, p.rotation)
  }

  /** The offset table a piece type rotates with. The O piece's single
      reference point per state is a one-column table. */
  function KickTable(kind: PieceKind): (t: OffsetTable)
    ensures WellFormedOffsetTable(t)
    ensures kind == O_PIECE ==> |t[0]| == 1
    ensures kind != O_PIECE ==> |t[0]| == 5
  {
    if kind == I_PIECE then IOffsets
    else if kind == O_PIECE then SingleColumn(OOffsets)
    else JlstzOffsets
  }

  /** The piece collides in the field: some cell of its figure is outside
      the 20 x 10 field or on a non-zero cell. */
  ghost predicate PyHits(c: PyConfig, m: Field, p: Piece)
    requires WellShaped(m)
  {
    Collides(m, EMPTY, PyImage(c, p), Dim(p), p.x, p.y)
  }

  /** Every cell of the piece's figure lies inside the field (free or not):
      cells can be written there. */
  ghost predicate InField(c: PyConfig, p: Piece) {
    forall i, j :: Occupies(PyImage(c, p), Dim(p), i, j) ==>
      0 <= p.y + i < MATRIX_HEIGHT && 0 <= p.x + j < MATRIX_WIDTH
  }

  lemma FreePieceInField(c: PyConfig, m: Field, p: Piece)
    requires WellShaped(m) && !PyHits(c, m, p)
    ensures InField(c, p)
  {
    forall i, j | Occupies(PyImage(c, p), Dim(p), i, j)
      ensures 0 <= p.y + i < MATRIX_HEIGHT && 0 <= p.x + j < MATRIX_WIDTH
    {
      FreePlacementInside(m, EMPTY, PyImage(c, p), Dim(p), p.x, p.y, i, j);
    }
  }

  lemma SpawnInField(c: PyConfig, kind: PieceKind)
    ensures InField(c, Spawn(kind))
  {
  }

  /** The source's piece source: the queue, or the hold slot. */
  datatype Source = FromQueue | FromHold

  /** The game state. `moveResets` is the active piece's move-reset counter
      (a field of the piece object in the source, reset whenever a piece
      spawns); `dealt` and `bagsUsed` count the pieces taken from the queue
      and the bags appended to it. */
  datatype PyState = PyState(
    field: Field, activePiece: Option<Piece>, moveResets: int, pieceHeld: Option<PieceKind>,
    holdUsed: bool, lockDelay: bool, hardDropping: bool, softDropping: bool,
    queue: seq<PieceKind>, bagsUsed: nat, dealt: nat,
    score: int, level: int, totalLines: int, gameActive: bool)

  /** What every operation keeps: a 20 x 10 field, the queue in bag order,
      and an active piece whose cells lie inside the field. */
  ghost predicate PyConsistent(c: PyConfig, s: PyState) {
    WellShaped(s.field) && QueueInBagOrder(c.bags, s.queue, s.dealt, s.bagsUsed) &&
    (s.activePiece.Some? ==> InField(c, s.activePiece.value))
  }

  /** The game `Tetris()` creates: an empty field and queue, level 1. */
  function NewPyGame(): (s: PyState)
    ensures WellShaped(s.field) && s.activePiece.None? && s.queue == [] && s.gameActive
    ensures forall r, k :: 0 <= r < |s.field| && 0 <= k < |s.field[r]| ==> s.field[r][k] == EMPTY
  {
    PyState(EmptyRows(EMPTY, MATRIX_HEIGHT as nat), None, 0, None, false, false, false, false,
            [], 0, 0, 0, 1, 0, true)
  }

  // ------------------------------------------------------------ collision

  /** The placement `intersects(xd, yd, rd)` tests: the active piece moved
      xd columns right, yd rows up and turned rd quarter turns. */
  function Probe(p: Piece, xd: int, yd: int, rd: int): (q: Piece)
    ensures q.kind == p.kind && q.x == p.x + xd && q.y == p.y - yd
    ensures q.rotation == RotationAfter(p.rotation, rd)
  {
    Piece(p.kind, (p.rotation + rd) % 4, p.x + xd, p.y - yd)
  }

  /** `intersects(xd, yd, rd)`: with no active piece the scan frame is empty
      and nothing intersects. */
  ghost predicate IntersectsAt(c: PyConfig, s: PyState, xd: int, yd: int, rd: int)
    requires WellShaped(s.field)
  {
    s.activePiece.Some? && PyHits(c, s.field, Probe(s.activePiece.value, xd, yd, rd))
  }

  // ---------------------------------------------------------------- queue

  /** `advance_piece_queue`: a bag is appended when fewer than REFILL_BELOW
      pieces are queued, then the head is taken. The piece returned is the
      next one of the randomiser's stream, and at least QUEUE_LENGTH pieces
      stay queued, whatever the queue held before. */
  ghost function QueueAdvanced(c: PyConfig, s: PyState): (r: (PieceKind, PyState))
    requires AllBags(c.bags) && QueueInBagOrder(c.bags, s.queue, s.dealt, s.bagsUsed)
    ensures r.0 == BagPiece(c.bags, s.dealt)
    ensures |r.1.queue| >= QUEUE_LENGTH && QueueInBagOrder(c.bags, r.1.queue, r.1.dealt, r.1.bagsUsed)
    ensures r.1 == s.(queue := r.1.queue, bagsUsed := r.1.bagsUsed, dealt := s.dealt + 1)
    ensures |s.queue| < REFILL_BELOW ==> [r.0] + r.1.queue == s.queue + NthBag(c.bags, s.bagsUsed) && r.1.bagsUsed == s.bagsUsed + 1
    ensures |s.queue| >= REFILL_BELOW ==> [r.0] + r.1.queue == s.queue && r.1.bagsUsed == s.bagsUsed
  {
    var q := Refill(s.queue, NthBag(c.bags, s.bagsUsed), REFILL_BELOW);
    var used := if |s.queue| < REFILL_BELOW then s.bagsUsed + 1 else s.bagsUsed;
    RefillKeepsOrder(c.bags, s.queue, s.dealt, s.bagsUsed);
    TakeHeadKeepsOrder(c.bags, q, s.dealt, used);
    assert [q[0]] + q[1..] == q;
    (q[0], s.(queue := q[1..], bagsUsed := used, dealt := s.dealt + 1))
  }

  /** The refill keeps the queue in the randomiser's order and leaves at
      least six pieces queued. */
  lemma RefillKeepsOrder(bags: nat -> seq<PieceKind>, queue: seq<PieceKind>, dealt: nat, bagsUsed: nat)
    requires AllBags(bags) && QueueInBagOrder(bags, queue, dealt, bagsUsed)
    ensures var used := if |queue| < REFILL_BELOW then bagsUsed + 1 else bagsUsed;
            var q := Refill(queue, NthBag(bags, bagsUsed), REFILL_BELOW);
            QueueInBagOrder(bags, q, dealt, used) && |q| >= REFILL_BELOW
  {
    if |queue| < REFILL_BELOW {
      assert IsNthBag(bags, bagsUsed);
      AppendBagKeepsOrder(bags, queue, dealt, bagsUsed);
    }
  }

  /** A new piece (`Tetromino(source)`): its type comes from the hold slot
      if the source is the hold and something is held, else from the
      queue; it spawns unrotated at the spawn position with a fresh
      move-reset counter, and the lock delay is switched off. */
  ghost function Spawned(c: PyConfig, s: PyState, source: Source): (r: (Piece, PyState))
    requires AllBags(c.bags) && PyConsistent(c, s)
    ensures InField(c, r.0) && r.0 == Spawn(r.0.kind) && PyConsistent(c, r.1)
    ensures r.1.activePiece == s.activePiece && r.1.field == s.field && r.1.pieceHeld == s.pieceHeld
    ensures !r.1.lockDelay && r.1.moveResets == 0
    ensures r.1 == s.(queue := r.1.queue, bagsUsed := r.1.bagsUsed, dealt := r.1.dealt, moveResets := 0, lockDelay := false)
    ensures source == FromHold && s.pieceHeld.Some? ==> r.0.kind == s.pieceHeld.value && r.1.queue == s.queue
    ensures !(source == FromHold && s.pieceHeld.Some?) ==> r.0.kind == BagPiece(c.bags, s.dealt) && r.1.dealt == s.dealt + 1
  {
    var (kind, t) :=
      if source == FromHold && s.pieceHeld.Some? then (s.pieceHeld.value, s)
      else QueueAdvanced(c, s);
    SpawnInField(c, kind);
    (Spawn(kind), t.(moveResets := 0, lockDelay := false))
  }

  // ----------------------------------------------------------- line clear

  /** The shift `clear_lines` makes for a full row i, as written: rows i
      down to 2 take the row above them, row 1 is left as it was, and row 0
      is emptied. */
  function ShiftDownAsWritten(m: Field, i: int): (r: Field)
    requires 0 <= i < |m|
    ensures |r| == |m| && r[0] == EmptyRow(EMPTY)
    ensures forall k :: 2 <= k <= i ==> r[k] == m[k - 1]
    ensures forall k :: 0 < k < |m| && !(2 <= k <= i) ==> r[k] == m[k]
  {
    seq(|m|, k requires 0 <= k < |m| => if k == 0 then EmptyRow(EMPTY) else if 2 <= k <= i then m[k - 1] else m[k])
  }

  /** The row scan of `clear_lines` as written, from row i to the bottom:
      the field it leaves and the number of full rows it met. */
  function ClearScanAsWritten(m: Field, i: nat): (r: (Field, nat))
    requires i <= |m|
    ensures |r.0| == |m|
    decreases |m| - i
  {
    if i == |m| then (m, 0)
    else if IsFull(m[i], EMPTY) then
      var r := ClearScanAsWritten(ShiftDownAsWritten(m, i), i + 1);
      (r.0, r.1 + 1)
    else ClearScanAsWritten(m, i + 1)
  }

  /** The scan as written never changes row 1. */
  lemma {:induction false} ScanKeepsRowOne(m: Field, i: nat)
    requires 2 <= |m| && i <= |m|
    ensures ClearScanAsWritten(m, i).0[1] == m[1]
    decreases |m| - i
  {
    if i < |m| {
      if IsFull(m[i], EMPTY) {
        ScanKeepsRowOne(ShiftDownAsWritten(m, i), i + 1);
      } else {
        ScanKeepsRowOne(m, i + 1);
      }
    }
  }

  /** A scan that starts at or above row 1 counts a full row 1. */
  lemma {:induction false} ScanCountsRowOne(m: Field, i: nat)
    requires 2 <= |m| && i <= 1 && IsFull(m[1], EMPTY)
    ensures ClearScanAsWritten(m, i).1 >= 1
    decreases 1 - i
  {
    if i == 0 {
      if IsFull(m[0], EMPTY) {
        ScanCountsRowOne(ShiftDownAsWritten(m, 0), 1);
      } else {
        ScanCountsRowOne(m, 1);
      }
    }
  }

  /** The discrepancy: a full row 1 is counted (and scored) but never
      removed, so it is still full after the clear, and the next clear
      counts it again; the intended clear leaves no full row. */
  lemma FullRowOneSurvivesClear(m: Field)
    requires WellShaped(m) && IsFull(m[1], EMPTY)
    ensures var r := ClearScanAsWritten(m, 0);
            r.1 >= 1 && IsFull(r.0[1], EMPTY) && ClearScanAsWritten(r.0, 0).1 >= 1
    ensures !IsFull(ClearFullRows(m, EMPTY)[1], EMPTY)
  {
    ScanCountsRowOne(m, 0);
    ScanKeepsRowOne(m, 0);
    var r := ClearScanAsWritten(m, 0);
    ScanCountsRowOne(r.0, 0);
    ClearedHasNoFullRow(m, EMPTY, 1);
  }

  /** `clear_lines` with the shift reaching row 1: every full row is
      removed, the line total grows by their number and the score by the
      line points times the level. */
  ghost function PyCleared(s: PyState): (r: PyState)
    requires WellShaped(s.field)
    ensures WellShaped(r.field) && forall k :: 0 <= k < |r.field| ==> !IsFull(r.field[k], EMPTY)
    ensures r.totalLines == s.totalLines + FullRowCount(s.field, EMPTY)
    ensures r == s.(field := r.field, score := r.score, totalLines := r.totalLines)
    ensures s.level >= 0 ==> r.score >= s.score
  {
    var n := FullRowCount(s.field, EMPTY);
    ClearKeepsShape(s.field, EMPTY);
    ClearedRowsNotFull(s.field);
    s.(field := ClearFullRows(s.field, EMPTY), score := s.score + ClearScore(n, s.level),
       totalLines := s.totalLines + n)
  }

  lemma ClearedRowsNotFull(m: Field)
    ensures forall k :: 0 <= k < |m| ==> !IsFull(ClearFullRows(m, EMPTY)[k], EMPTY)
  {
    forall k | 0 <= k < |m| ensures !IsFull(ClearFullRows(m, EMPTY)[k], EMPTY) {
      ClearedHasNoFullRow(m, EMPTY, k);
    }
  }

  /** The score of a clear is the line points times the level, so a game at
      level 0 would score nothing (the engine starts at level 1). */
  lemma ClearScoresTimesLevel(s: PyState)
    requires WellShaped(s.field) && 1 <= FullRowCount(s.field, EMPTY) <= 4
    ensures PyCleared(s).score == s.score + LinePoints(FullRowCount(s.field, EMPTY)) * s.level
    ensures s.level > 0 ==> PyCleared(s).score > s.score
  {
  }

  // ------------------------------------------------------------ placement

  /** `place_piece`: only while the game runs and only when the piece
      would collide one row lower, every cell of its figure is set to its
      type plus one; then full rows are cleared, the lock delay is switched
      off, hold becomes available and the piece is gone. Whether the piece
      fits where it is is not checked. */
  ghost function PyPlaced(c: PyConfig, s: PyState): (r: PyState)
    requires WellShaped(s.field)
    ensures WellShaped(r.field)
    ensures !(s.gameActive && IntersectsAt(c, s, 0, -1, 0)) ==> r == s
    ensures s.gameActive && IntersectsAt(c, s, 0, -1, 0) ==> r.activePiece.None? && !r.holdUsed && !r.lockDelay
    ensures r.queue == s.queue && r.dealt == s.dealt && r.bagsUsed == s.bagsUsed && r.hardDropping == s.hardDropping
    ensures PyConsistent(c, s) ==> PyConsistent(c, r)
  {
    if IntersectsAt(c, s, 0, -1, 0) && s.gameActive then
      PyCleared(PyLocked(c, s)).(lockDelay := false, holdUsed := false, activePiece := None)
    else s
  }

  /** The write loop of `place_piece`: every cell the active piece's figure
      covers is set to its type plus one; nothing else changes. */
  ghost function PyLocked(c: PyConfig, s: PyState): (r: PyState)
    requires WellShaped(s.field) && s.activePiece.Some?
    ensures WellShaped(r.field) && r == s.(field := r.field)
  {
    var p := s.activePiece.value;
    s.(field := Lock(s.field, PyImage(c, p), Dim(p), p.x, p.y, p.kind + 1))
  }

  /** A placement that happens locks the piece with the value type + 1,
      clears the full rows and removes the piece. */
  lemma PlacedLocksAndClears(c: PyConfig, s: PyState)
    requires WellShaped(s.field) && s.gameActive && IntersectsAt(c, s, 0, -1, 0)
    ensures var p := s.activePiece.value;
            PyPlaced(c, s).activePiece.None? && !PyPlaced(c, s).holdUsed &&
            PyPlaced(c, s).field == ClearFullRows(Lock(s.field, PyImage(c, p), Dim(p), p.x, p.y, p.kind + 1), EMPTY)
  {
    assert PyPlaced(c, s) == PyCleared(PyLocked(c, s)).(lockDelay := false, holdUsed := false, activePiece := None);
  }

  /** The cells a placement writes: the value type + 1 exactly where the
      piece's figure covers the field, everything else unchanged (before
      the line clear). */
  lemma PlacedWritesTypePlusOne(c: PyConfig, s: PyState, row: int, col: int)
    requires WellShaped(s.field) && s.gameActive && IntersectsAt(c, s, 0, -1, 0)
    requires 0 <= row < MATRIX_HEIGHT && 0 <= col < MATRIX_WIDTH
    ensures var p := s.activePiece.value;
            var locked := Lock(s.field, PyImage(c, p), Dim(p), p.x, p.y, p.kind + 1);
            PyPlaced(c, s).field == ClearFullRows(locked, EMPTY) &&
            locked[row][col] == if Occupies(PyImage(c, p), Dim(p), row - p.y, col - p.x) then p.kind + 1 else s.field[row][col]
  {
    var p := s.activePiece.value;
    var f := PyImage(c, p);
    PlacedLocksAndClears(c, s);
    LockAt(s.field, f, Dim(p), p.x, p.y, p.kind + 1, row, col);
  }

  // ------------------------------------------------------------- movement

  /** `move_piece_h(dx)`: the piece moves dx columns unless it would then
      collide; while the lock delay is on, the move-reset counter grows by
      one whether or not the piece moved. */
  ghost function MovedH(c: PyConfig, s: PyState, dx: int): (r: PyState)
    requires WellShaped(s.field)
    ensures r.field == s.field && r.lockDelay == s.lockDelay && (r.activePiece.Some? <==> s.activePiece.Some?)
    ensures s.activePiece.Some? && s.lockDelay ==> r.moveResets == s.moveResets + 1
    ensures !(s.activePiece.Some? && s.lockDelay) ==> r.moveResets == s.moveResets
    ensures r.activePiece != s.activePiece ==>
              r.activePiece == Some(s.activePiece.value.(x := s.activePiece.value.x + dx)) &&
              !PyHits(c, s.field, r.activePiece.value)
    ensures s.activePiece.Some? && !PyHits(c, s.field, s.activePiece.value.(x := s.activePiece.value.x + dx)) ==>
              r.activePiece == Some(s.activePiece.value.(x := s.activePiece.value.x + dx))
    ensures s.activePiece.Some? && PyHits(c, s.field, s.activePiece.value.(x := s.activePiece.value.x + dx)) ==>
              r.activePiece == s.activePiece
    ensures r == s.(activePiece := r.activePiece, moveResets := r.moveResets)
  {
    if s.activePiece.None? then s
    else
      var p := s.activePiece.value;
      var q := p.(x := p.x + dx);
      var moved := if PyHits(c, s.field, q) then s else s.(activePiece := Some(q));
      if s.lockDelay then moved.(moveResets := s.moveResets + 1) else moved
  }

  /** A horizontal move that was made is undone by the opposite move. */
  lemma MoveHRoundTrip(c: PyConfig, s: PyState, dx: int)
    requires WellShaped(s.field) && s.activePiece.Some? && !PyHits(c, s.field, s.activePiece.value)
    requires MovedH(c, s, dx).activePiece != s.activePiece
    ensures MovedH(c, MovedH(c, s, dx), -dx).activePiece == s.activePiece
  {
    var p := s.activePiece.value;
    var q := MovedH(c, s, dx).activePiece.value;
    assert q.(x := q.x + -dx) == p;
  }

  /** A blocked horizontal move still uses up a move reset while the lock
      delay is on. */
  lemma BlockedMoveHStillCounts(c: PyConfig, s: PyState, dx: int)
    requires WellShaped(s.field) && s.activePiece.Some? && s.lockDelay
    requires PyHits(c, s.field, s.activePiece.value.(x := s.activePiece.value.x + dx))
    ensures MovedH(c, s, dx).activePiece == s.activePiece && MovedH(c, s, dx).moveResets == s.moveResets + 1
  {
  }

  /** `move_piece_down`, as written: a blocked move leaves the piece where it
      was and places it once 15 move resets are used up, or places it and
      ends the hard drop while hard-dropping, or else switches the lock
      delay on (with a fresh counter) if it was off. A free move takes the
      piece one row down and switches the lock delay off while fewer than
      15 resets are used. */
  ghost function MovedDownAsWritten(c: PyConfig, s: PyState): (r: PyState)
    requires WellShaped(s.field)
    ensures WellShaped(r.field)
  {
    if s.activePiece.None? then s
    else
      var p := s.activePiece.value;
      var q := p.(y := p.y + 1);
      if PyHits(c, s.field, q) then
        if s.moveResets >= MOVE_RESET_LIMIT then PyPlaced(c, s)
        else if s.hardDropping then PyPlaced(c, s).(hardDropping := false)
        else if !s.lockDelay then s.(lockDelay := true, moveResets := 0)
        else s
      else SteppedDown(s)
  }

  /** The free branch of `move_piece_down`: the piece moves one row down and
      the lock delay is switched off while fewer than 15 move resets are
      used. */
  function SteppedDown(s: PyState): (r: PyState)
    requires s.activePiece.Some?
    ensures r.activePiece == Some(s.activePiece.value.(y := s.activePiece.value.y + 1))
    ensures r == s.(activePiece := r.activePiece, lockDelay := r.lockDelay)
    ensures r.lockDelay == (s.lockDelay && s.moveResets >= MOVE_RESET_LIMIT)
  {
    var p := s.activePiece.value;
    var moved := s.(activePiece := Some(p.(y := p.y + 1)));
    if s.moveResets < MOVE_RESET_LIMIT then moved.(lockDelay := false) else moved
  }

  /** `move_piece_down` corrected: the branch that places the piece after 15
      move resets also ends a hard drop. */
  ghost function MovedDown(c: PyConfig, s: PyState): (r: PyState)
    requires WellShaped(s.field)
    ensures WellShaped(r.field)
    ensures s.activePiece.Some? && !PyHits(c, s.field, s.activePiece.value.(y := s.activePiece.value.y + 1)) ==>
              r.activePiece == Some(s.activePiece.value.(y := s.activePiece.value.y + 1)) && r.hardDropping == s.hardDropping
    ensures s.activePiece.Some? && PyHits(c, s.field, s.activePiece.value.(y := s.activePiece.value.y + 1)) && s.hardDropping ==>
              r == PyPlaced(c, s).(hardDropping := false)
    ensures s.activePiece.Some? && PyHits(c, s.field, s.activePiece.value.(y := s.activePiece.value.y + 1)) &&
            s.moveResets >= MOVE_RESET_LIMIT ==>
              r == PyPlaced(c, s).(hardDropping := false)
    ensures s.activePiece.None? ==> r == s
    ensures PyConsistent(c, s) ==> PyConsistent(c, r)
  {
    if s.activePiece.None? then s
    else
      var q := s.activePiece.value.(y := s.activePiece.value.y + 1);
      if PyHits(c, s.field, q) then BlockedBelow(c, s)
      else
        FreePieceInField(c, s.field, q);
        SteppedDown(s)
  }

  /** The blocked branch of the corrected `move_piece_down`: the piece is
      placed and the hard drop ends after 15 move resets or during a hard
      drop; otherwise the lock delay is switched on with a fresh counter if
      it was off. The state stays consistent. */
  ghost function BlockedBelow(c: PyConfig, s: PyState): (r: PyState)
    requires WellShaped(s.field)
    ensures PyConsistent(c, s) ==> PyConsistent(c, r)
    ensures s.moveResets >= MOVE_RESET_LIMIT || s.hardDropping ==>
              r == PyPlaced(c, s).(hardDropping := false)
    ensures s.moveResets < MOVE_RESET_LIMIT && !s.hardDropping && !s.lockDelay ==>
              r == s.(lockDelay := true, moveResets := 0)
    ensures s.moveResets < MOVE_RESET_LIMIT && !s.hardDropping && s.lockDelay ==> r == s
  {
    if s.moveResets >= MOVE_RESET_LIMIT || s.hardDropping then PyPlaced(c, s).(hardDropping := false)
    else if !s.lockDelay then s.(lockDelay := true, moveResets := 0)
    else s
  }

  /** The two branches of the corrected `move_piece_down` for a piece that
      exists. */
  lemma MovedDownBranches(c: PyConfig, s: PyState)
    requires WellShaped(s.field) && s.activePiece.Some?
    ensures var q := s.activePiece.value.(y := s.activePiece.value.y + 1);
            MovedDown(c, s) == if PyHits(c, s.field, q) then BlockedBelow(c, s) else SteppedDown(s)
  {
  }

  /** The correction changes nothing outside a hard drop. */
  lemma MovedDownAgreesOutsideHardDrop(c: PyConfig, s: PyState)
    requires WellShaped(s.field) && !s.hardDropping
    ensures MovedDown(c, s) == MovedDownAsWritten(c, s)
  {
  }

  /** A blocked downward move that is not forced to place switches the lock
      delay on once, with a fresh counter, and leaves the piece in place. */
  lemma LandingArmsLockDelay(c: PyConfig, s: PyState)
    requires WellShaped(s.field) && s.activePiece.Some? && !s.hardDropping && s.moveResets < MOVE_RESET_LIMIT
    requires PyHits(c, s.field, s.activePiece.value.(y := s.activePiece.value.y + 1))
    ensures MovedDown(c, s).activePiece == s.activePiece && MovedDown(c, s).lockDelay
    ensures !s.lockDelay ==> MovedDown(c, s).moveResets == 0
    ensures s.lockDelay ==> MovedDown(c, s) == s
  {
  }

  /** The iterated passes of the hard-drop loop, as written. */
  ghost function DropPassesAsWritten(c: PyConfig, s: PyState, n: nat): (r: PyState)
    requires WellShaped(s.field)
    ensures WellShaped(r.field)
    decreases n
  {
    if n == 0 then s else DropPassesAsWritten(c, MovedDownAsWritten(c, s), n - 1)
  }

  /** Without an active piece a pass changes nothing, so the loop's
      condition never becomes false. */
  lemma {:induction false} NoPieceDropNeverEnds(c: PyConfig, s: PyState, n: nat)
    requires WellShaped(s.field) && s.activePiece.None? && s.hardDropping
    ensures DropPassesAsWritten(c, s, n) == s
    decreases n
  {
    if n > 0 {
      NoPieceDropNeverEnds(c, s, n - 1);
    }
  }

  /** The discrepancy: a resting piece that has used up its 15 move resets
      is placed by the first pass, which does not end the hard drop; from
      then on there is no piece, and no number of passes ends the loop.
      The corrected pass ends the drop at once. */
  lemma HardDropAfterFifteenResetsHangs(c: PyConfig, s: PyState, n: nat)
    requires WellShaped(s.field) && s.activePiece.Some? && s.gameActive && s.hardDropping
    requires s.moveResets >= MOVE_RESET_LIMIT && !PyHits(c, s.field, s.activePiece.value)
    requires PyHits(c, s.field, s.activePiece.value.(y := s.activePiece.value.y + 1))
    ensures DropPassesAsWritten(c, s, n + 1).hardDropping && DropPassesAsWritten(c, s, n + 1).activePiece.None?
    ensures !MovedDown(c, s).hardDropping
  {
    var p := s.activePiece.value;
    assert Probe(p, 0, -1, 0) == p.(y := p.y + 1);
    var t := MovedDownAsWritten(c, s);
    assert t == PyPlaced(c, s);
    NoPieceDropNeverEnds(c, t, n);
  }

  /** Where the corrected hard drop leaves the state just before its last
      pass: the piece on its ghost row, the lock delay switched off if the
      piece fell a row while resets remained. */
  ghost function HardDropLanding(c: PyConfig, s: PyState): (t: PyState)
    requires PyTablesOk(c) && WellShaped(s.field) && s.activePiece.Some?
    ensures var p := s.activePiece.value;
            t.activePiece.Some? && t.activePiece.value == p.(y := t.activePiece.value.y) &&
            IsGhostRow(s.field, EMPTY, PyImage(c, p), Dim(p), p.x, p.y, t.activePiece.value.y)
    ensures t == s.(activePiece := t.activePiece, hardDropping := true, softDropping := false, lockDelay := t.lockDelay)
  {
    var p := s.activePiece.value;
    var g := GhostRow(s.field, EMPTY, PyImage(c, p), Dim(p), p.x, p.y);
    var fell := g > p.y && s.moveResets < MOVE_RESET_LIMIT;
    s.(activePiece := Some(p.(y := g)), hardDropping := true, softDropping := false,
       lockDelay := if fell then false else s.lockDelay)
  }

  /** The corrected hard drop: the piece falls to its ghost row and is
      placed there, and the drop ends. Without an active piece the drop
      ends at once. */
  ghost function PyHardDropped(c: PyConfig, s: PyState): (r: PyState)
    requires PyTablesOk(c) && WellShaped(s.field)
    ensures WellShaped(r.field) && !r.hardDropping && !r.softDropping
    ensures s.activePiece.None? ==> r == s.(hardDropping := false, softDropping := false)
  {
    if s.activePiece.None? then s.(hardDropping := false, softDropping := false)
    else PyPlaced(c, HardDropLanding(c, s)).(hardDropping := false)
  }

  /** A hard drop from where the piece fits places it on its ghost row: the
      piece rests there, and the field gains its cells there before the
      line clear. */
  lemma PyHardDropLocksOnGhostRow(c: PyConfig, s: PyState)
    requires PyTablesOk(c) && WellShaped(s.field) && s.activePiece.Some? && s.gameActive && !PyHits(c, s.field, s.activePiece.value)
    ensures var q := HardDropLanding(c, s).activePiece.value;
            !PyHits(c, s.field, q) && PyHits(c, s.field, q.(y := q.y + 1)) &&
            PyHardDropped(c, s).activePiece.None? &&
            PyHardDropped(c, s).field == ClearFullRows(Lock(s.field, PyImage(c, q), Dim(q), q.x, q.y, q.kind + 1), EMPTY)
  {
    var p := s.activePiece.value;
    var t := HardDropLanding(c, s);
    var q := t.activePiece.value;
    GhostRowIsResting(s.field, EMPTY, PyImage(c, p), Dim(p), p.x, p.y, q.y);
    assert IntersectsAt(c, t, 0, -1, 0) by {
      assert Probe(q, 0, -1, 0) == q.(y := q.y + 1);
    }
    PlacedLocksAndClears(c, t);
  }

  /** The corrected hard-drop loop part way: the piece of `s` lowered to
      some row between its own and the ghost row, the drop flags set, and
      the lock delay switched off once the piece has fallen a row while
      resets remained; nothing else changed. */
  ghost predicate PyDropping(c: PyConfig, s: PyState, t: PyState)
    requires PyTablesOk(c) && WellShaped(s.field) && s.activePiece.Some?
  {
    var p := s.activePiece.value;
    t.activePiece.Some? &&
    var y := t.activePiece.value.y;
    p.y <= y <= HardDropLanding(c, s).activePiece.value.y &&
    t == s.(activePiece := Some(p.(y := y)), hardDropping := true, softDropping := false,
            lockDelay := if y > p.y && s.moveResets < MOVE_RESET_LIMIT then false else s.lockDelay)
  }

  /** Above the ghost row, a pass of the loop lowers the piece one row and
      the drop goes on. */
  lemma PyDropStepsDown(c: PyConfig, s: PyState, t: PyState)
    requires PyTablesOk(c) && WellShaped(s.field) && s.activePiece.Some? && PyDropping(c, s, t)
    requires t.activePiece.value.y < HardDropLanding(c, s).activePiece.value.y
    ensures var u := MovedDown(c, t);
            u.activePiece == Some(t.activePiece.value.(y := t.activePiece.value.y + 1)) &&
            !PyHits(c, s.field, u.activePiece.value) && u.hardDropping && PyDropping(c, s, u)
  {
    var p := s.activePiece.value;
    var q := t.activePiece.value.(y := t.activePiece.value.y + 1);
    assert !PyHits(c, t.field, q) by {
      assert PyImage(c, q) == PyImage(c, p);
    }
    assert MovedDown(c, t) == MovedDownAsWritten(c, t);
  }

  /** On the ghost row, the pass places the piece and ends the drop: the
      loop ends in the state the corrected hard drop describes. */
  lemma PyDropEndsOnGhostRow(c: PyConfig, s: PyState, t: PyState)
    requires PyTablesOk(c) && WellShaped(s.field) && s.activePiece.Some? && PyDropping(c, s, t)
    requires t.activePiece.value.y == HardDropLanding(c, s).activePiece.value.y
    ensures MovedDown(c, t) == PyHardDropped(c, s) && !MovedDown(c, t).hardDropping
  {
    var p := s.activePiece.value;
    var q := t.activePiece.value;
    assert t == HardDropLanding(c, s);
    assert PyHits(c, t.field, q.(y := q.y + 1)) by {
      assert PyImage(c, q.(y := q.y + 1)) == PyImage(c, p);
    }
  }

  // ------------------------------------------------------------- rotation

  /** The first kick column that fits for rotating `p` by `distance`. */
  ghost function PyKick(c: PyConfig, m: Field, p: Piece, distance: int): (k: Option<nat>)
    requires WellShaped(m)
    ensures k.Some? ==> k.value < |KickTable(p.kind)[0]|
  {
    var to := RotationAfter(p.rotation, distance);
    FirstFreeKick(m, EMPTY, PyImage(c, p.(rotation := to)), Dim(p), KickTable(p.kind), p.rotation, to, p.x, p.y, 0)
  }

  /** The piece after rotating with kick column `col`. */
  function PyKicked(p: Piece, distance: int, col: int): (q: Piece)
    requires 0 <= col < |KickTable(p.kind)[0]|
    ensures q.kind == p.kind && q.rotation == RotationAfter(p.rotation, distance)
  {
    var to := RotationAfter(p.rotation, distance);
    var k := KickOffset(KickTable(p.kind), p.rotation, to, col);
    Piece(p.kind, to, p.x + k.0, p.y - k.1)
  }

  /** The kick search only returns a column whose rotated placement fits. */
  lemma PyKickFits(c: PyConfig, m: Field, p: Piece, distance: int)
    requires WellShaped(m) && PyKick(c, m, p, distance).Some?
    ensures !PyHits(c, m, PyKicked(p, distance, PyKick(c, m, p, distance).value))
  {
    var to := RotationAfter(p.rotation, distance);
    var q := PyKicked(p, distance, PyKick(c, m, p, distance).value);
    assert PyImage(c, q) == PyImage(c, p.(rotation := to));
  }

  /** `rotate(distance)` through `call_rotation`: the first kick of the
      piece's table whose placement does not collide is taken (the O piece
      has one to try); with none, the piece stays. Either way the
      move-reset counter grows by one while the lock delay is on. Without
      an active piece nothing happens. */
  ghost function PyRotated(c: PyConfig, s: PyState, distance: int): (r: PyState)
    requires WellShaped(s.field)
    ensures (r.activePiece.Some? <==> s.activePiece.Some?) && r.field == s.field
    ensures r == s.(activePiece := r.activePiece, moveResets := r.moveResets)
    ensures s.activePiece.Some? && s.lockDelay ==> r.moveResets == s.moveResets + 1
    ensures !(s.activePiece.Some? && s.lockDelay) ==> r.moveResets == s.moveResets
  {
    if s.activePiece.None? then s
    else
      var p := s.activePiece.value;
      var turned :=
        match PyKick(c, s.field, p, distance)
        case None => s
        case Some(col) => s.(activePiece := Some(PyKicked(p, distance, col)));
      if s.lockDelay then turned.(moveResets := s.moveResets + 1) else turned
  }

  /** A rotation that moved the piece took the first kick that fits, and
      every earlier kick of the table collides; a rotation that did not
      move it found no kick that fits. */
  lemma PyRotationTakesFirstFreeKick(c: PyConfig, s: PyState, distance: int)
    requires WellShaped(s.field) && s.activePiece.Some?
    ensures var p := s.activePiece.value;
            var to := RotationAfter(p.rotation, distance);
            var t := KickTable(p.kind);
            match PyKick(c, s.field, p, distance)
            case Some(col) =>
              PyRotated(c, s, distance).activePiece == Some(PyKicked(p, distance, col)) &&
              !PyHits(c, s.field, PyKicked(p, distance, col)) &&
              forall k :: 0 <= k < col ==> KickBlocked(s.field, EMPTY, PyImage(c, p.(rotation := to)), Dim(p), t, p.rotation, to, p.x, p.y, k)
            case None =>
              PyRotated(c, s, distance).activePiece == s.activePiece &&
              forall k :: 0 <= k < |t[0]| ==> KickBlocked(s.field, EMPTY, PyImage(c, p.(rotation := to)), Dim(p), t, p.rotation, to, p.x, p.y, k)
  {
    if PyKick(c, s.field, s.activePiece.value, distance).Some? {
      PyKickFits(c, s.field, s.activePiece.value, distance);
    }
  }

  // ----------------------------------------------------------------- hold

  /** `hold_piece`: once per piece, the active piece's type goes to the hold
      slot and a new piece spawns from the hold (the previously held type,
      or the next queued piece when nothing was held); the lock delay is
      switched off. */
  ghost function PyHeld(c: PyConfig, s: PyState): (r: PyState)
    requires AllBags(c.bags) && PyConsistent(c, s)
    ensures PyConsistent(c, r)
    ensures s.activePiece.Some? && !s.holdUsed ==>
              r.holdUsed && !r.lockDelay && r.pieceHeld == Some(s.activePiece.value.kind) && r.activePiece.Some?
    ensures s.activePiece.Some? && !s.holdUsed && s.pieceHeld.Some? ==>
              r.activePiece == Some(Spawn(s.pieceHeld.value)) && r.queue == s.queue
    ensures s.activePiece.Some? && !s.holdUsed && s.pieceHeld.None? ==>
              r.activePiece == Some(Spawn(BagPiece(c.bags, s.dealt))) && r.dealt == s.dealt + 1
    ensures s.activePiece.Some? && !s.holdUsed ==>
              r == s.(activePiece := r.activePiece, pieceHeld := r.pieceHeld, holdUsed := true, lockDelay := false,
                      moveResets := 0, queue := r.queue, bagsUsed := r.bagsUsed, dealt := r.dealt)
    ensures s.activePiece.None? || s.holdUsed ==> r == s
  {
    if s.activePiece.Some? && !s.holdUsed then
      var (q, t) := Spawned(c, s, FromHold);
      t.(activePiece := Some(q), pieceHeld := Some(s.activePiece.value.kind), holdUsed := true, lockDelay := false)
    else s
  }

  /** A second hold before the next placement does nothing. */
  lemma PyHoldOncePerPiece(c: PyConfig, s: PyState)
    requires AllBags(c.bags) && PyConsistent(c, s)
    ensures PyHeld(c, PyHeld(c, s)) == PyHeld(c, s)
  {
  }
}
