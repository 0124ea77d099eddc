/** The Python engine's `Tetris` class (here `Game`) together with the
    state its `Tetromino` objects carry. The active piece is a value in an
    `Option` field that the methods replace, and the piece's move-reset
    counter is a field of the game (each new piece starts it at 0). Every
    method is proved to leave the fields describing exactly the state the
    corresponding function of `ReferenceRules` computes from the old ones.

    `ClearLines`, `MovePieceDown` and `HardDrop` carry the corrections
    described with `ReferenceRules.ClearScanAsWritten` and
    `ReferenceRules.MovedDownAsWritten`. */
module ReferenceEngine {
  import opened Wrappers
  import opened Geometry
  import opened Playfield
  import opened Kicks
  import opened Scoring
  import opened LockDelay
  import opened Bag
  import opened ReferenceRules

  /** The write loop of `place_piece`: every cell of the `dim` x `dim`
      frame at (x, y) that the figure covers is set to `v`. The covered
      cells must lie inside the field. */
  method WriteCells(m0: Field, f: Figure, dim: int, x: int, y: int, v: int) returns (m: Field)
    requires WellShaped(m0) && 0 <= dim
    requires forall i, j :: Occupies(f, dim, i, j) ==> 0 <= y + i < MATRIX_HEIGHT && 0 <= x + j < MATRIX_WIDTH
    ensures m == Lock(m0, f, dim, x, y, v)
  {
    m := m0;
    for i := 0 to dim
      invariant WellShaped(m)
      invariant forall row, col :: 0 <= row < MATRIX_HEIGHT && 0 <= col < MATRIX_WIDTH ==>
                  m[row][col] == if Occupies(f, dim, row - y, col - x) && row - y < i then v else m0[row][col]
    {
      for j := 0 to dim
        invariant WellShaped(m)
        invariant forall row, col :: 0 <= row < MATRIX_HEIGHT && 0 <= col < MATRIX_WIDTH ==>
                    m[row][col] == if Occupies(f, dim, row - y, col - x) && (row - y < i || (row - y == i && col - x < j)) then v else m0[row][col]
      {
        if i * dim + j in f {
          assert Occupies(f, dim, i, j);
          m := m[i + y := m[i + y][j + x := v]];
        }
      }
    }
    forall row, col | 0 <= row < MATRIX_HEIGHT && 0 <= col < MATRIX_WIDTH
      ensures m[row][col] == Lock(m0, f, dim, x, y, v)[row][col]
    {
      LockAt(m0, f, dim, x, y, v, row, col);
    }
    SameCells(m, Lock(m0, f, dim, x, y, v));
  }

  class Game {
    /** The figure table and the randomiser the game was started with. */
    const c: PyConfig

    var field: Field
    var activePiece: Option<Piece>
    /** The active piece's move-reset counter. */
    var moveResets: int
    var pieceHeld: Option<PieceKind>
    var holdUsed: bool
    var lockDelay: bool
    var hardDropping: bool
    var softDropping: bool
    var queue: seq<PieceKind>
    /** Bags taken from the randomiser so far. */
    var bagsUsed: nat
    /** Pieces taken from the queue so far. */
    ghost var dealt: nat
    var score: int
    var level: int
    var totalLines: int
    var gameActive: bool

    /** The fields as one game state. */
    ghost function State(): PyState
      reads this
    {
      PyState(field, activePiece, moveResets, pieceHeld, holdUsed, lockDelay, hardDropping, softDropping,
              queue, bagsUsed, dealt, score, level, totalLines, gameActive)
    }

    /** Between calls: well-formed tables and a consistent state. */
    ghost predicate Valid()
      reads this
    {
      PyTablesOk(c) && PyConsistent(c, State())
    }

    /** A new game: score 0, level 1, an empty field and queue, no piece,
        and the class's figure table. */
    constructor(bags: nat -> seq<PieceKind>)
      requires AllBags(bags)
      ensures State() == NewPyGame() && c == PyConfig(Figures, bags) && Valid()
    {
      c := PyConfig(Figures, bags);
      score := 0;
      level := 1;
      totalLines := 0;
      activePiece := None;
      moveResets := 0;
      pieceHeld := None;
      holdUsed := false;
      lockDelay := false;
      hardDropping := false;
      softDropping := false;
      field := EmptyRows(EMPTY, MATRIX_HEIGHT as nat);
      queue := [];
      bagsUsed := 0;
      dealt := 0;
      gameActive := true;
      new;
      FiguresFitScanFrames();
    }

    // ------------------------------------------------------------- queries

    /** The side of the active piece's scan frame (0 without a piece). */
    method GetScanDimension() returns (d: int)
      ensures d == ScanDimension(if activePiece.Some? then Some(activePiece.value.kind) else None)
    {
      if activePiece.None? {
        return 0;
      } else if activePiece.value.kind == 0 {
        return 5;
      } else {
        return 3;
      }
    }

    /** `intersects(xd, yd, rd)`: the scan frame of the active piece moved
        xd columns right, yd rows up and turned rd quarter turns is scanned,
        and a flag is raised at every covered cell that is outside the
        field or not empty. */
    method Intersects(xd: int, yd: int, rd: int) returns (intersection: bool)
      requires WellShaped(field)
      ensures intersection == IntersectsAt(c, State(), xd, yd, rd)
    {
      var dim := GetScanDimension();
      intersection := false;
      ghost var q := if activePiece.Some? then Probe(activePiece.value, xd, yd, rd) else Piece(0, 0, 0, 0);
      ghost var f := PyImage(c, q);
      for i := 0 to dim
        invariant intersection <==> exists n :: 0 <= n < i * dim && n in f && CellBlocked(field, EMPTY, dim, q.x, q.y, n)
      {
        for j := 0 to dim
          invariant intersection <==> exists n :: 0 <= n < i * dim + j && n in f && CellBlocked(field, EMPTY, dim, q.x, q.y, n)
        {
          CellIndex(dim, i, j);
          var p := activePiece.value;
          if i * dim + j in Image(c.figures, p.kind, (p.rotation + rd) % 4) {
            if i + p.y - yd > MATRIX_HEIGHT - 1 || i + p.y - yd < 0 ||
               j + p.x + xd < 0 || j + p.x + xd > MATRIX_WIDTH - 1 ||
               field[i + p.y - yd][j + p.x + xd] != 0
            {
              assert CellBlocked(field, EMPTY, dim, q.x, q.y, i * dim + j);
              intersection := true;
            }
          }
        }
      }
      if activePiece.Some? {
        CollidesIffSomeCell(field, EMPTY, f, dim, q.x, q.y);
        if !intersection {
          forall n | n in f ensures !CellBlocked(field, EMPTY, dim, q.x, q.y, n) {
            if 0 <= n < dim * dim {
              IndexCell(dim, n);
            }
          }
        }
      }
    }

    // --------------------------------------------------------------- queue

    /** `advance_piece_queue`: a shuffled bag is appended when fewer than
        six pieces are queued, then the head is removed and returned. */
    method AdvancePieceQueue() returns (newPiece: PieceKind)
      requires AllBags(c.bags) && QueueInBagOrder(c.bags, queue, dealt, bagsUsed)
      modifies this
      ensures (newPiece, State()) == QueueAdvanced(c, old(State()))
    {
      ghost var s := State();
      ghost var r := QueueAdvanced(c, s);
      RefillQueue();
      assert [r.0] + r.1.queue == queue && r.1.bagsUsed == bagsUsed;
      newPiece := queue[0];
      queue := queue[1..];
      dealt := dealt + 1;
      assert newPiece == r.0 && queue == r.1.queue;
      assert State() == r.1;
    }

    /** The refill step of `advance_piece_queue`: below six queued pieces
        the next bag of the randomiser is appended. */
    method RefillQueue()
      requires AllBags(c.bags)
      modifies this
      ensures State() == old(State()).(queue := Refill(old(queue), NthBag(c.bags, old(bagsUsed)), REFILL_BELOW),
                                       bagsUsed := if |old(queue)| < REFILL_BELOW then old(bagsUsed) + 1 else old(bagsUsed))
    {
      if |queue| < REFILL_BELOW {
        var bag := NthBag(c.bags, bagsUsed);
        assert IsNthBag(c.bags, bagsUsed);
        queue := queue + bag;
        bagsUsed := bagsUsed + 1;
      }
    }

    /** `Tetromino(source)`: the new piece's type comes from the hold slot
        when the source is the hold and a type is held, and from the queue
        otherwise; it starts unrotated at the spawn position, and its
        counter and the lock delay are reset. The caller installs it. */
    method SpawnTetromino(source: Source) returns (piece: Piece)
      requires Valid()
      modifies this
      ensures (piece, State()) == Spawned(c, old(State()), source) && Valid()
    {
      var kind: PieceKind;
      if source == FromQueue {
        kind := AdvancePieceQueue();
      } else if pieceHeld.None? {
        kind := AdvancePieceQueue();
      } else {
        kind := pieceHeld.value;
      }
      var x, y := 3, 1;
      if kind == 0 {
        x, y := x - 1, y - 1;
      }
      piece := Piece(kind, 0, x, y);
      moveResets := 0;
      lockDelay := false;
    }

    // ---------------------------------------------------------- line clear

    /** `clear_lines`, with the shift reaching row 1: every full row is
        removed, the line total grows by their number and the score by
        100, 300, 500 or 800 times the level. */
    method ClearLines()
      requires WellShaped(field)
      modifies this
      ensures State() == PyCleared(old(State()))
    {
      var lines;
      field, lines := RemoveFullRows(field, EMPTY);
      totalLines := totalLines + lines;
      if lines == 1 {
        score := score + 100 * level;
      } else if lines == 2 {
        score := score + 300 * level;
      } else if lines == 3 {
        score := score + 500 * level;
      } else if lines == 4 {
        score := score + 800 * level;
      }
    }

    // ----------------------------------------------------------- placement

    /** `place_piece`: while the game runs and the piece would collide one
        row lower, the piece is locked in; otherwise nothing happens. */
    method PlacePiece()
      requires Valid()
      modifies this
      ensures State() == PyPlaced(c, old(State())) && Valid()
    {
      var blocked := Intersects(0, -1, 0);
      if blocked && gameActive {
        LockPiece();
      }
    }

    /** The body of `place_piece` once it has decided to place: the piece's
        cells are set to its type plus one, full rows are cleared, the lock
        delay is switched off, hold becomes available again and the piece is
        gone. */
    method LockPiece()
      requires Valid() && gameActive && IntersectsAt(c, State(), 0, -1, 0)
      modifies this
      ensures State() == PyPlaced(c, old(State())) && Valid()
    {
      ghost var s := State();
      ghost var r := PyPlaced(c, s);
      WritePiece();
      assert State() == PyLocked(c, s);
      ClearLines();
      assert State() == PyCleared(PyLocked(c, s));
      lockDelay := false;
      holdUsed := false;
      activePiece := None;
      assert r == PyCleared(PyLocked(c, s)).(lockDelay := false, holdUsed := false, activePiece := None);
      assert State() == r;
    }

    /** The write loop of `place_piece` applied to the active piece: its
        cells are set to its type plus one, nothing else changes. */
    method WritePiece()
      requires Valid() && activePiece.Some?
      modifies this
      ensures State() == PyLocked(c, old(State()))
    {
      var p := activePiece.value;
      var dim := GetScanDimension();
      field := WriteCells(field, PyImage(c, p), dim, p.x, p.y, p.kind + 1);
    }

    // ---------------------------------------------------------------- hold

    /** `hold_piece`: once per piece, the active piece's type goes to the
        hold slot and a piece spawned from the hold replaces it. */
    method HoldPiece()
      requires Valid()
      modifies this
      ensures State() == PyHeld(c, old(State())) && Valid()
    {
      if activePiece.Some? && !holdUsed {
        var kind := activePiece.value.kind;
        var piece := SpawnTetromino(FromHold);
        activePiece, pieceHeld := Some(piece), Some(kind);
        holdUsed := true;
        lockDelay := false;
      }
    }

    // ------------------------------------------------------------ movement

    /** `move_piece_h(dx)`: the piece is moved, and moved back if it then
        intersects; while the lock delay is on the counter grows either
        way. */
    method MovePieceH(dx: int)
      requires Valid()
      modifies this
      ensures State() == MovedH(c, old(State()), dx) && Valid()
    {
      if activePiece.Some? {
        var p := activePiece.value;
        activePiece := Some(p.(x := p.x + dx));
        var hit := Intersects(0, 0, 0);
        assert Probe(activePiece.value, 0, 0, 0) == activePiece.value;
        if hit {
          activePiece := Some(activePiece.value.(x := activePiece.value.x - dx));
          assert activePiece.value == p;
        } else {
          FreePieceInField(c, field, activePiece.value);
        }
        if lockDelay {
          moveResets := moveResets + 1;
        }
      }
    }

    /** `move_piece_down`, with the branch that places the piece after 15
        move resets also ending a hard drop. */
    method MovePieceDown()
      requires Valid()
      modifies this
      ensures State() == MovedDown(c, old(State())) && Valid()
    {
      ghost var s := State();
      if activePiece.Some? {
        var hit := StepUnlessBlocked();
        MovedDownBranches(c, s);
        if hit {
          Land();
        } else if moveResets < MOVE_RESET_LIMIT {
          lockDelay := false;
        }
      }
    }

    /** The first step of `move_piece_down`: the piece moves one row down
        and, when it then intersects, moves back up; the result tells which
        happened. */
    method StepUnlessBlocked() returns (hit: bool)
      requires WellShaped(field) && activePiece.Some?
      modifies this
      ensures var q := old(activePiece.value).(y := old(activePiece.value).y + 1);
              hit == PyHits(c, old(field), q) &&
              State() == if hit then old(State()) else old(State()).(activePiece := Some(q))
    {
      var p := activePiece.value;
      var q := p.(y := p.y + 1);
      activePiece := Some(q);
      hit := Intersects(0, 0, 0);
      assert Probe(q, 0, 0, 0) == q;
      if hit {
        activePiece := Some(p);
      }
    }

    /** The blocked branch of `move_piece_down`: after 15 move resets or
        during a hard drop the piece is placed and the hard drop ends;
        otherwise the lock delay is switched on with a fresh counter if it
        was off. */
    method Land()
      requires Valid()
      modifies this
      ensures State() == BlockedBelow(c, old(State())) && Valid()
    {
      if moveResets >= MOVE_RESET_LIMIT || hardDropping {
        ghost var s := State();
        PlacePiece();
        hardDropping := false;
        assert State() == PyPlaced(c, s).(hardDropping := false);
      } else if !lockDelay {
        lockDelay := true;
        moveResets := 0;
      }
    }

    /** `hard_drop`: the piece is moved down until the drop ends. The loop
        also ends when there is no piece to drop, and the drop flag is
        cleared on the way out. */
    method HardDrop()
      requires Valid()
      modifies this
      ensures Valid() && State() == PyHardDropped(c, old(State()))
    {
      ghost var s0 := State();
      ghost var g := if activePiece.Some? then HardDropLanding(c, s0).activePiece.value.y else 0;
      hardDropping := true;
      softDropping := false;
      if s0.activePiece.Some? {
        assert s0.activePiece.value.(y := s0.activePiece.value.y) == s0.activePiece.value;
        assert PyDropping(c, s0, State());
      }
      while hardDropping && activePiece.Some?
        invariant Valid()
        invariant s0.activePiece.None? ==> State() == s0.(hardDropping := true, softDropping := false)
        invariant s0.activePiece.Some? && hardDropping && activePiece.Some? ==> PyDropping(c, s0, State())
        invariant s0.activePiece.Some? && !(hardDropping && activePiece.Some?) ==> State() == PyHardDropped(c, s0)
        decreases if hardDropping && activePiece.Some? then g + 1 - activePiece.value.y else 0
      {
        if activePiece.value.y < g {
          PyDropStepsDown(c, s0, State());
        } else {
          PyDropEndsOnGhostRow(c, s0, State());
        }
        MovePieceDown();
      }
      hardDropping := false;
    }

    // ------------------------------------------------------------ rotation

    /** The kick loop of `rotate` for the I, J, L, S, T and Z pieces: the
        columns of table `t` are tried in order and the first whose kick
        does not make the turned piece intersect is returned. */
    method FindKick(t: OffsetTable, to: Rotation, distance: int) returns (col: Option<nat>)
      requires WellShaped(field) && activePiece.Some? && WellFormedOffsetTable(t)
      requires to == RotationAfter(activePiece.value.rotation, distance)
      ensures var p := activePiece.value;
              col == FirstFreeKick(field, EMPTY, PyImage(c, p.(rotation := to)), Dim(p), t, p.rotation, to, p.x, p.y, 0)
    {
      var p := activePiece.value;
      ghost var f := PyImage(c, p.(rotation := to));
      var i := 0;
      while i < |t[0]|
        invariant 0 <= i <= |t[0]|
        invariant forall k :: 0 <= k < i ==> KickBlocked(field, EMPTY, f, Dim(p), t, p.rotation, to, p.x, p.y, k)
      {
        var (previousX, previousY) := t[p.rotation][i];
        var (newX, newY) := t[to][i];
        var hit := Intersects(previousX - newX, previousY - newY, distance);
        assert PyImage(c, Probe(p, previousX - newX, previousY - newY, distance)) == f;
        if !hit {
          FirstFreeKickSkipsBlocked(field, EMPTY, f, Dim(p), t, p.rotation, to, p.x, p.y, 0, i);
          return Some(i);
        }
        i := i + 1;
      }
      FirstFreeKickSkipsBlocked(field, EMPTY, f, Dim(p), t, p.rotation, to, p.x, p.y, 0, i);
      return None;
    }

    /** `rotate(distance)` through `call_rotation`: without a piece nothing
        happens. The I piece and the J, L, S, T and Z pieces try the five
        kicks of their table in order; the O piece tries its one offset.
        The first kick that fits is taken. While the lock delay is on the
        counter grows whether or not the piece turned. */
    method Rotate(distance: int)
      requires Valid()
      modifies this
      ensures State() == PyRotated(c, old(State()), distance) && Valid()
    {
      if activePiece.None? {
        return;
      }
      ghost var r := PyRotated(c, State(), distance);
      var p := activePiece.value;
      var col := KickColumn(distance);
      if col.Some? {
        PyKickFits(c, field, p, distance);
        activePiece := Some(PyKicked(p, distance, col.value));
        FreePieceInField(c, field, activePiece.value);
      }
      if lockDelay {
        moveResets := moveResets + 1;
      }
      assert State() == r;
    }

    /** The kick search of `rotate`: the I piece and the J, L, S, T and Z
        pieces try the columns of their tables in order; the O piece tries
        its single offset only. */
    method KickColumn(distance: int) returns (col: Option<nat>)
      requires WellShaped(field) && activePiece.Some?
      ensures col == PyKick(c, field, activePiece.value, distance)
    {
      var p := activePiece.value;
      var newRotation: Rotation := (p.rotation + distance) % 4;
      if p.kind == I_PIECE {
        col := FindKick(IOffsets, newRotation, distance);
      } else if p.kind == O_PIECE {
        var (previousX, previousY) := OOffsets[p.rotation];
        var (newX, newY) := OOffsets[newRotation];
        var hit := Intersects(previousX - newX, previousY - newY, distance);
        assert PyImage(c, Probe(p, previousX - newX, previousY - newY, distance)) == PyImage(c, p.(rotation := newRotation));
        col := if hit then None else Some(0);
      } else {
        col := FindKick(JlstzOffsets, newRotation, distance);
      }
    }
  }
}
