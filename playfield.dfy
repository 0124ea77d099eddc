/** The matrix of locked cells and everything computed from it: the single
    collision predicate, locking a piece, clearing full rows, the ghost row
    and the "slide as far as possible" rule for vertical moves.

    Both engines are served by the same definitions: the cell type `C` and
    the value `empty` that marks a free cell are parameters (the browser
    engine uses `null`, the Python engine `0`), and so is the side `dim` of
    the square frame a figure's linear indices live in. */
module Playfield {
  import opened Wrappers
  import opened Geometry

  predicate WellShaped<C>(m: seq<seq<C>>) {
    |m| == MATRIX_HEIGHT && forall r :: 0 <= r < |m| ==> |m[r]| == MATRIX_WIDTH
  }

  /** Figure `f` covers cell (i, j) of its `dim` x `dim` frame: the cell's
      row-major index i * dim + j is listed in the figure. This is the test
      both engines' scanning loops make. */
  predicate Occupies(f: Figure, dim: int, i: int, j: int) {
    0 <= i < dim && 0 <= j < dim && i * dim + j in f
  }

  /** Matrix coordinate (row, col) is outside the matrix or holds a block.
      The bounds tests come first, so the cell is only read when it exists. */
  predicate Blocked<C(==)>(m: seq<seq<C>>, empty: C, row: int, col: int)
    requires WellShaped(m)
  {
    row < 0 || row > MATRIX_HEIGHT - 1 || col < 0 || col > MATRIX_WIDTH - 1 || m[row][col] != empty
  }

  /** Linear index n of a `dim` x `dim` frame whose top-left corner is at
      (x, y) lies in the frame and lands on a blocked matrix cell. An index
      outside the frame is never scanned, so it never blocks. */
  predicate CellBlocked<C(==)>(m: seq<seq<C>>, empty: C, dim: int, x: int, y: int, n: int)
    requires WellShaped(m)
  {
    0 < dim && 0 <= n < dim * dim && Blocked(m, empty, y + n / dim, x + n % dim)
  }

  /** The one collision predicate: some cell of the figure, placed with its
      frame's top-left corner at (x, y), is out of bounds or on a block. */
  predicate Collides<C(==)>(m: seq<seq<C>>, empty: C, f: Figure, dim: int, x: int, y: int)
    requires WellShaped(m)
    decreases |f|
  {
    f != [] && (CellBlocked(m, empty, dim, x, y, f[0]) || Collides(m, empty, f[1..], dim, x, y))
  }

  /** The row-major index of cell (i, j) of a frame splits back into i and j. */
  lemma CellIndex(dim: int, i: int, j: int)
    requires 0 <= i < dim && 0 <= j < dim
    ensures 0 <= i * dim + j < dim * dim
    ensures (i * dim + j) / dim == i && (i * dim + j) % dim == j
  {
    var n := i * dim + j;
    assert i * dim <= (dim - 1) * dim by { MulLeft(i, dim - 1, dim); }
    var q, r := n / dim, n % dim;
    assert q * dim + r == n;
    if q > i {
      MulLeft(i + 1, q, dim);
    } else if q < i {
      MulLeft(q + 1, i, dim);
    }
  }

  lemma MulLeft(a: int, b: int, c: int)
    requires a <= b && 0 <= c
    ensures a * c <= b * c
  {
    assert b * c - a * c == (b - a) * c;
  }

  /** ... and every index of the frame is the index of one of its cells. */
  lemma IndexCell(dim: int, n: int)
    requires 0 < dim && 0 <= n < dim * dim
    ensures 0 <= n / dim < dim && 0 <= n % dim < dim && (n / dim) * dim + n % dim == n
  {
    if n / dim >= dim {
      MulLeft(dim, n / dim, dim);
    }
  }

  /** Collision, cell by cell: some index of the figure blocks. */
  lemma {:induction false} CollidesIffSomeCell<C>(m: seq<seq<C>>, empty: C, f: Figure, dim: int, x: int, y: int)
    requires WellShaped(m)
    ensures Collides(m, empty, f, dim, x, y) <==> exists n :: n in f && CellBlocked(m, empty, dim, x, y, n)
    decreases |f|
  {
    if f != [] {
      CollidesIffSomeCell(m, empty, f[1..], dim, x, y);
      assert forall n :: n in f <==> n == f[0] || n in f[1..];
    }
  }

  /** Collision in the terms of the scanning loops: some covered cell of
      the frame is out of bounds or on a block. */
  lemma CollidesIffOccupied<C>(m: seq<seq<C>>, empty: C, f: Figure, dim: int, x: int, y: int)
    requires WellShaped(m)
    ensures Collides(m, empty, f, dim, x, y) <==>
            exists i, j :: Occupies(f, dim, i, j) && Blocked(m, empty, y + i, x + j)
  {
    CollidesIffSomeCell(m, empty, f, dim, x, y);
    if Collides(m, empty, f, dim, x, y) {
      var n :| n in f && CellBlocked(m, empty, dim, x, y, n);
      IndexCell(dim, n);
      assert Occupies(f, dim, n / dim, n % dim);
    }
    if exists i, j :: Occupies(f, dim, i, j) && Blocked(m, empty, y + i, x + j) {
      var i, j :| Occupies(f, dim, i, j) && Blocked(m, empty, y + i, x + j);
      CellIndex(dim, i, j);
      assert CellBlocked(m, empty, dim, x, y, i * dim + j);
    }
  }

  /** A figure that does not collide lies wholly inside the matrix, on
      free cells. */
  lemma FreePlacementInside<C>(m: seq<seq<C>>, empty: C, f: Figure, dim: int, x: int, y: int, i: int, j: int)
    requires WellShaped(m) && !Collides(m, empty, f, dim, x, y) && Occupies(f, dim, i, j)
    ensures 0 <= y + i < MATRIX_HEIGHT && 0 <= x + j < MATRIX_WIDTH && m[y + i][x + j] == empty
  {
    CollidesIffOccupied(m, empty, f, dim, x, y);
    assert !Blocked(m, empty, y + i, x + j);
  }

  /** A non-empty figure has a cell in the first row of its frame or below,
      so a placement that does not collide has its top row inside the
      matrix. This is what bounds every downward search. */
  lemma FreePlacementAboveFloor<C>(m: seq<seq<C>>, empty: C, f: Figure, dim: int, x: int, y: int)
    requires WellShaped(m) && (dim == 3 || dim == 5) && ValidFigure(f, dim)
    requires !Collides(m, empty, f, dim, x, y)
    ensures y < MATRIX_HEIGHT
  {
    assert f[0] in f;
    assert !CellBlocked(m, empty, dim, x, y, f[0]);
  }

  /** No figure collides in a matrix whose cells are all free, as long as
      its whole frame lies inside the matrix. */
  lemma {:induction false} NoCollisionInEmptyFrame<C>(m: seq<seq<C>>, empty: C, f: Figure, dim: int, x: int, y: int)
    requires WellShaped(m) && 0 < dim
    requires forall row, col :: 0 <= row < MATRIX_HEIGHT && 0 <= col < MATRIX_WIDTH ==> m[row][col] == empty
    requires 0 <= x && x + dim <= MATRIX_WIDTH && 0 <= y && y + dim <= MATRIX_HEIGHT
    ensures !Collides(m, empty, f, dim, x, y)
    decreases |f|
  {
    if f != [] {
      if 0 <= f[0] < dim * dim {
        IndexCell(dim, f[0]);
      }
      NoCollisionInEmptyFrame(m, empty, f[1..], dim, x, y);
    }
  }

  /** Two well-shaped matrices with the same cells are the same matrix. */
  lemma SameCells<C>(a: seq<seq<C>>, b: seq<seq<C>>)
    requires WellShaped(a) && WellShaped(b)
    requires forall row, col :: 0 <= row < MATRIX_HEIGHT && 0 <= col < MATRIX_WIDTH ==> a[row][col] == b[row][col]
    ensures a == b
  {
    forall row | 0 <= row < MATRIX_HEIGHT ensures a[row] == b[row] {
      assert forall col :: 0 <= col < MATRIX_WIDTH ==> a[row][col] == b[row][col];
    }
  }

  // ---------------------------------------------------------------- locking

  /** Writes `v` into the matrix cell that index n of the frame at (x, y)
      lands on; an index outside the frame, or a cell outside the matrix,
      writes nothing. */
  function Put<C>(m: seq<seq<C>>, dim: int, x: int, y: int, n: int, v: C): (r: seq<seq<C>>)
    requires WellShaped(m)
    ensures WellShaped(r)
  {
    if 0 < dim && 0 <= n < dim * dim && 0 <= y + n / dim < MATRIX_HEIGHT && 0 <= x + n % dim < MATRIX_WIDTH then
      m[y + n / dim := m[y + n / dim][x + n % dim := v]]
    else m
  }

  /** The matrix after writing `v` into every cell the figure covers. */
  function Lock<C>(m: seq<seq<C>>, f: Figure, dim: int, x: int, y: int, v: C): (r: seq<seq<C>>)
    requires WellShaped(m)
    ensures WellShaped(r)
    decreases |f|
  {
    if f == [] then m else Lock(Put(m, dim, x, y, f[0], v), f[1..], dim, x, y, v)
  }

  /** Cell by cell, locking writes `v` exactly where the figure covers the
      matrix and leaves every other cell as it was. */
  lemma {:induction false} LockAt<C>(m: seq<seq<C>>, f: Figure, dim: int, x: int, y: int, v: C, row: int, col: int)
    requires WellShaped(m) && 0 <= row < MATRIX_HEIGHT && 0 <= col < MATRIX_WIDTH
    ensures Lock(m, f, dim, x, y, v)[row][col] == if Occupies(f, dim, row - y, col - x) then v else m[row][col]
    decreases |f|
  {
    if f != [] {
      var m' := Put(m, dim, x, y, f[0], v);
      LockAt(m', f[1..], dim, x, y, v, row, col);
      var i, j := row - y, col - x;
      assert Occupies(f, dim, i, j) <==> Occupies(f[1..], dim, i, j) || (0 <= i < dim && 0 <= j < dim && i * dim + j == f[0]) by {
        assert forall n :: n in f <==> n == f[0] || n in f[1..];
      }
      if 0 < dim && 0 <= f[0] < dim * dim {
        IndexCell(dim, f[0]);
      }
      if 0 <= i < dim && 0 <= j < dim {
        CellIndex(dim, i, j);
      }
    }
  }

  /** Locking a piece that fit, with a non-empty value, makes the same
      placement collide: the cells just written are now occupied. */
  lemma LockedPieceCollides<C>(m: seq<seq<C>>, empty: C, f: Figure, dim: int, x: int, y: int, v: C)
    requires WellShaped(m) && (dim == 3 || dim == 5) && ValidFigure(f, dim)
    requires !Collides(m, empty, f, dim, x, y) && v != empty
    ensures Collides(Lock(m, f, dim, x, y, v), empty, f, dim, x, y)
  {
    var n := f[0];
    assert n in f;
    IndexCell(dim, n);
    var i, j := n / dim, n % dim;
    assert Occupies(f, dim, i, j);
    FreePlacementInside(m, empty, f, dim, x, y, i, j);
    var r := Lock(m, f, dim, x, y, v);
    LockAt(m, f, dim, x, y, v, y + i, x + j);
    CollidesIffOccupied(r, empty, f, dim, x, y);
    assert Blocked(r, empty, y + i, x + j);
  }

  /** Locking never frees a cell: a placement that collided before still
      collides afterwards. */
  lemma LockKeepsCollisions<C>(m: seq<seq<C>>, empty: C, f: Figure, dim: int, x: int, y: int, v: C,
                               g: Figure, gdim: int, gx: int, gy: int)
    requires WellShaped(m) && v != empty
    requires Collides(m, empty, g, gdim, gx, gy)
    ensures Collides(Lock(m, f, dim, x, y, v), empty, g, gdim, gx, gy)
  {
    var r := Lock(m, f, dim, x, y, v);
    CollidesIffOccupied(m, empty, g, gdim, gx, gy);
    CollidesIffOccupied(r, empty, g, gdim, gx, gy);
    var i, j :| Occupies(g, gdim, i, j) && Blocked(m, empty, gy + i, gx + j);
    if 0 <= gy + i < MATRIX_HEIGHT && 0 <= gx + j < MATRIX_WIDTH {
      LockAt(m, f, dim, x, y, v, gy + i, gx + j);
    }
    assert Blocked(r, empty, gy + i, gx + j);
  }

  // -------------------------------------------------------------- line clear

  /** A row is full when it holds no empty cell (checked cell by cell from
      the left). */
  predicate IsFull<C(==)>(row: seq<C>, empty: C)
    decreases |row|
  {
    row == [] || (row[0] != empty && IsFull(row[1..], empty))
  }

  /** A full row is exactly one in which the empty value does not occur. */
  lemma {:induction false} IsFullIffNoEmpty<C>(row: seq<C>, empty: C)
    ensures IsFull(row, empty) <==> empty !in row
    decreases |row|
  {
    if row != [] {
      IsFullIffNoEmpty(row[1..], empty);
      assert row == [row[0]] + row[1..];
    }
  }

  function EmptyRow<C>(empty: C): (row: seq<C>)
    ensures |row| == MATRIX_WIDTH && forall c :: 0 <= c < |row| ==> row[c] == empty
  {
    seq(MATRIX_WIDTH, _ => empty)
  }

  lemma EmptyRowNotFull<C>(empty: C)
    ensures !IsFull(EmptyRow(empty), empty)
  {
    assert EmptyRow(empty)[0] == empty;
  }

  function EmptyRows<C>(empty: C, n: nat): (rows: seq<seq<C>>)
    ensures |rows| == n && forall r :: 0 <= r < n ==> rows[r] == EmptyRow(empty)
  {
    seq(n, _ => EmptyRow(empty))
  }

  /** The rows that are not full, in their original top-to-bottom order. */
  function KeptRows<C(==)>(m: seq<seq<C>>, empty: C): (k: seq<seq<C>>)
    ensures |k| <= |m|
    ensures forall n :: 0 <= n < |k| ==> !IsFull(k[n], empty)
  {
    if m == [] then []
    else KeptRows(m[..|m| - 1], empty) + (if IsFull(m[|m| - 1], empty) then [] else [m[|m| - 1]])
  }

  function FullRowCount<C(==)>(m: seq<seq<C>>, empty: C): nat {
    |m| - |KeptRows(m, empty)|
  }

  /** Line clear, stated row-wise: every full row disappears, the
      other rows keep their order and sink to the bottom, and as many empty
      rows as were removed appear at the top. */
  function ClearFullRows<C(==)>(m: seq<seq<C>>, empty: C): (r: seq<seq<C>>)
    ensures |r| == |m|
  {
    EmptyRows(empty, FullRowCount(m, empty)) + KeptRows(m, empty)
  }

  lemma {:induction false} KeptRowsOfNoFullRows<C>(m: seq<seq<C>>, empty: C)
    requires forall r :: 0 <= r < |m| ==> !IsFull(m[r], empty)
    ensures KeptRows(m, empty) == m
    decreases |m|
  {
    if m != [] {
      var p := m[..|m| - 1];
      forall r | 0 <= r < |p| ensures !IsFull(p[r], empty) {
        assert p[r] == m[r];
      }
      KeptRowsOfNoFullRows(p, empty);
      assert !IsFull(m[|m| - 1], empty);
      assert p + [m[|m| - 1]] == m;
    }
  }

  /** Appending one row below a matrix: a full row only adds an empty row at
      the top of the cleared result, any other row is kept at the bottom. */
  lemma ClearFullRowsSnoc<C>(pre: seq<seq<C>>, row: seq<C>, empty: C)
    ensures FullRowCount(pre + [row], empty) == FullRowCount(pre, empty) + (if IsFull(row, empty) then 1 else 0)
    ensures ClearFullRows(pre + [row], empty) ==
      if IsFull(row, empty) then [EmptyRow(empty)] + ClearFullRows(pre, empty)
      else ClearFullRows(pre, empty) + [row]
  {
    var next := pre + [row];
    assert next[..|next| - 1] == pre;
    assert next[|next| - 1] == row;
    var c := FullRowCount(pre, empty);
    if IsFull(row, empty) {
      assert KeptRows(next, empty) == KeptRows(pre, empty);
      assert EmptyRows(empty, c + 1) == [EmptyRow(empty)] + EmptyRows(empty, c);
    } else {
      assert KeptRows(next, empty) == KeptRows(pre, empty) + [row];
    }
  }

  /** Every kept row is a row of the matrix. */
  lemma {:induction false} KeptRowsAreRows<C>(m: seq<seq<C>>, empty: C)
    ensures forall r :: r in KeptRows(m, empty) ==> r in m
    decreases |m|
  {
    if m != [] {
      var p := m[..|m| - 1];
      KeptRowsAreRows(p, empty);
      assert forall r :: r in p ==> r in m;
    }
  }

  lemma ClearKeepsShape<C>(m: seq<seq<C>>, empty: C)
    requires WellShaped(m)
    ensures WellShaped(ClearFullRows(m, empty))
  {
    var r := ClearFullRows(m, empty);
    forall k | 0 <= k < |r| ensures |r[k]| == MATRIX_WIDTH {
      if k >= FullRowCount(m, empty) {
        KeptRowsAreRows(m, empty);
        assert r[k] in KeptRows(m, empty);
      }
    }
  }

  /** After a clear no row is full. */
  lemma ClearedHasNoFullRow<C>(m: seq<seq<C>>, empty: C, k: int)
    requires 0 <= k < |m|
    ensures !IsFull(ClearFullRows(m, empty)[k], empty)
  {
    EmptyRowNotFull(empty);
    var r := ClearFullRows(m, empty);
    if k >= FullRowCount(m, empty) {
      assert r[k] == KeptRows(m, empty)[k - FullRowCount(m, empty)];
    }
  }

  /** Clearing a matrix without full rows removes nothing and changes
      nothing. */
  lemma ClearWithoutFullRowsIsIdentity<C>(m: seq<seq<C>>, empty: C)
    requires forall r :: 0 <= r < |m| ==> !IsFull(m[r], empty)
    ensures FullRowCount(m, empty) == 0 && ClearFullRows(m, empty) == m
  {
    KeptRowsOfNoFullRows(m, empty);
  }

  /** Clearing twice is clearing once. */
  lemma ClearIdempotent<C>(m: seq<seq<C>>, empty: C)
    ensures ClearFullRows(ClearFullRows(m, empty), empty) == ClearFullRows(m, empty)
  {
    var r := ClearFullRows(m, empty);
    forall k | 0 <= k < |r| ensures !IsFull(r[k], empty) {
      ClearedHasNoFullRow(m, empty, k);
    }
    ClearWithoutFullRowsIsIdentity(r, empty);
  }

  /** With exactly one full row k, the clear removes that row, moves every
      row above it down by one and leaves the rows below it alone. */
  lemma ClearSingleFullRow<C>(m: seq<seq<C>>, empty: C, k: int)
    requires 0 <= k < |m| && IsFull(m[k], empty)
    requires forall r :: 0 <= r < |m| && r != k ==> !IsFull(m[r], empty)
    ensures FullRowCount(m, empty) == 1
    ensures ClearFullRows(m, empty) == [EmptyRow(empty)] + m[..k] + m[k + 1..]
  {
    KeptRowsAroundFullRow(m, empty, k);
    assert EmptyRows(empty, 1) == [EmptyRow(empty)];
  }

  lemma {:induction false} KeptRowsAroundFullRow<C>(m: seq<seq<C>>, empty: C, k: int)
    requires 0 <= k < |m| && IsFull(m[k], empty)
    requires forall r :: 0 <= r < |m| && r != k ==> !IsFull(m[r], empty)
    ensures KeptRows(m, empty) == m[..k] + m[k + 1..]
    decreases |m|
  {
    var init := m[..|m| - 1];
    if k == |m| - 1 {
      assert init == m[..k];
      KeptRowsOfNoFullRows(init, empty);
      assert m[k + 1..] == [];
    } else {
      KeptRowsAroundFullRow(init, empty, k);
      assert init[..k] == m[..k];
      assert init[k + 1..] + [m[|m| - 1]] == m[k + 1..];
    }
  }

  /** One step of the browser engine's clear: row i disappears, rows 0..i-1
      move down one, and row 0 becomes empty. */
  function ShiftDown<C>(m: seq<seq<C>>, i: int, empty: C): (r: seq<seq<C>>)
    requires 0 <= i < |m|
    ensures |r| == |m|
    ensures r[0] == EmptyRow(empty)
    ensures forall k :: 1 <= k <= i ==> r[k] == m[k - 1]
    ensures forall k :: i < k < |m| ==> r[k] == m[k]
  {
    [EmptyRow(empty)] + m[..i] + m[i + 1..]
  }

  /** The browser engine clears by scanning the rows top to bottom and
      shifting each full row out at once. One row of that scan keeps the
      scanned part equal to `ClearFullRows` of the same rows of the
      original matrix, and counts the row if it was full. */
  lemma ClearScanStep<C>(orig: seq<seq<C>>, m: seq<seq<C>>, empty: C, i: nat)
    requires i < |orig| == |m|
    requires m[..i] == ClearFullRows(orig[..i], empty) && m[i..] == orig[i..]
    ensures var next := if IsFull(m[i], empty) then ShiftDown(m, i, empty) else m;
            next[..i + 1] == ClearFullRows(orig[..i + 1], empty) && next[i + 1..] == orig[i + 1..]
    ensures FullRowCount(orig[..i + 1], empty) == FullRowCount(orig[..i], empty) + (if IsFull(m[i], empty) then 1 else 0)
  {
    var pre := orig[..i];
    assert orig[..i + 1] == pre + [orig[i]];
    assert m[i] == orig[i];
    ClearFullRowsSnoc(pre, orig[i], empty);
    if IsFull(m[i], empty) {
      var next := ShiftDown(m, i, empty);
      assert next[..i + 1] == [EmptyRow(empty)] + m[..i];
      assert next[i + 1..] == m[i + 1..];
    } else {
      assert m[..i + 1] == m[..i] + [m[i]];
    }
  }

  /** The row scan of both engines' line clears (the Python one with its
      off-by-one corrected): rows are examined top to bottom, and a full row
      is overwritten by the rows above it, each moved down one cell at a
      time, after which row 0 becomes empty. The result is the matrix with
      every full row removed and empty rows added on top, and `lines`
      counts the full rows. */
  method RemoveFullRows<C(==)>(orig: seq<seq<C>>, empty: C) returns (m: seq<seq<C>>, lines: int)
    requires WellShaped(orig)
    ensures m == ClearFullRows(orig, empty) && lines == FullRowCount(orig, empty)
  {
    m := orig;
    lines := 0;
    for i := 0 to |m|
      invariant WellShaped(m)
      invariant m[..i] == ClearFullRows(orig[..i], empty) && m[i..] == orig[i..]
      invariant lines == FullRowCount(orig[..i], empty)
    {
      ghost var mi := m;
      ClearScanStep(orig, mi, empty, i);
      IsFullIffNoEmpty(m[i], empty);
      if empty !in m[i] {
        lines := lines + 1;
        var i1 := i;
        while i1 > 0
          invariant 0 <= i1 <= i && WellShaped(m)
          invariant forall k :: 0 <= k <= i1 ==> m[k] == mi[k]
          invariant forall k :: i1 < k <= i ==> m[k] == mi[k - 1]
          invariant forall k :: i < k < MATRIX_HEIGHT ==> m[k] == mi[k]
        {
          ghost var mc := m;
          for j := 0 to |m[i1]|
            invariant |m| == MATRIX_HEIGHT
            invariant forall k :: 0 <= k < MATRIX_HEIGHT && k != i1 ==> m[k] == mc[k]
            invariant |m[i1]| == MATRIX_WIDTH
            invariant forall q :: 0 <= q < j ==> m[i1][q] == mc[i1 - 1][q]
            invariant forall q :: j <= q < MATRIX_WIDTH ==> m[i1][q] == mc[i1][q]
          {
            m := m[i1 := m[i1][j := m[i1 - 1][j]]];
          }
          assert m[i1] == mc[i1 - 1];
          i1 := i1 - 1;
        }
        m := m[0 := EmptyRow(empty)];
        assert m == ShiftDown(mi, i, empty);
      }
    }
    assert m == m[..|m|] && orig == orig[..|orig|];
  }

  // --------------------------------------------------------------- ghost row

  /** g is the ghost row of a piece whose frame is at (x, y): probing one row
      at a time from y, g is the last row before the first colliding one. */
  ghost predicate IsGhostRow<C>(m: seq<seq<C>>, empty: C, f: Figure, dim: int, x: int, y: int, g: int)
    requires WellShaped(m)
  {
    y <= g && Collides(m, empty, f, dim, x, g + 1) &&
    forall r :: y < r <= g ==> !Collides(m, empty, f, dim, x, r)
  }

  /** The ghost row, found by probing one row down at a time. The probe
      ends because a figure with a cell cannot fit below the floor. */
  ghost function GhostRow<C>(m: seq<seq<C>>, empty: C, f: Figure, dim: int, x: int, y: int): (g: int)
    requires WellShaped(m) && (dim == 3 || dim == 5) && ValidFigure(f, dim)
    decreases MATRIX_HEIGHT - y
    ensures IsGhostRow(m, empty, f, dim, x, y, g)
  {
    if Collides(m, empty, f, dim, x, y + 1) then y
    else
      FreePlacementAboveFloor(m, empty, f, dim, x, y + 1);
      GhostRow(m, empty, f, dim, x, y + 1)
  }

  /** The ghost row is unique. */
  lemma GhostRowUnique<C>(m: seq<seq<C>>, empty: C, f: Figure, dim: int, x: int, y: int, g1: int, g2: int)
    requires WellShaped(m)
    requires IsGhostRow(m, empty, f, dim, x, y, g1) && IsGhostRow(m, empty, f, dim, x, y, g2)
    ensures g1 == g2
  {
  }

  /** Moving a piece one row down within its drop path keeps its ghost row. */
  lemma GhostRowStepDown<C>(m: seq<seq<C>>, empty: C, f: Figure, dim: int, x: int, y: int, g: int)
    requires WellShaped(m) && IsGhostRow(m, empty, f, dim, x, y, g) && y < g
    ensures IsGhostRow(m, empty, f, dim, x, y + 1, g)
  {
  }

  /** From a placement that fits, the ghost row is a resting place: the
      piece fits there and would collide one row lower. */
  lemma GhostRowIsResting<C>(m: seq<seq<C>>, empty: C, f: Figure, dim: int, x: int, y: int, g: int)
    requires WellShaped(m) && IsGhostRow(m, empty, f, dim, x, y, g)
    requires !Collides(m, empty, f, dim, x, y)
    ensures !Collides(m, empty, f, dim, x, g) && Collides(m, empty, f, dim, x, g + 1)
  {
    if y < g {
      assert y < g <= g;
    }
  }

  // ------------------------------------------------------- vertical movement

  /** The browser engine's vertical move: if the destination y + dy collides,
      dy is shrunk toward 0 one unit at a time until it no longer collides
      (or reaches 0). The result is the offset the piece moves by. */
  ghost function SlideAsWritten<C>(m: seq<seq<C>>, empty: C, f: Figure, dim: int, x: int, y: int, dy: int): (d: int)
    requires WellShaped(m)
    decreases if dy < 0 then -dy else dy
    ensures 0 <= dy ==> 0 <= d <= dy
    ensures dy <= 0 ==> dy <= d <= 0
    ensures d != 0 ==> !Collides(m, empty, f, dim, x, y + d)
    ensures dy > 0 ==> forall r :: y + d < r <= y + dy ==> Collides(m, empty, f, dim, x, r)
    ensures dy < 0 ==> forall r :: y + dy <= r < y + d ==> Collides(m, empty, f, dim, x, r)
  {
    if !Collides(m, empty, f, dim, x, y + dy) then dy
    else if dy > 0 then SlideAsWritten(m, empty, f, dim, x, y, dy - 1)
    else if dy < 0 then SlideAsWritten(m, empty, f, dim, x, y, dy + 1)
    else 0
  }

  /** For a one-row move the slide cannot pass over anything: the piece
      either takes the step or stays. */
  lemma SlideOneRow<C>(m: seq<seq<C>>, empty: C, f: Figure, dim: int, x: int, y: int)
    requires WellShaped(m)
    ensures SlideAsWritten(m, empty, f, dim, x, y, 1) == (if Collides(m, empty, f, dim, x, y + 1) then 0 else 1)
  {
  }

  /** For moves of two or more rows the slide only tests the destination
      rows, never the rows in between, so a piece can pass over a block:
      an I piece lying flat in row 2 of its frame, with a block right
      under its left end, moves two rows down through that block. */
  lemma SlideCanPassOverBlock()
    ensures var f := [11, 12, 13, 14];
            var m := EmptyRows(None, MATRIX_HEIGHT as nat)[3 := EmptyRow(None)[1 := Some(0)]];
            WellShaped(m) &&
            Collides(m, None, f, FRAME, 0, 1) &&
            SlideAsWritten(m, None, f, FRAME, 0, 0, 2) == 2
  {
    var f := [11, 12, 13, 14];
    var m: seq<seq<Option<int>>> := EmptyRows(None, MATRIX_HEIGHT as nat)[3 := EmptyRow(None)[1 := Some(0)]];
    assert WellShaped(m);
    assert CellBlocked(m, None, FRAME, 0, 1, 11);
    assert Collides(m, None, f, FRAME, 0, 1);
    assert !Collides(m, None, f, FRAME, 0, 2);
  }
}
