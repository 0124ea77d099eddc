/** Rotation with wall kicks in the offset-table formulation of the Super
    Rotation System: every rotation state has a row of reference points,
    the kick tried for column `c` is the current row's point minus the new
    row's point, and the first kick whose placement does not collide is
    taken. */
module Kicks {
  import opened Wrappers
  import opened Geometry
  import opened Playfield

  /** The new rotation state for a rotation by `distance` quarter turns,
      taken modulo 4 into 0..3 (negative distances wrap around). */
  function RotationAfter(rotation: Rotation, distance: int): (r: Rotation)
    ensures (r - rotation - distance) % 4 == 0
  {
    (rotation + distance) % 4
  }

  /** Rotating back by the same distance restores the rotation state. */
  lemma RotateBackRestores(rotation: Rotation, distance: int)
    ensures RotationAfter(RotationAfter(rotation, distance), -distance) == rotation
  {
    var r := RotationAfter(rotation, distance);
    assert (r - distance - rotation) % 4 == 0;
    var q := (r - distance - rotation) / 4;
    assert r - distance == rotation + 4 * q;
    assert (rotation + 4 * q) % 4 == rotation;
  }

  /** Four quarter turns in the same direction are no rotation at all. */
  lemma FourQuarterTurnsIdentity(rotation: Rotation, distance: int)
    ensures RotationAfter(rotation, 4 * distance) == rotation
  {
    assert rotation + 4 * distance == rotation + distance * 4;
  }

  /** The kick of column `col` for a rotation from `from` to `to`: the
      reference point of the current state minus that of the new state.
      The x part is added to the column, the y part subtracted from the row
      (the tables count y upward, the matrix counts rows downward). */
  function KickOffset(t: OffsetTable, from: Rotation, to: Rotation, col: int): (k: (int, int))
    requires WellFormedOffsetTable(t) && 0 <= col < |t[0]|
    ensures from == to ==> k == (0, 0)
  {
    (t[from][col].0 - t[to][col].0, t[from][col].1 - t[to][col].1)
  }

  /** The placement tried for column `col` collides. */
  ghost predicate KickBlocked<C>(m: seq<seq<C>>, empty: C, f: Figure, dim: int, t: OffsetTable,
                                 from: Rotation, to: Rotation, x: int, y: int, col: int)
    requires WellShaped(m) && WellFormedOffsetTable(t) && 0 <= col < |t[0]|
  {
    Collides(m, empty, f, dim, x + KickOffset(t, from, to, col).0, y - KickOffset(t, from, to, col).1)
  }

  /** The first column at or after `col` whose kick does not collide, if
      any: the columns are tried in order and the search stops at the first
      success. */
  ghost function FirstFreeKick<C>(m: seq<seq<C>>, empty: C, f: Figure, dim: int, t: OffsetTable,
                                  from: Rotation, to: Rotation, x: int, y: int, col: nat): (r: Option<nat>)
    requires WellShaped(m) && WellFormedOffsetTable(t) && col <= |t[0]|
    decreases |t[0]| - col
    ensures r.Some? ==> col <= r.value < |t[0]| && !KickBlocked(m, empty, f, dim, t, from, to, x, y, r.value)
    ensures r.Some? ==> forall c :: col <= c < r.value ==> KickBlocked(m, empty, f, dim, t, from, to, x, y, c)
    ensures r.None? ==> forall c :: col <= c < |t[0]| ==> KickBlocked(m, empty, f, dim, t, from, to, x, y, c)
  {
    if col == |t[0]| then None
    else if !KickBlocked(m, empty, f, dim, t, from, to, x, y, col) then Some(col)
    else FirstFreeKick(m, empty, f, dim, t, from, to, x, y, col + 1)
  }

  /** Blocked columns are passed over: a search started at `col` answers
      what a search started at `k` answers when every column from `col` up
      to `k` is blocked. */
  lemma {:induction false} FirstFreeKickSkipsBlocked<C>(m: seq<seq<C>>, empty: C, f: Figure, dim: int, t: OffsetTable,
                                                        from: Rotation, to: Rotation, x: int, y: int, col: nat, k: nat)
    requires WellShaped(m) && WellFormedOffsetTable(t) && col <= k <= |t[0]|
    requires forall c :: col <= c < k ==> KickBlocked(m, empty, f, dim, t, from, to, x, y, c)
    ensures FirstFreeKick(m, empty, f, dim, t, from, to, x, y, col) == FirstFreeKick(m, empty, f, dim, t, from, to, x, y, k)
    decreases k - col
  {
    if col < k {
      FirstFreeKickSkipsBlocked(m, empty, f, dim, t, from, to, x, y, col + 1, k);
    }
  }

  /** A one-column table (the O piece's in the Python engine) as a table of
      the general shape. */
  function SingleColumn(points: seq<(int, int)>): (t: OffsetTable)
    requires |points| == 4
    ensures WellFormedOffsetTable(t) && |t[0]| == 1
    ensures forall r :: 0 <= r < 4 ==> t[r][0] == points[r]
  {
    [[points[0]], [points[1]], [points[2]], [points[3]]]
  }
}
