/** Piece identities, piece instances and the static geometry tables
    (occupancy figures and rotation offset tables). */
module Geometry {

  const MATRIX_WIDTH: int := 10
  const MATRIX_HEIGHT: int := 20

  /** Side of the occupancy frame every figure of the browser engine lives in. */
  const FRAME: int := 5

  /** The seven piece types, in the order I, J, L, O, S, T, Z. */
  type PieceKind = k: int | 0 <= k < 7

  type Rotation = r: int | 0 <= r < 4

  const I_PIECE: PieceKind := 0
  const O_PIECE: PieceKind := 3

  /** One piece instance: its type, rotation state and the top-left corner
      of its occupancy frame in matrix coordinates (x = column, y = row). */
  datatype Piece = Piece(kind: PieceKind, rotation: Rotation, x: int, y: int)

  /** Spawn position: every piece starts unrotated; the I piece starts one
      column further left and one row higher so that all pieces appear
      centred alike. */
  function Spawn(kind: PieceKind): (p: Piece)
    ensures p.kind == kind && p.rotation == 0
    ensures 0 <= p.x && p.x + FRAME <= MATRIX_WIDTH && 0 <= p.y && p.y + FRAME <= MATRIX_HEIGHT
    ensures kind != I_PIECE ==> p.x == 3 && p.y == 1
    ensures kind == I_PIECE ==> p.x == 2 && p.y == 0
  {
    if kind != I_PIECE then Piece(kind, 0, (MATRIX_WIDTH - 4) / 2, 1)
    else Piece(kind, 0, (MATRIX_WIDTH - 4) / 2 - 1, 0)
  }

  /** A figure is the list of occupied linear indices of a `dim` x `dim`
      frame, row-major. */
  type Figure = seq<int>

  predicate ValidFigure(f: Figure, dim: int) {
    |f| > 0 && forall n :: n in f ==> 0 <= n < dim * dim
  }

  /** Figure table: type x rotation -> figure in the 5 x 5 frame. */
  predicate WellFormedFigures(figures: seq<seq<Figure>>) {
    |figures| == 7 &&
    forall k :: 0 <= k < 7 ==>
      |figures[k]| == 4 && forall r :: 0 <= r < 4 ==> ValidFigure(figures[k][r], FRAME)
  }

  /** The figure of type `kind` in rotation `rotation`. A lookup outside the
      table yields a figure with no cells, as the source's fallback value
      does. */
  function Image(figures: seq<seq<Figure>>, kind: int, rotation: int): (f: Figure)
    ensures WellFormedFigures(figures) && 0 <= kind < 7 && 0 <= rotation < 4 ==> ValidFigure(f, FRAME)
    ensures !(0 <= kind < |figures| && 0 <= rotation < |figures[kind]|) ==> f == []
  {
    if 0 <= kind < |figures| && 0 <= rotation < |figures[kind]| then figures[kind][rotation] else []
  }

  /** An offset table: rotation state -> ordered reference points (x, y). */
  type OffsetTable = seq<seq<(int, int)>>

  predicate WellFormedOffsetTable(t: OffsetTable) {
    |t| == 4 && forall r :: 0 <= r < 4 ==> |t[r]| == |t[0]|
  }

  /** The three offset tables: index 0 for J, L, S, T and Z, index 1 for I,
      index 2 for O. */
  predicate WellFormedOffsetData(data: seq<OffsetTable>) {
    |data| == 3 && forall n :: 0 <= n < 3 ==> WellFormedOffsetTable(data[n])
  }

  function OffsetTableIndex(kind: PieceKind): (n: int)
    ensures 0 <= n < 3
    ensures n == 1 <==> kind == I_PIECE
    ensures n == 2 <==> kind == O_PIECE
  {
    if kind == I_PIECE then 1 else if kind == O_PIECE then 2 else 0
  }
}
