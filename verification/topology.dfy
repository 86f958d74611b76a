/** The fixed structure of the 9x9 board: 81 cells, 27 units, 20 peers per cell.

    Cells are numbered row-major (row 0 columns 0..8, then row 1, ...), the order
    in which the solver enumerates its squares and in which grid strings are
    written. Units follow Norvig's unit list: the 9 columns, then the 9 rows,
    then the 9 boxes. */
module Topology {

  /** A square of the board, as its row-major index. */
  type Cell = c: int | 0 <= c < 81

  /** A candidate value. */
  type Digit = d: int | 1 <= d <= 9 witness 1

  /** One of the 27 units: 0..8 columns, 9..17 rows, 18..26 boxes. */
  type UnitId = u: int | 0 <= u < 27

  function Row(c: Cell): (r: int)
    ensures 0 <= r < 9
  {
    c / 9
  }

  function Col(c: Cell): (k: int)
    ensures 0 <= k < 9
  {
    c % 9
  }

  /** The 3x3 box, numbered row-major over the boxes. */
  function Box(c: Cell): (b: int)
    ensures 0 <= b < 9
  {
    3 * (c / 27) + (c % 9) / 3
  }

  /** True iff cell `c` is one of the nine cells of unit `u`. */
  predicate InUnit(c: Cell, u: UnitId) {
    if u < 9 then Col(c) == u
    else if u < 18 then Row(c) == u - 9
    else Box(c) == u - 18
  }

  /** The three units of a cell: its column, its row and its box. */
  function UnitsOf(c: Cell): (us: seq<UnitId>)
    ensures |us| == 3
    ensures forall u :: u in us <==> InUnit(c, u)
  {
    [Col(c), 9 + Row(c), 18 + Box(c)]
  }

  /** True iff `p` is a peer of `c`: a different cell sharing a unit with it. */
  predicate IsPeer(c: Cell, p: Cell) {
    c != p && (Row(c) == Row(p) || Col(c) == Col(p) || Box(c) == Box(p))
  }

  lemma PeerSymmetric(c: Cell, p: Cell)
    ensures IsPeer(c, p) <==> IsPeer(p, c)
  {
  }

  /** Two different cells of one unit are peers. */
  lemma SameUnitPeers(c: Cell, p: Cell, u: UnitId)
    requires InUnit(c, u) && InUnit(p, u) && c != p
    ensures IsPeer(c, p)
  {
  }

  /** The cells of unit `u`, in row-major order. */
  function UnitCells(u: UnitId): (cs: seq<Cell>)
    ensures forall c :: c in cs <==> InUnit(c, u)
  {
    UnitCellsFrom(u, 0)
  }

  function UnitCellsFrom(u: UnitId, i: nat): (cs: seq<Cell>)
    requires i <= 81
    decreases 81 - i
    ensures forall c :: c in cs <==> i <= c && InUnit(c, u)
  {
    if i == 81 then []
    else (if InUnit(i, u) then [i] else []) + UnitCellsFrom(u, i + 1)
  }

  /** The peers of cell `c`, in row-major order. */
  function PeerCells(c: Cell): (ps: seq<Cell>)
    ensures forall p :: p in ps <==> IsPeer(c, p)
  {
    PeerCellsFrom(c, 0)
  }

  function PeerCellsFrom(c: Cell, i: nat): (ps: seq<Cell>)
    requires i <= 81
    decreases 81 - i
    ensures forall p :: p in ps <==> i <= p && IsPeer(c, p)
  {
    if i == 81 then []
    else (if IsPeer(c, i) then [i] else []) + PeerCellsFrom(c, i + 1)
  }

  /** A cell of unit `u`: the top-left cell of the column, row or box. */
  function FirstCell(u: UnitId): (c: Cell)
    ensures InUnit(c, u)
  {
    if u < 9 then u
    else if u < 18 then 9 * (u - 9)
    else 27 * ((u - 18) / 3) + 3 * ((u - 18) % 3)
  }
}
