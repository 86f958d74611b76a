/** The counting facts of the board: every unit lists nine cells and every
    cell has twenty peers, each listed once. The proof compares the
    row-major lists the solver walks with lists built directly from a cell's
    row, column and box. */
module TopologyCounts {
  import opened Topology

  predicate NoDuplicates(s: seq<Cell>) {
    forall i, j :: 0 <= i < j < |s| ==> s[i] != s[j]
  }

  function Elements(s: seq<Cell>): set<Cell> {
    set x: Cell | x in s
  }

  lemma {:induction false} DistinctCard(s: seq<Cell>)
    requires NoDuplicates(s)
    ensures |Elements(s)| == |s|
  {
    if s != [] {
      var t := s[..|s| - 1];
      assert Elements(s) == Elements(t) + {s[|s| - 1]};
      assert s[|s| - 1] !in Elements(t);
      DistinctCard(t);
    }
  }

  /** Two duplicate-free lists with the same elements have the same length. */
  lemma SameElementsSameLength(a: seq<Cell>, b: seq<Cell>)
    requires NoDuplicates(a) && NoDuplicates(b)
    requires forall x :: x in a <==> x in b
    ensures |a| == |b|
  {
    assert Elements(a) == Elements(b);
    DistinctCard(a);
    DistinctCard(b);
  }

  lemma {:induction false} PeerCellsFromNoDuplicates(c: Cell, i: nat)
    requires i <= 81
    decreases 81 - i
    ensures NoDuplicates(PeerCellsFrom(c, i))
  {
    if i < 81 {
      PeerCellsFromNoDuplicates(c, i + 1);
    }
  }

  lemma {:induction false} UnitCellsFromNoDuplicates(u: UnitId, i: nat)
    requires i <= 81
    decreases 81 - i
    ensures NoDuplicates(UnitCellsFrom(u, i))
  {
    if i < 81 {
      UnitCellsFromNoDuplicates(u, i + 1);
    }
  }

  /** The `j`-th of the numbers `0, 1, ...` with `x` left out. */
  function Skip(x: int, j: int): int {
    if j < x then j else j + 1
  }

  /** The cell at row `r`, column `k`. */
  function At(r: int, k: int): (c: Cell)
    requires 0 <= r < 9 && 0 <= k < 9
    ensures Row(c) == r && Col(c) == k
  {
    9 * r + k
  }

  lemma CellAt(c: Cell)
    ensures c == At(Row(c), Col(c))
  {
  }

  lemma BoxOf(c: Cell)
    ensures Box(c) == 3 * (Row(c) / 3) + Col(c) / 3
  {
  }

  /** The other cells of a cell's row. */
  function RowPeers(c: Cell): (ps: seq<Cell>)
    ensures |ps| == 8
  {
    seq(8, j requires 0 <= j < 8 => At(Row(c), Skip(Col(c), j)))
  }

  /** The other cells of a cell's column. */
  function ColPeers(c: Cell): (ps: seq<Cell>)
    ensures |ps| == 8
  {
    seq(8, j requires 0 <= j < 8 => At(Skip(Row(c), j), Col(c)))
  }

  /** The cells of a cell's box in neither its row nor its column. */
  function BoxPeers(c: Cell): (ps: seq<Cell>)
    ensures |ps| == 4
  {
    seq(4, j requires 0 <= j < 4 =>
      At(3 * (Row(c) / 3) + Skip(Row(c) % 3, j / 2), 3 * (Col(c) / 3) + Skip(Col(c) % 3, j % 2)))
  }

  lemma RowPeersAre(c: Cell, p: Cell)
    ensures p in RowPeers(c) <==> Row(p) == Row(c) && p != c
  {
    if Row(p) == Row(c) && p != c {
      var j := if Col(p) < Col(c) then Col(p) else Col(p) - 1;
      CellAt(p);
      assert RowPeers(c)[j] == p;
    }
  }

  lemma ColPeersAre(c: Cell, p: Cell)
    ensures p in ColPeers(c) <==> Col(p) == Col(c) && p != c
  {
    if Col(p) == Col(c) && p != c {
      var j := if Row(p) < Row(c) then Row(p) else Row(p) - 1;
      CellAt(p);
      assert ColPeers(c)[j] == p;
    }
  }

  /** Same box means same band of rows and same stack of columns. */
  lemma SameBox(c: Cell, p: Cell)
    ensures Box(p) == Box(c) <==> Row(p) / 3 == Row(c) / 3 && Col(p) / 3 == Col(c) / 3
  {
    BoxOf(c);
    BoxOf(p);
  }

  /** Where inside its band of three a row (or column) number lies. */
  lemma InBand(x: int, y: int)
    requires 0 <= x < 9 && 0 <= y < 9 && x / 3 == y / 3 && x != y
    ensures x % 3 != y % 3
    ensures 3 * (y / 3) + x % 3 == x
    ensures Skip(y % 3, if x % 3 < y % 3 then x % 3 else x % 3 - 1) == x % 3
  {
  }

  lemma BoxPeerAt(c: Cell, j: int)
    requires 0 <= j < 4
    ensures Row(BoxPeers(c)[j]) == 3 * (Row(c) / 3) + Skip(Row(c) % 3, j / 2)
    ensures Col(BoxPeers(c)[j]) == 3 * (Col(c) / 3) + Skip(Col(c) % 3, j % 2)
  {
  }

  /** Moving to another position inside the same band of three. */
  lemma OtherInBand(y: int, k: int)
    requires 0 <= y < 9 && 0 <= k < 3 && k != y % 3
    ensures (3 * (y / 3) + k) / 3 == y / 3 && 3 * (y / 3) + k != y
  {
  }

  lemma BoxPeerIndex(a: int, b: int)
    requires 0 <= a < 2 && 0 <= b < 2
    ensures (2 * a + b) / 2 == a && (2 * a + b) % 2 == b
  {
  }

  /** Every listed box peer shares the box but neither the row nor the column. */
  lemma BoxPeerBelongs(c: Cell, j: int)
    requires 0 <= j < 4
    ensures Box(BoxPeers(c)[j]) == Box(c)
    ensures Row(BoxPeers(c)[j]) != Row(c) && Col(BoxPeers(c)[j]) != Col(c)
  {
    var p := BoxPeers(c)[j];
    BoxPeerAt(c, j);
    OtherInBand(Row(c), Skip(Row(c) % 3, j / 2));
    OtherInBand(Col(c), Skip(Col(c) % 3, j % 2));
    SameBox(c, p);
  }

  /** Every cell of the box outside the row and column is listed. */
  lemma BoxPeerListed(c: Cell, p: Cell)
    requires Box(p) == Box(c) && Row(p) != Row(c) && Col(p) != Col(c)
    ensures p in BoxPeers(c)
  {
    SameBox(c, p);
    InBand(Row(p), Row(c));
    InBand(Col(p), Col(c));
    var a := if Row(p) % 3 < Row(c) % 3 then Row(p) % 3 else Row(p) % 3 - 1;
    var b := if Col(p) % 3 < Col(c) % 3 then Col(p) % 3 else Col(p) % 3 - 1;
    BoxPeerIndex(a, b);
    BoxPeerAt(c, 2 * a + b);
    CellAt(p);
    CellAt(BoxPeers(c)[2 * a + b]);
    assert BoxPeers(c)[2 * a + b] == p;
  }

  lemma BoxPeersAre(c: Cell, p: Cell)
    ensures p in BoxPeers(c) <==> Box(p) == Box(c) && Row(p) != Row(c) && Col(p) != Col(c)
  {
    if Box(p) == Box(c) && Row(p) != Row(c) && Col(p) != Col(c) {
      BoxPeerListed(c, p);
    }
    if p in BoxPeers(c) {
      var j :| 0 <= j < 4 && BoxPeers(c)[j] == p;
      BoxPeerBelongs(c, j);
    }
  }

  /** The peers of a cell: its row, then its column, then the rest of its box. */
  function PeerList(c: Cell): (ps: seq<Cell>)
    ensures |ps| == 20
  {
    RowPeers(c) + ColPeers(c) + BoxPeers(c)
  }

  lemma PeerListAre(c: Cell, p: Cell)
    ensures p in PeerList(c) <==> IsPeer(c, p)
  {
    RowPeersAre(c, p);
    ColPeersAre(c, p);
    BoxPeersAre(c, p);
    BoxOf(c);
    BoxOf(p);
  }

  lemma NoDuplicatesConcat(a: seq<Cell>, b: seq<Cell>)
    requires NoDuplicates(a) && NoDuplicates(b)
    requires forall x :: x in a ==> x !in b
    ensures NoDuplicates(a + b)
  {
    forall i, j | 0 <= i < j < |a + b|
      ensures (a + b)[i] != (a + b)[j]
    {
      if j < |a| {
        assert (a + b)[i] == a[i] && (a + b)[j] == a[j];
      } else if i >= |a| {
        assert (a + b)[i] == b[i - |a|] && (a + b)[j] == b[j - |a|];
      } else {
        assert (a + b)[i] in a && (a + b)[j] in b;
      }
    }
  }

  lemma RowPeersDistinct(c: Cell)
    ensures NoDuplicates(RowPeers(c))
  {
    forall i, j | 0 <= i < j < 8
      ensures RowPeers(c)[i] != RowPeers(c)[j]
    {
      assert Col(RowPeers(c)[i]) != Col(RowPeers(c)[j]);
    }
  }

  lemma ColPeersDistinct(c: Cell)
    ensures NoDuplicates(ColPeers(c))
  {
    forall i, j | 0 <= i < j < 8
      ensures ColPeers(c)[i] != ColPeers(c)[j]
    {
      assert Row(ColPeers(c)[i]) != Row(ColPeers(c)[j]);
    }
  }

  lemma BoxPeersDistinct(c: Cell)
    ensures NoDuplicates(BoxPeers(c))
  {
    forall i, j | 0 <= i < j < 4
      ensures BoxPeers(c)[i] != BoxPeers(c)[j]
    {
      BoxPeerAt(c, i);
      BoxPeerAt(c, j);
      assert Row(BoxPeers(c)[i]) != Row(BoxPeers(c)[j]) || Col(BoxPeers(c)[i]) != Col(BoxPeers(c)[j]);
    }
  }

  lemma PeerListNoDuplicates(c: Cell)
    ensures NoDuplicates(PeerList(c))
  {
    RowPeersDistinct(c);
    ColPeersDistinct(c);
    BoxPeersDistinct(c);
    forall x | x in RowPeers(c)
      ensures x !in ColPeers(c)
    {
      RowPeersAre(c, x);
      ColPeersAre(c, x);
      CellAt(x);
      CellAt(c);
    }
    NoDuplicatesConcat(RowPeers(c), ColPeers(c));
    forall x | x in RowPeers(c) + ColPeers(c)
      ensures x !in BoxPeers(c)
    {
      RowPeersAre(c, x);
      ColPeersAre(c, x);
      BoxPeersAre(c, x);
    }
    NoDuplicatesConcat(RowPeers(c) + ColPeers(c), BoxPeers(c));
  }

  /** Every cell has exactly twenty peers, and the solver lists each once. */
  lemma PeerCount(c: Cell)
    ensures |PeerCells(c)| == 20 && NoDuplicates(PeerCells(c))
  {
    PeerCellsFromNoDuplicates(c, 0);
    PeerListNoDuplicates(c);
    forall p
      ensures p in PeerCells(c) <==> p in PeerList(c)
    {
      if p is Cell {
        PeerListAre(c, p);
      }
    }
    SameElementsSameLength(PeerCells(c), PeerList(c));
  }

  /** The cells of a unit, built from its column, row or box number. */
  function UnitList(u: UnitId): (cs: seq<Cell>)
    ensures |cs| == 9
  {
    if u < 9 then seq(9, k requires 0 <= k < 9 => At(k, u))
    else if u < 18 then seq(9, k requires 0 <= k < 9 => At(u - 9, k))
    else seq(9, k requires 0 <= k < 9 => At(3 * ((u - 18) / 3) + k / 3, 3 * ((u - 18) % 3) + k % 3))
  }

  lemma UnitListAt(u: UnitId, k: int)
    requires 18 <= u && 0 <= k < 9
    ensures Row(UnitList(u)[k]) == 3 * ((u - 18) / 3) + k / 3
    ensures Col(UnitList(u)[k]) == 3 * ((u - 18) % 3) + k % 3
  {
  }

  lemma BoxNumber(p: Cell, b: int)
    requires 0 <= b < 9
    ensures Box(p) == b <==> Row(p) / 3 == b / 3 && Col(p) / 3 == b % 3
  {
    BoxOf(p);
  }

  lemma BoxListAre(u: UnitId, p: Cell)
    requires 18 <= u
    ensures p in UnitList(u) <==> InUnit(p, u)
  {
    BoxNumber(p, u - 18);
    if InUnit(p, u) {
      var k := 3 * (Row(p) % 3) + Col(p) % 3;
      assert k / 3 == Row(p) % 3 && k % 3 == Col(p) % 3;
      UnitListAt(u, k);
      CellAt(p);
      CellAt(UnitList(u)[k]);
      assert UnitList(u)[k] == p;
    }
    if p in UnitList(u) {
      var k :| 0 <= k < 9 && UnitList(u)[k] == p;
      UnitListAt(u, k);
    }
  }

  lemma UnitListAre(u: UnitId, p: Cell)
    ensures p in UnitList(u) <==> InUnit(p, u)
  {
    if u < 9 {
      if InUnit(p, u) {
        CellAt(p);
        assert UnitList(u)[Row(p)] == p;
      }
    } else if u < 18 {
      if InUnit(p, u) {
        CellAt(p);
        assert UnitList(u)[Col(p)] == p;
      }
    } else {
      BoxListAre(u, p);
    }
  }

  lemma UnitListNoDuplicates(u: UnitId)
    ensures NoDuplicates(UnitList(u))
  {
    forall i, j | 0 <= i < j < 9
      ensures UnitList(u)[i] != UnitList(u)[j]
    {
      if 18 <= u {
        UnitListAt(u, i);
        UnitListAt(u, j);
      }
    }
  }

  /** Every unit has exactly nine cells, and the solver lists each once. */
  lemma UnitCount(u: UnitId)
    ensures |UnitCells(u)| == 9 && NoDuplicates(UnitCells(u))
  {
    UnitCellsFromNoDuplicates(u, 0);
    UnitListNoDuplicates(u);
    forall p
      ensures p in UnitCells(u) <==> p in UnitList(u)
    {
      if p is Cell {
        UnitListAre(u, p);
      }
    }
    SameElementsSameLength(UnitCells(u), UnitList(u));
  }
}
