/** Propagation never loses a solution: when a valid Sudoku solution `b` is
    allowed by the state and does not use the digit being removed, the call
    succeeds and the result still allows `b`. So every dead end the solver
    reports is a genuine one. */
module PropagationAllows {
  import opened Outcomes
  import opened Topology
  import opened Candidates
  import opened Propagation

  lemma {:induction false} EliminateAllows(v: Values, s: Cell, d: Digit, b: Board)
    requires ValidBoard(b) && Allows(v, b) && b[s] != d
    decreases Size(v), 0, 0
    ensures Eliminate(v, s, d).Ok? && Allows(Eliminate(v, s, d).value, b)
  {
    if d in v[s] {
      var v1 := Remove(v, s, d);
      assert b[s] in v1[s];
      PropagateAllows(v1, s, d, b);
    }
  }

  lemma {:induction false} PropagateAllows(v1: Values, s: Cell, d: Digit, b: Board)
    requires ValidBoard(b) && Allows(v1, b) && v1[s] != {}
    decreases Size(v1), 2, 0
    ensures Propagate(v1, s, d).Ok? && Allows(Propagate(v1, s, d).value, b)
  {
    var r1 := if |v1[s]| == 1 then EliminateFromPeers(v1, PeerCells(s), Members(v1[s])[0]) else Ok(v1);
    if |v1[s]| == 1 {
      var d2 := Members(v1[s])[0];
      SingletonIsFirstMember(v1[s]);
      assert b[s] == d2;
      EliminateFromPeersAllows(v1, PeerCells(s), d2, b);
    }
    CheckUnitsAllows(r1.value, UnitsOf(s), d, b);
  }

  lemma {:induction false} EliminateFromPeersAllows(v: Values, ps: seq<Cell>, d: Digit, b: Board)
    requires ValidBoard(b) && Allows(v, b)
    requires forall p :: p in ps ==> b[p] != d
    decreases Size(v), 0, |ps|
    ensures EliminateFromPeers(v, ps, d).Ok? && Allows(EliminateFromPeers(v, ps, d).value, b)
  {
    if ps != [] {
      EliminateAllows(v, ps[0], d, b);
      EliminateFromPeersAllows(Eliminate(v, ps[0], d).value, ps[1..], d, b);
    }
  }

  lemma {:induction false} CheckUnitsAllows(v: Values, us: seq<UnitId>, d: Digit, b: Board)
    requires ValidBoard(b) && Allows(v, b)
    decreases Size(v), 1, |us| + 1
    ensures CheckUnits(v, us, d).Ok? && Allows(CheckUnits(v, us, d).value, b)
  {
    if us != [] {
      var places := Places(v, UnitCells(us[0]), d);
      var c := PlaceOfSolution(v, us[0], d, b);
      var r1 := if |places| == 1 then Assign(v, places[0], d) else Ok(v);
      if |places| == 1 {
        AssignAllows(v, c, d, b);
      }
      CheckUnitsAllows(r1.value, us[1..], d, b);
    }
  }

  /** The cell where the solution puts `d` in unit `u` is a place for `d`,
      and the only one when there is only one. */
  lemma PlaceOfSolution(v: Values, u: UnitId, d: Digit, b: Board) returns (c: Cell)
    requires ValidBoard(b) && Allows(v, b)
    ensures b[c] == d && c in Places(v, UnitCells(u), d)
    ensures |Places(v, UnitCells(u), d)| == 1 ==> Places(v, UnitCells(u), d)[0] == c
  {
    c := CellHolding(b, u, d);
    PlaceOfAllowed(v, u, d, b, c);
    OnlyElement(Places(v, UnitCells(u), d), c);
  }

  lemma CellHolding(b: Board, u: UnitId, d: Digit) returns (c: Cell)
    requires ValidBoard(b)
    ensures b[c] == d && InUnit(c, u)
  {
    assert UnitHolds(b, u, d);
    c :| InUnit(c, u) && b[c] == d;
  }

  lemma PlaceOfAllowed(v: Values, u: UnitId, d: Digit, b: Board, c: Cell)
    requires Allows(v, b) && b[c] == d && InUnit(c, u)
    ensures c in Places(v, UnitCells(u), d)
  {
  }

  lemma OnlyElement(ps: seq<Cell>, c: Cell)
    requires c in ps
    ensures |ps| == 1 ==> ps[0] == c
  {
  }

  /** Fixing a cell to the digit a valid allowed solution has there succeeds,
      and the solution stays allowed. */
  lemma {:induction false} AssignAllows(v: Values, s: Cell, d: Digit, b: Board)
    requires ValidBoard(b) && Allows(v, b) && b[s] == d
    decreases Size(v), 1, 0
    ensures Assign(v, s, d).Ok? && Allows(Assign(v, s, d).value, b)
  {
    EliminateDigitsAllows(v, s, Members(v[s] - {d}), b);
  }

  lemma {:induction false} EliminateDigitsAllows(v: Values, s: Cell, ds: seq<Digit>, b: Board)
    requires ValidBoard(b) && Allows(v, b) && b[s] !in ds
    decreases Size(v), 0, |ds|
    ensures EliminateDigits(v, s, ds).Ok? && Allows(EliminateDigits(v, s, ds).value, b)
  {
    if ds != [] {
      EliminateAllows(v, s, ds[0], b);
      EliminateDigitsAllows(Eliminate(v, s, ds[0]).value, s, ds[1..], b);
    }
  }
}
