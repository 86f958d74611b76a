/** The candidate state: for every cell, the set of digits still possible there.

    The solver keeps a JavaScript Map from square name to a Set of digit
    characters and copies it shallowly before every branch; because a domain is
    always replaced and never changed in place, an immutable sequence of sets
    indexed by cell is the same state. */
module Candidates {
  import opened Topology

  type Domain = set<Digit>

  /** A candidate state: one domain per cell. */
  type Values = v: seq<Domain> | |v| == 81 witness seq(81, _ => {})

  /** A fully filled board: one digit per cell. */
  type Board = b: seq<Digit> | |b| == 81 witness seq(81, _ => 1)

  const AllDigits: Domain := {1, 2, 3, 4, 5, 6, 7, 8, 9}

  /** The state before any given is placed: every digit possible everywhere. */
  function Initial(): (v: Values)
    ensures forall c: Cell :: v[c] == AllDigits
  {
    seq(81, _ => AllDigits)
  }

  /** The members of a domain in ascending order, the iteration order of the
      solver's sets (they are built by filtering the digits '1'..'9'). */
  function Members(dom: Domain): (ms: seq<Digit>)
    ensures forall x :: x in ms <==> x in dom
    ensures Ascending(ms)
    ensures |ms| <= 9
    ensures dom != {} ==> |ms| > 0
  {
    var ms := MembersFrom(dom, 1);
    if dom != {} then
      var x :| x in dom;
      assert x in ms;
      ms
    else ms
  }

  function MembersFrom(dom: Domain, k: int): (ms: seq<Digit>)
    requires 1 <= k <= 10
    decreases 10 - k
    ensures forall x :: x in ms <==> x in dom && k <= x
    ensures forall i :: 0 <= i < |ms| ==> k <= ms[i]
    ensures Ascending(ms)
    ensures |ms| <= 10 - k
  {
    if k == 10 then []
    else (if k in dom then [k] else []) + MembersFrom(dom, k + 1)
  }

  predicate Ascending(ms: seq<Digit>) {
    forall i, j :: 0 <= i < j < |ms| ==> ms[i] < ms[j]
  }

  /** A one-digit domain is exactly the set of its first member. */
  lemma SingletonIsFirstMember(dom: Domain)
    requires |dom| == 1
    ensures dom == {Members(dom)[0]}
  {
    var m := Members(dom)[0];
    assert |dom - {m}| == 0;
  }

  /** The total number of candidates left on the board: the measure that every
      real elimination lowers by one. */
  function Size(v: Values): nat {
    SizeBelow(v, 81)
  }

  function SizeBelow(v: Values, n: nat): nat
    requires n <= 81
  {
    if n == 0 then 0 else SizeBelow(v, n - 1) + |v[n - 1]|
  }

  /** Every domain of `r` is contained in the domain of `v` at the same cell. */
  ghost predicate Shrinks(v: Values, r: Values) {
    forall c: Cell :: r[c] <= v[c]
  }

  /** A domain that was not empty has not become empty. */
  ghost predicate KeepsNonEmpty(v: Values, r: Values) {
    forall c: Cell :: v[c] != {} ==> r[c] != {}
  }

  lemma {:induction false} SizeBelowMonotone(v: Values, r: Values, n: nat)
    requires n <= 81 && Shrinks(v, r)
    ensures SizeBelow(r, n) <= SizeBelow(v, n)
  {
    if n > 0 {
      SizeBelowMonotone(v, r, n - 1);
      SubsetCard(r[n - 1], v[n - 1]);
    }
  }

  lemma {:induction false} SizeBelowStrict(v: Values, r: Values, s: Cell, n: nat)
    requires s < n <= 81 && Shrinks(v, r) && r[s] != v[s]
    ensures SizeBelow(r, n) < SizeBelow(v, n)
  {
    SubsetCard(r[n - 1], v[n - 1]);
    if s == n - 1 {
      SizeBelowMonotone(v, r, n - 1);
    } else {
      SizeBelowStrict(v, r, s, n - 1);
    }
  }

  lemma SubsetCard(a: Domain, b: Domain)
    requires a <= b
    ensures |a| <= |b|
    ensures a != b ==> |a| < |b|
  {
    assert b == a + (b - a);
    if a != b {
      var x :| x in b - a;
    }
  }

  /** Shrinking never grows the measure. */
  lemma SizeMonotone(v: Values, r: Values)
    requires Shrinks(v, r)
    ensures Size(r) <= Size(v)
  {
    SizeBelowMonotone(v, r, 81);
  }

  /** Shrinking a domain strictly lowers the measure strictly. */
  lemma SizeStrict(v: Values, r: Values, s: Cell)
    requires Shrinks(v, r) && r[s] != v[s]
    ensures Size(r) < Size(v)
  {
    SizeBelowStrict(v, r, s, 81);
  }

  /** Removing a present digit from one domain lowers the measure by one. */
  lemma {:induction false} SizeRemove(v: Values, s: Cell, d: Digit)
    requires d in v[s]
    ensures Size(v[s := v[s] - {d}]) == Size(v) - 1
  {
    SizeRemoveBelow(v, s, d, 81);
  }

  lemma {:induction false} SizeRemoveBelow(v: Values, s: Cell, d: Digit, n: nat)
    requires d in v[s] && n <= 81
    ensures SizeBelow(v[s := v[s] - {d}], n) == SizeBelow(v, n) - (if s < n then 1 else 0)
  {
    if n > 0 {
      SizeRemoveBelow(v, s, d, n - 1);
    }
  }

  /** Every cell is fixed to a single digit. */
  predicate Solved(v: Values) {
    forall c: Cell :: |v[c]| == 1
  }

  /** The board a solved state spells out. */
  function BoardOf(v: Values): (b: Board)
    requires Solved(v)
    ensures forall c: Cell :: v[c] == {b[c]}
  {
    var b := seq(81, i requires 0 <= i < 81 => Members(v[i])[0]);
    assert forall c: Cell :: v[c] == {b[c]} by {
      forall c: Cell
        ensures v[c] == {b[c]}
      {
        SingletonIsFirstMember(v[c]);
      }
    }
    b
  }

  /** The solved state whose only candidate at every cell is the board's digit. */
  function Embed(b: Board): (v: Values)
    ensures Solved(v)
    ensures forall c: Cell :: v[c] == {b[c]}
  {
    seq(81, i requires 0 <= i < 81 => {b[i]})
  }

  lemma EmbedInjective(b1: Board, b2: Board)
    requires Embed(b1) == Embed(b2)
    ensures b1 == b2
  {
    forall c: Cell
      ensures b1[c] == b2[c]
    {
      assert b1[c] in Embed(b2)[c];
    }
  }

  lemma EmbedBoardOf(v: Values)
    requires Solved(v)
    ensures Embed(BoardOf(v)) == v
  {
  }

  /** Every candidate state allows board `b`: its digit is a candidate at every cell. */
  ghost predicate Allows(v: Values, b: Board) {
    forall c: Cell :: b[c] in v[c]
  }

  /** A solved state allowing `b` is `b` itself. */
  lemma SolvedAllowsOnly(v: Values, b: Board)
    requires Solved(v) && Allows(v, b)
    ensures v == Embed(b)
  {
    forall c: Cell
      ensures v[c] == Embed(b)[c]
    {
      SingletonIsFirstMember(v[c]);
    }
  }

  /** Unit `u` still has a cell where digit `x` can go. */
  ghost predicate HasPlace(v: Values, u: UnitId, x: Digit) {
    exists c: Cell :: InUnit(c, u) && x in v[c]
  }

  /** A valid Sudoku solution: each unit holds every digit, and no two peers
      hold the same digit, so each unit holds each digit exactly once. */
  ghost predicate ValidBoard(b: Board) {
    && (forall u: UnitId, x: Digit :: UnitHolds(b, u, x))
    && (forall c: Cell, p: Cell :: IsPeer(c, p) ==> b[c] != b[p])
  }

  /** Some cell of unit `u` holds digit `x` on board `b`. */
  ghost predicate UnitHolds(b: Board, u: UnitId, x: Digit) {
    exists c: Cell :: InUnit(c, u) && b[c] == x
  }

  /** No domain is empty. */
  ghost predicate NoEmpty(v: Values) {
    forall c: Cell :: v[c] != {}
  }

  /** Every fixed cell's digit is gone from all its peers. */
  ghost predicate SinglesPropagated(v: Values) {
    forall c: Cell, p: Cell :: IsPeer(c, p) && |v[c]| == 1 ==> v[c] !! v[p]
  }

  /** Every unit has a place for every digit. */
  ghost predicate Covered(v: Values) {
    forall u: UnitId, x: Digit :: HasPlace(v, u, x)
  }

  /** The invariant of every state the solver keeps after propagation. */
  ghost predicate Consistent(v: Values) {
    NoEmpty(v) && SinglesPropagated(v) && Covered(v)
  }

  /** The state before any given is consistent. */
  lemma InitialConsistent()
    ensures Consistent(Initial())
  {
    var v := Initial();
    assert 1 in AllDigits && 2 in AllDigits;
    assert |AllDigits| == 9;
    forall u: UnitId, x: Digit
      ensures HasPlace(v, u, x)
    {
      assert InUnit(FirstCell(u), u) && x in v[FirstCell(u)];
    }
  }

  /** A solved consistent state spells out a valid Sudoku solution. */
  lemma {:induction false} SolvedConsistentIsValid(v: Values)
    requires Solved(v) && Consistent(v)
    ensures ValidBoard(BoardOf(v))
  {
    var b := BoardOf(v);
    forall u: UnitId, x: Digit
      ensures UnitHolds(b, u, x)
    {
      assert HasPlace(v, u, x);
      var c: Cell :| InUnit(c, u) && x in v[c];
      assert b[c] == x;
    }
    forall c: Cell, p: Cell | IsPeer(c, p)
      ensures b[c] != b[p]
    {
      assert v[c] !! v[p];
    }
  }
}
