/** Constraint propagation: `assign` and `eliminate` of the Norvig solver.

    `Eliminate` removes one digit from one cell and propagates: a cell reduced
    to one digit removes that digit from its peers (naked single), and a unit
    left with one place for the removed digit puts it there (hidden single).
    An emptied domain, or a unit with no place left for the digit, is a dead
    end. The five functions are mutually recursive; they terminate because
    every nested call starts from a state with fewer candidates, or from the
    same state with less of its own list left to process. */
module Propagation {
  import opened Outcomes
  import opened Topology
  import opened Candidates

  /** Remove digit `d` from cell `s` and propagate. */
  function Eliminate(v: Values, s: Cell, d: Digit): (r: Result<Values>)
    decreases Size(v), 0, 0
    ensures d !in v[s] ==> r == Ok(v)
    ensures v[s] == {d} ==> r.Backtrack?
    ensures r.Ok? ==> Shrinks(v, r.value) && Size(r.value) <= Size(v)
    ensures r.Ok? ==> KeepsNonEmpty(v, r.value) && d !in r.value[s]
  {
    if d !in v[s] then Ok(v)
    else
      var v1 := Remove(v, s, d);
      if v1[s] == {} then Backtrack
      else
        var r := Propagate(v1, s, d);
        assert r.Ok? ==> Shrinks(v, r.value) && KeepsNonEmpty(v, r.value);
        r
  }

  /** The state with `d` taken out of the domain of `s`, and nothing else changed. */
  function Remove(v: Values, s: Cell, d: Digit): (v1: Values)
    requires d in v[s]
    ensures v1[s] == v[s] - {d}
    ensures forall c: Cell :: c != s ==> v1[c] == v[c]
    ensures Shrinks(v, v1) && Size(v1) == Size(v) - 1
  {
    SizeRemove(v, s, d);
    v[s := v[s] - {d}]
  }

  /** What `eliminate` does once `d` is gone from the nonempty domain of `s`:
      the naked-single step, then the hidden-single check of the units of `s`. */
  function Propagate(v1: Values, s: Cell, d: Digit): (r: Result<Values>)
    requires v1[s] != {}
    decreases Size(v1), 2, 0
    ensures r.Ok? ==> Shrinks(v1, r.value) && Size(r.value) <= Size(v1)
    ensures r.Ok? ==> KeepsNonEmpty(v1, r.value) && r.value[s] <= v1[s]
  {
    var r1 := if |v1[s]| == 1 then EliminateFromPeers(v1, PeerCells(s), Members(v1[s])[0]) else Ok(v1);
    if r1.Backtrack? then Backtrack
    else CheckUnits(r1.value, UnitsOf(s), d)
  }

  /** Remove digit `d` from every cell of `ps` in turn: the naked-single step. */
  function EliminateFromPeers(v: Values, ps: seq<Cell>, d: Digit): (r: Result<Values>)
    decreases Size(v), 0, |ps|
    ensures r.Ok? ==> Shrinks(v, r.value) && Size(r.value) <= Size(v)
    ensures r.Ok? ==> KeepsNonEmpty(v, r.value)
    ensures r.Ok? ==> forall p :: p in ps ==> d !in r.value[p]
  {
    if ps == [] then Ok(v)
    else
      var r1 := Eliminate(v, ps[0], d);
      if r1.Backtrack? then Backtrack
      else EliminateFromPeers(r1.value, ps[1..], d)
  }

  /** The cells of `cs` where digit `d` is still a candidate. */
  function Places(v: Values, cs: seq<Cell>, d: Digit): (ps: seq<Cell>)
    ensures forall c :: c in ps <==> c in cs && d in v[c]
  {
    if cs == [] then []
    else (if d in v[cs[0]] then [cs[0]] else []) + Places(v, cs[1..], d)
  }

  /** After `d` was removed somewhere in units `us`: fail if one of them has no
      place left for `d`, and assign `d` where a unit has exactly one place
      (the hidden-single step). */
  function CheckUnits(v: Values, us: seq<UnitId>, d: Digit): (r: Result<Values>)
    decreases Size(v), 1, |us| + 1
    ensures r.Ok? ==> Shrinks(v, r.value) && Size(r.value) <= Size(v)
    ensures r.Ok? ==> KeepsNonEmpty(v, r.value)
  {
    if us == [] then Ok(v)
    else
      var places := Places(v, UnitCells(us[0]), d);
      if |places| == 0 then Backtrack
      else
        var r1 := if |places| == 1 then Assign(v, places[0], d) else Ok(v);
        if r1.Backtrack? then Backtrack
        else CheckUnits(r1.value, us[1..], d)
  }

  /** Fix cell `s` to digit `d` by eliminating every other candidate of `s`. */
  function Assign(v: Values, s: Cell, d: Digit): (r: Result<Values>)
    decreases Size(v), 1, 0
    ensures r.Ok? ==> Shrinks(v, r.value) && Size(r.value) <= Size(v)
    ensures r.Ok? ==> KeepsNonEmpty(v, r.value)
    ensures r.Ok? ==> r.value[s] <= {d}
    ensures r.Ok? && v[s] != {} ==> r.value[s] == {d}
    ensures v[s] != {} && d !in v[s] ==> r.Backtrack?
  {
    EliminateDigits(v, s, Members(v[s] - {d}))
  }

  /** Remove the digits of `ds` from cell `s` in turn. */
  function EliminateDigits(v: Values, s: Cell, ds: seq<Digit>): (r: Result<Values>)
    decreases Size(v), 0, |ds|
    ensures r.Ok? ==> Shrinks(v, r.value) && Size(r.value) <= Size(v)
    ensures r.Ok? ==> KeepsNonEmpty(v, r.value)
    ensures r.Ok? ==> forall x :: x in ds ==> x !in r.value[s]
  {
    if ds == [] then Ok(v)
    else
      var r1 := Eliminate(v, s, ds[0]);
      if r1.Backtrack? then Backtrack
      else EliminateDigits(r1.value, s, ds[1..])
  }
}
