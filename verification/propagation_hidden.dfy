/** Propagation fixes hidden singles: after `d` is removed from a cell, every
    unit of that cell left with a single place for `d` has `d` assigned there,
    and a unit whose hidden single was fixed keeps it fixed. */
module PropagationHidden {
  import opened Outcomes
  import opened Topology
  import opened TopologyCounts
  import opened Candidates
  import opened Propagation

  /** `c` is the only cell of unit `u` where `x` is still a candidate. */
  ghost predicate OnlyPlace(v: Values, u: UnitId, x: Digit, c: Cell) {
    InUnit(c, u) && x in v[c] && forall c': Cell :: InUnit(c', u) && x in v[c'] ==> c' == c
  }

  /** If unit `u` has one place left for `x`, then `x` is assigned there. */
  ghost predicate HiddenFixed(v: Values, u: UnitId, x: Digit) {
    forall c: Cell :: OnlyPlace(v, u, x, c) ==> v[c] == {x}
  }

  /** Every hidden single fixed in `v` is fixed in `r`. */
  ghost predicate KeepsHidden(v: Values, r: Values) {
    forall u: UnitId, x: Digit :: HiddenFixed(v, u, x) ==> HiddenFixed(r, u, x)
  }

  /** The places of a digit in a unit are listed once each. */
  lemma {:induction false} PlacesNoDuplicates(v: Values, cs: seq<Cell>, d: Digit)
    requires NoDuplicates(cs)
    ensures NoDuplicates(Places(v, cs, d))
  {
    if cs != [] {
      assert NoDuplicates(cs[1..]) by {
        forall i, j | 0 <= i < j < |cs| - 1
          ensures cs[1..][i] != cs[1..][j]
        {
          assert cs[1..][i] == cs[i + 1] && cs[1..][j] == cs[j + 1];
        }
      }
      PlacesNoDuplicates(v, cs[1..], d);
      forall x | x in cs[1..]
        ensures x != cs[0]
      {
        var k :| 0 <= k < |cs[1..]| && cs[1..][k] == x;
        assert cs[k + 1] == x;
      }
      NoDuplicatesConcat(if d in v[cs[0]] then [cs[0]] else [], Places(v, cs[1..], d));
    }
  }

  /** A single place in the list is the only place of the unit. */
  lemma OnePlaceIsOnly(v: Values, u: UnitId, d: Digit)
    requires |Places(v, UnitCells(u), d)| == 1
    ensures OnlyPlace(v, u, d, Places(v, UnitCells(u), d)[0])
  {
    var ps := Places(v, UnitCells(u), d);
    assert ps == [ps[0]];
    assert InUnit(ps[0], u) && d in v[ps[0]];
    forall c': Cell | InUnit(c', u) && d in v[c']
      ensures c' == ps[0]
    {
      assert c' in ps;
      InSingleton(ps, c');
    }
  }

  lemma InSingleton(ps: seq<Cell>, x: Cell)
    requires |ps| == 1 && x in ps
    ensures x == ps[0]
  {
  }

  /** A unit with two or more places has no hidden single to fix. */
  lemma ManyPlacesVacuous(v: Values, u: UnitId, d: Digit)
    requires |Places(v, UnitCells(u), d)| > 1
    ensures HiddenFixed(v, u, d)
  {
    var ps := Places(v, UnitCells(u), d);
    UnitCellsFromNoDuplicates(u, 0);
    PlacesNoDuplicates(v, UnitCells(u), d);
    assert ps[0] in ps && ps[1] in ps && ps[0] != ps[1];
  }

  /** Assigning `d` at the one place of a unit fixes the unit's hidden single. */
  lemma OnePlaceFixed(v: Values, m: Values, u: UnitId, d: Digit)
    requires |Places(v, UnitCells(u), d)| == 1
    requires Shrinks(v, m) && m[Places(v, UnitCells(u), d)[0]] == {d}
    ensures HiddenFixed(m, u, d)
  {
    var c := Places(v, UnitCells(u), d)[0];
    OnePlaceIsOnly(v, u, d);
    forall c': Cell | OnlyPlace(m, u, d, c')
      ensures m[c'] == {d}
    {
      assert d in v[c'];
    }
  }

  /** Taking `d` out of `s` keeps every fixed hidden single except those of `d`
      in the units of `s`, which the unit check deals with. */
  lemma RemoveKeepsHidden(v: Values, s: Cell, d: Digit)
    requires d in v[s]
    ensures forall u: UnitId, x: Digit :: HiddenFixed(v, u, x) && (x != d || !InUnit(s, u)) ==>
              HiddenFixed(Remove(v, s, d), u, x)
  {
    var v1 := Remove(v, s, d);
    forall u: UnitId, x: Digit | HiddenFixed(v, u, x) && (x != d || !InUnit(s, u))
      ensures HiddenFixed(v1, u, x)
    {
      forall c: Cell | OnlyPlace(v1, u, x, c)
        ensures v1[c] == {x}
      {
        forall c': Cell | InUnit(c', u) && x in v[c']
          ensures c' == c
        {
          assert x in v1[c'];
        }
        assert OnlyPlace(v, u, x, c);
      }
    }
  }

  lemma {:induction false} EliminateHidden(v: Values, s: Cell, d: Digit)
    decreases Size(v), 0, 0
    ensures Eliminate(v, s, d).Ok? ==> KeepsHidden(v, Eliminate(v, s, d).value)
    ensures Eliminate(v, s, d).Ok? && d in v[s] ==>
              forall u :: InUnit(s, u) ==> HiddenFixed(Eliminate(v, s, d).value, u, d)
  {
    if d in v[s] {
      var v1 := Remove(v, s, d);
      if v1[s] != {} {
        PropagateHidden(v1, s, d);
        RemoveKeepsHidden(v, s, d);
        var r := Propagate(v1, s, d);
        if r.Ok? {
          forall u: UnitId, x: Digit | HiddenFixed(v, u, x)
            ensures HiddenFixed(r.value, u, x)
          {
            if x != d || !InUnit(s, u) {
              assert HiddenFixed(v1, u, x);
            }
          }
        }
      }
    }
  }

  lemma {:induction false} PropagateHidden(v1: Values, s: Cell, d: Digit)
    requires v1[s] != {}
    decreases Size(v1), 2, 0
    ensures Propagate(v1, s, d).Ok? ==> KeepsHidden(v1, Propagate(v1, s, d).value)
    ensures Propagate(v1, s, d).Ok? ==>
              forall u :: InUnit(s, u) ==> HiddenFixed(Propagate(v1, s, d).value, u, d)
  {
    var r1 := if |v1[s]| == 1 then EliminateFromPeers(v1, PeerCells(s), Members(v1[s])[0]) else Ok(v1);
    if |v1[s]| == 1 {
      EliminateFromPeersHidden(v1, PeerCells(s), Members(v1[s])[0]);
    }
    if r1.Ok? {
      CheckUnitsHidden(r1.value, UnitsOf(s), d);
    }
  }

  lemma {:induction false} EliminateFromPeersHidden(v: Values, ps: seq<Cell>, d: Digit)
    decreases Size(v), 0, |ps|
    ensures EliminateFromPeers(v, ps, d).Ok? ==> KeepsHidden(v, EliminateFromPeers(v, ps, d).value)
  {
    if ps != [] {
      EliminateHidden(v, ps[0], d);
      var r1 := Eliminate(v, ps[0], d);
      if r1.Ok? {
        EliminateFromPeersHidden(r1.value, ps[1..], d);
      }
    }
  }

  /** One unit checked: the hidden singles kept so far and the one fixed in
      the first unit carry over to the result of checking the other units. */
  lemma HiddenStep(v: Values, m: Values, r: Values, us: seq<UnitId>, d: Digit)
    requires |us| > 0 && KeepsHidden(v, m) && KeepsHidden(m, r) && HiddenFixed(m, us[0], d)
    requires forall u :: u in us[1..] ==> HiddenFixed(r, u, d)
    ensures KeepsHidden(v, r)
    ensures forall u :: u in us ==> HiddenFixed(r, u, d)
  {
    forall u | u in us
      ensures HiddenFixed(r, u, d)
    {
      if u != us[0] {
        assert u in us[1..];
      }
    }
  }

  lemma {:induction false} CheckUnitsHidden(v: Values, us: seq<UnitId>, d: Digit)
    decreases Size(v), 1, |us|, 2
    ensures CheckUnits(v, us, d).Ok? ==> KeepsHidden(v, CheckUnits(v, us, d).value)
    ensures CheckUnits(v, us, d).Ok? ==>
              forall u :: u in us ==> HiddenFixed(CheckUnits(v, us, d).value, u, d)
  {
    if us != [] {
      var places := Places(v, UnitCells(us[0]), d);
      if |places| == 1 {
        CheckUnitsHiddenOne(v, us, d);
      } else if |places| > 1 {
        ManyPlacesVacuous(v, us[0], d);
        assert CheckUnits(v, us, d) == CheckUnits(v, us[1..], d);
        CheckUnitsHiddenRest(v, v, us, d);
      }
    }
  }

  /** The unit check when the first unit has one place left: `d` is assigned
      there, and the other units are checked from the result. */
  lemma {:induction false} CheckUnitsHiddenOne(v: Values, us: seq<UnitId>, d: Digit)
    requires |us| > 0 && |Places(v, UnitCells(us[0]), d)| == 1
    decreases Size(v), 1, |us|, 1
    ensures CheckUnits(v, us, d).Ok? ==> KeepsHidden(v, CheckUnits(v, us, d).value)
    ensures CheckUnits(v, us, d).Ok? ==>
              forall u :: u in us ==> HiddenFixed(CheckUnits(v, us, d).value, u, d)
  {
    var c := Places(v, UnitCells(us[0]), d)[0];
    OnePlaceAssigned(v, us[0], d);
    AssignHidden(v, c, d);
    var m := Assign(v, c, d);
    if m.Ok? {
      CheckUnitsOnePlace(v, us, d);
      CheckUnitsHiddenRest(v, m.value, us, d);
    }
  }

  /** The first unit's one place gets `d` assigned, which fixes the unit's
      hidden single. */
  lemma OnePlaceAssigned(v: Values, u: UnitId, d: Digit)
    requires |Places(v, UnitCells(u), d)| == 1
    ensures var m := Assign(v, Places(v, UnitCells(u), d)[0], d);
              m.Ok? ==> HiddenFixed(m.value, u, d)
  {
    var places := Places(v, UnitCells(u), d);
    var c := places[0];
    assert c in places;
    var m := Assign(v, c, d);
    if m.Ok? {
      assert d in v[c] && m.value[c] == {d};
      OnePlaceFixed(v, m.value, u, d);
    }
  }

  /** When the first unit has one place, the check goes on from the state
      where `d` is assigned there. */
  lemma CheckUnitsOnePlace(v: Values, us: seq<UnitId>, d: Digit)
    requires |us| > 0 && |Places(v, UnitCells(us[0]), d)| == 1
    requires Assign(v, Places(v, UnitCells(us[0]), d)[0], d).Ok?
    ensures CheckUnits(v, us, d) == CheckUnits(Assign(v, Places(v, UnitCells(us[0]), d)[0], d).value, us[1..], d)
  {
  }

  /** The rest of the unit check, after the first unit's hidden single was
      fixed in `m`. */
  lemma {:induction false} CheckUnitsHiddenRest(v: Values, m: Values, us: seq<UnitId>, d: Digit)
    requires |us| > 0 && KeepsHidden(v, m) && HiddenFixed(m, us[0], d)
    requires CheckUnits(v, us, d) == CheckUnits(m, us[1..], d)
    decreases Size(m), 1, |us|, 0
    ensures CheckUnits(v, us, d).Ok? ==> KeepsHidden(v, CheckUnits(v, us, d).value)
    ensures CheckUnits(v, us, d).Ok? ==>
              forall u :: u in us ==> HiddenFixed(CheckUnits(v, us, d).value, u, d)
  {
    CheckUnitsHidden(m, us[1..], d);
    var r := CheckUnits(m, us[1..], d);
    if r.Ok? {
      HiddenStep(v, m, r.value, us, d);
    }
  }

  /** A successful `assign` keeps every fixed hidden single. */
  lemma {:induction false} AssignHidden(v: Values, s: Cell, d: Digit)
    decreases Size(v), 1, 0
    ensures Assign(v, s, d).Ok? ==> KeepsHidden(v, Assign(v, s, d).value)
  {
    EliminateDigitsHidden(v, s, Members(v[s] - {d}));
  }

  lemma {:induction false} EliminateDigitsHidden(v: Values, s: Cell, ds: seq<Digit>)
    decreases Size(v), 0, |ds|
    ensures EliminateDigits(v, s, ds).Ok? ==> KeepsHidden(v, EliminateDigits(v, s, ds).value)
  {
    if ds != [] {
      EliminateHidden(v, s, ds[0]);
      var r1 := Eliminate(v, s, ds[0]);
      if r1.Ok? {
        EliminateDigitsHidden(r1.value, s, ds[1..]);
      }
    }
  }

  /** After `d` is removed from `s`, a unit of `s` whose list of places for
      `d` has one entry has `d` assigned at that entry. */
  lemma EliminateFixesHiddenSingles(v: Values, s: Cell, d: Digit)
    ensures Eliminate(v, s, d).Ok? && d in v[s] ==>
              forall u :: InUnit(s, u) && |Places(Eliminate(v, s, d).value, UnitCells(u), d)| == 1 ==>
                Eliminate(v, s, d).value[Places(Eliminate(v, s, d).value, UnitCells(u), d)[0]] == {d}
  {
    EliminateHidden(v, s, d);
    var r := Eliminate(v, s, d);
    if r.Ok? && d in v[s] {
      forall u | InUnit(s, u) && |Places(r.value, UnitCells(u), d)| == 1
        ensures r.value[Places(r.value, UnitCells(u), d)[0]] == {d}
      {
        OnePlaceIsOnly(r.value, u, d);
      }
    }
  }
}
