/** Propagation keeps every unit able to hold every digit it could hold before,
    and after removing `d` from `s`, each unit of `s` still has a place for `d`. */
module PropagationPlaces {
  import opened Outcomes
  import opened Topology
  import opened Candidates
  import opened Propagation

  /** Every (unit, digit) pair with a place in `v` still has one in `r`. */
  ghost predicate KeepsPlaces(v: Values, r: Values) {
    forall u: UnitId, x: Digit :: HasPlace(v, u, x) ==> HasPlace(r, u, x)
  }

  lemma {:induction false} EliminatePlaces(v: Values, s: Cell, d: Digit)
    decreases Size(v), 0, 0
    ensures Eliminate(v, s, d).Ok? ==> KeepsPlaces(v, Eliminate(v, s, d).value)
    ensures Eliminate(v, s, d).Ok? && d in v[s] ==>
              forall u :: InUnit(s, u) ==> HasPlace(Eliminate(v, s, d).value, u, d)
  {
    if d in v[s] {
      var v1 := Remove(v, s, d);
      if v1[s] != {} {
        PropagatePlaces(v1, s, d);
        var r := Propagate(v1, s, d);
        if r.Ok? {
          forall u: UnitId, x: Digit | HasPlace(v, u, x)
            ensures HasPlace(r.value, u, x)
          {
            var c: Cell :| InUnit(c, u) && x in v[c];
            if c != s || x != d {
              assert HasPlace(v1, u, x);
            }
          }
        }
      }
    }
  }

  lemma {:induction false} PropagatePlaces(v1: Values, s: Cell, d: Digit)
    requires v1[s] != {}
    decreases Size(v1), 2, 0
    ensures Propagate(v1, s, d).Ok? ==> KeepsPlaces(v1, Propagate(v1, s, d).value)
    ensures Propagate(v1, s, d).Ok? ==>
              forall u :: InUnit(s, u) ==> HasPlace(Propagate(v1, s, d).value, u, d)
  {
    var r1 := if |v1[s]| == 1 then EliminateFromPeers(v1, PeerCells(s), Members(v1[s])[0]) else Ok(v1);
    if |v1[s]| == 1 {
      EliminateFromPeersPlaces(v1, PeerCells(s), Members(v1[s])[0]);
    }
    if r1.Ok? {
      CheckUnitsPlaces(r1.value, UnitsOf(s), d);
    }
  }

  lemma {:induction false} EliminateFromPeersPlaces(v: Values, ps: seq<Cell>, d: Digit)
    decreases Size(v), 0, |ps|
    ensures EliminateFromPeers(v, ps, d).Ok? ==> KeepsPlaces(v, EliminateFromPeers(v, ps, d).value)
  {
    if ps != [] {
      EliminatePlaces(v, ps[0], d);
      var r1 := Eliminate(v, ps[0], d);
      if r1.Ok? {
        EliminateFromPeersPlaces(r1.value, ps[1..], d);
      }
    }
  }

  /** One unit checked: the places kept so far and the place found in the
      first unit carry over to the result of checking the other units. */
  lemma PlacesStep(v: Values, m: Values, r: Values, us: seq<UnitId>, d: Digit)
    requires |us| > 0 && KeepsPlaces(v, m) && KeepsPlaces(m, r) && HasPlace(m, us[0], d)
    requires forall u :: u in us[1..] ==> HasPlace(r, u, d)
    ensures KeepsPlaces(v, r)
    ensures forall u :: u in us ==> HasPlace(r, u, d)
  {
    forall u | u in us
      ensures HasPlace(r, u, d)
    {
      if u != us[0] {
        assert u in us[1..];
      }
    }
  }

  lemma {:induction false} CheckUnitsPlaces(v: Values, us: seq<UnitId>, d: Digit)
    decreases Size(v), 1, |us|, 1
    ensures CheckUnits(v, us, d).Ok? ==> KeepsPlaces(v, CheckUnits(v, us, d).value)
    ensures CheckUnits(v, us, d).Ok? ==>
              forall u :: u in us ==> HasPlace(CheckUnits(v, us, d).value, u, d)
  {
    if us != [] {
      var places := Places(v, UnitCells(us[0]), d);
      if |places| == 1 {
        var c := places[0];
        assert InUnit(c, us[0]) && d in v[c];
        var m := Assign(v, c, d);
        AssignPlaces(v, c, d);
        if m.Ok? {
          assert d in m.value[c];
          CheckUnitsPlacesRest(v, m.value, us, d);
        }
      } else if |places| > 1 {
        var c := places[0];
        assert InUnit(c, us[0]) && d in v[c];
        CheckUnitsPlacesRest(v, v, us, d);
      }
    }
  }

  /** The rest of the unit check, after the first unit left `m` with a place for
      `d`. */
  lemma {:induction false} CheckUnitsPlacesRest(v: Values, m: Values, us: seq<UnitId>, d: Digit)
    requires |us| > 0 && KeepsPlaces(v, m) && HasPlace(m, us[0], d)
    requires CheckUnits(v, us, d) == CheckUnits(m, us[1..], d)
    decreases Size(m), 1, |us|, 0
    ensures CheckUnits(v, us, d).Ok? ==> KeepsPlaces(v, CheckUnits(v, us, d).value)
    ensures CheckUnits(v, us, d).Ok? ==>
              forall u :: u in us ==> HasPlace(CheckUnits(v, us, d).value, u, d)
  {
    CheckUnitsPlaces(m, us[1..], d);
    var r := CheckUnits(m, us[1..], d);
    if r.Ok? {
      PlacesStep(v, m, r.value, us, d);
    }
  }

  /** A successful `assign` loses no place any unit had for any digit. */
  lemma {:induction false} AssignPlaces(v: Values, s: Cell, d: Digit)
    decreases Size(v), 1, 0
    ensures Assign(v, s, d).Ok? ==> KeepsPlaces(v, Assign(v, s, d).value)
  {
    EliminateDigitsPlaces(v, s, Members(v[s] - {d}));
  }

  lemma {:induction false} EliminateDigitsPlaces(v: Values, s: Cell, ds: seq<Digit>)
    decreases Size(v), 0, |ds|
    ensures EliminateDigits(v, s, ds).Ok? ==> KeepsPlaces(v, EliminateDigits(v, s, ds).value)
  {
    if ds != [] {
      EliminatePlaces(v, s, ds[0]);
      var r1 := Eliminate(v, s, ds[0]);
      if r1.Ok? {
        EliminateDigitsPlaces(r1.value, s, ds[1..]);
      }
    }
  }
}
