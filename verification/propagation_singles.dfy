/** Propagation removes the digit of every newly fixed cell from all its peers. */
module PropagationSingles {
  import opened Outcomes
  import opened Topology
  import opened Candidates
  import opened Propagation

  /** Every cell that `r` fixes to a digit it was not already fixed to in `v`
      has that digit gone from all its peers in `r`. */
  ghost predicate KeepsSingles(v: Values, r: Values) {
    forall c: Cell, p: Cell :: IsPeer(c, p) && |r[c]| == 1 && r[c] != v[c] ==> r[c] !! r[p]
  }

  lemma KeepsSinglesTransitive(a: Values, m: Values, b: Values)
    requires Shrinks(a, m) && Shrinks(m, b)
    requires KeepsSingles(a, m) && KeepsSingles(m, b)
    ensures KeepsSingles(a, b)
  {
    forall c: Cell, p: Cell | IsPeer(c, p) && |b[c]| == 1 && b[c] != a[c]
      ensures b[c] !! b[p]
    {
      if b[c] == m[c] {
        assert m[c] !! m[p];
      }
    }
  }

  lemma {:induction false} EliminateSingles(v: Values, s: Cell, d: Digit)
    decreases Size(v), 0, 0
    ensures Eliminate(v, s, d).Ok? ==> KeepsSingles(v, Eliminate(v, s, d).value)
    ensures Eliminate(v, s, d).Ok? && d in v[s] && |Eliminate(v, s, d).value[s]| == 1 ==>
              forall p: Cell :: IsPeer(s, p) ==> Eliminate(v, s, d).value[s] !! Eliminate(v, s, d).value[p]
  {
    if d in v[s] {
      var v1 := Remove(v, s, d);
      if v1[s] != {} {
        PropagateSingles(v1, s, d);
        var r := Propagate(v1, s, d);
        if r.Ok? {
          forall c: Cell, p: Cell | IsPeer(c, p) && |r.value[c]| == 1 && r.value[c] != v[c]
            ensures r.value[c] !! r.value[p]
          {
            if c == s && r.value[s] == v1[s] {
              assert v1[s] !! r.value[p];
            }
          }
        }
      }
    }
  }

  lemma {:induction false} PropagateSingles(v1: Values, s: Cell, d: Digit)
    requires v1[s] != {}
    decreases Size(v1), 2, 0
    ensures Propagate(v1, s, d).Ok? ==> KeepsSingles(v1, Propagate(v1, s, d).value)
    ensures Propagate(v1, s, d).Ok? && |v1[s]| == 1 ==>
              forall p: Cell :: IsPeer(s, p) ==> v1[s] !! Propagate(v1, s, d).value[p]
  {
    if |v1[s]| == 1 {
      var d2 := Members(v1[s])[0];
      SingletonIsFirstMember(v1[s]);
      EliminateFromPeersSingles(v1, PeerCells(s), d2);
      var r1 := EliminateFromPeers(v1, PeerCells(s), d2);
      if r1.Ok? {
        CheckUnitsSingles(r1.value, UnitsOf(s), d);
        var r := CheckUnits(r1.value, UnitsOf(s), d);
        if r.Ok? {
          KeepsSinglesTransitive(v1, r1.value, r.value);
          forall p: Cell | IsPeer(s, p)
            ensures v1[s] !! r.value[p]
          {
            assert d2 !in r1.value[p];
          }
        }
      }
    } else {
      CheckUnitsSingles(v1, UnitsOf(s), d);
    }
  }

  lemma {:induction false} EliminateFromPeersSingles(v: Values, ps: seq<Cell>, d: Digit)
    decreases Size(v), 0, |ps|
    ensures EliminateFromPeers(v, ps, d).Ok? ==> KeepsSingles(v, EliminateFromPeers(v, ps, d).value)
  {
    if ps != [] {
      EliminateSingles(v, ps[0], d);
      var r1 := Eliminate(v, ps[0], d);
      if r1.Ok? {
        EliminateFromPeersSingles(r1.value, ps[1..], d);
        var r := EliminateFromPeers(r1.value, ps[1..], d);
        if r.Ok? {
          KeepsSinglesTransitive(v, r1.value, r.value);
        }
      }
    }
  }

  lemma {:induction false} CheckUnitsSingles(v: Values, us: seq<UnitId>, d: Digit)
    decreases Size(v), 1, |us| + 1
    ensures CheckUnits(v, us, d).Ok? ==> KeepsSingles(v, CheckUnits(v, us, d).value)
  {
    if us != [] {
      var places := Places(v, UnitCells(us[0]), d);
      if |places| == 1 {
        var a := Assign(v, places[0], d);
        AssignSingles(v, places[0], d);
        if a.Ok? {
          assert CheckUnits(v, us, d) == CheckUnits(a.value, us[1..], d);
          CheckUnitsSingles(a.value, us[1..], d);
          var r := CheckUnits(a.value, us[1..], d);
          if r.Ok? {
            KeepsSinglesTransitive(v, a.value, r.value);
          }
        }
      } else if |places| > 1 {
        assert CheckUnits(v, us, d) == CheckUnits(v, us[1..], d);
        CheckUnitsSingles(v, us[1..], d);
      }
    }
  }

  /** A successful `assign` removes the digit of every cell it newly fixes from
      all the peers of that cell. */
  lemma {:induction false} AssignSingles(v: Values, s: Cell, d: Digit)
    decreases Size(v), 1, 0
    ensures Assign(v, s, d).Ok? ==> KeepsSingles(v, Assign(v, s, d).value)
  {
    EliminateDigitsSingles(v, s, Members(v[s] - {d}));
  }

  lemma {:induction false} EliminateDigitsSingles(v: Values, s: Cell, ds: seq<Digit>)
    decreases Size(v), 0, |ds|
    ensures EliminateDigits(v, s, ds).Ok? ==> KeepsSingles(v, EliminateDigits(v, s, ds).value)
  {
    if ds != [] {
      EliminateSingles(v, s, ds[0]);
      var r1 := Eliminate(v, s, ds[0]);
      if r1.Ok? {
        EliminateDigitsSingles(r1.value, s, ds[1..]);
        var r := EliminateDigits(r1.value, s, ds[1..]);
        if r.Ok? {
          KeepsSinglesTransitive(v, r1.value, r.value);
        }
      }
    }
  }
}
