/** The invariant every kept state satisfies: no empty domain, every fixed
    digit gone from the peers, every unit with a place for every digit. */
module PropagationConsistent {
  import opened Topology
  import opened Candidates
  import opened Propagation
  import opened PropagationPlaces
  import opened PropagationSingles

  /** A successful `assign` on a consistent state yields a consistent state. */
  lemma {:induction false} AssignKeepsConsistent(v: Values, s: Cell, d: Digit)
    requires Consistent(v)
    ensures Assign(v, s, d).Ok? ==> Consistent(Assign(v, s, d).value)
  {
    var a := Assign(v, s, d);
    if a.Ok? {
      var r := a.value;
      AssignPlaces(v, s, d);
      AssignSingles(v, s, d);
      forall c: Cell, p: Cell | IsPeer(c, p) && |r[c]| == 1
        ensures r[c] !! r[p]
      {
        if r[c] == v[c] {
          assert v[c] !! v[p];
        }
      }
    }
  }
}
