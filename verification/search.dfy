/** Depth-first search with the minimum-remaining-values heuristic, in its two
    modes: `search` returns the first solution, `searchAll` enumerates all of
    them. Each branch assigns one digit to a copy of the state, so a failed
    branch leaves its siblings untouched; here every state is a value. */
module SearchEngine {
  import opened Outcomes
  import opened Topology
  import opened Candidates
  import opened Propagation

  /** The cell to branch on: the first cell, in row-major order, among those
      with the fewest candidates above one (a stable sort by domain size).
      `None` when no cell has more than one candidate: on an unsolved state that
      means some domain is empty, and the solver's loop over the candidates of
      an undefined cell throws, which the enclosing branch catches like a dead end. */
  function SelectCell(v: Values): (r: Option<Cell>)
    ensures r.None? <==> forall c: Cell :: |v[c]| <= 1
    ensures r.Some? ==> |v[r.value]| > 1
    ensures r.Some? ==> forall c: Cell :: |v[c]| > 1 ==> |v[r.value]| <= |v[c]|
    ensures r.Some? ==> forall c: Cell :: c < r.value && |v[c]| > 1 ==> |v[r.value]| < |v[c]|
  {
    var s := BestFrom(v, 0, -1);
    if s == -1 then None else Some(s)
  }

  /** Scan cells `i..80`, keeping in `best` the first cell of least size above
      one seen so far (-1 while none has been seen). */
  function BestFrom(v: Values, i: nat, best: int): (s: int)
    requires i <= 81
    requires best == -1 ==> forall c: Cell :: c < i ==> |v[c]| <= 1
    requires best != -1 ==> 0 <= best < i && |v[best]| > 1
    requires best != -1 ==> forall c: Cell :: c < i && |v[c]| > 1 ==> |v[best]| <= |v[c]|
    requires best != -1 ==> forall c: Cell :: c < best && |v[c]| > 1 ==> |v[best]| < |v[c]|
    decreases 81 - i
    ensures s == -1 ==> forall c: Cell :: |v[c]| <= 1
    ensures s != -1 ==> 0 <= s < 81 && |v[s]| > 1
    ensures s != -1 ==> forall c: Cell :: |v[c]| > 1 ==> |v[s]| <= |v[c]|
    ensures s != -1 ==> forall c: Cell :: c < s && |v[c]| > 1 ==> |v[s]| < |v[c]|
  {
    if i == 81 then best
    else if |v[i]| > 1 && (best == -1 || |v[i]| < |v[best]|) then BestFrom(v, i + 1, i)
    else BestFrom(v, i + 1, best)
  }

  /** A successful assignment at a cell with several candidates lowers the
      measure. */
  lemma AssignProgress(v: Values, s: Cell, d: Digit)
    requires |v[s]| > 1 && Assign(v, s, d).Ok?
    ensures Size(Assign(v, s, d).value) < Size(v)
  {
    var r := Assign(v, s, d).value;
    assert r[s] != v[s] by {
      SubsetCard(r[s], {d});
    }
    SizeStrict(v, r, s);
  }

  /** Find-first mode: the first solution in depth-first order, or a dead end. */
  function Search(v: Values): (r: Result<Values>)
    decreases Size(v), 1, 0
    ensures r.Ok? ==> Solved(r.value) && Shrinks(v, r.value)
  {
    if Solved(v) then Ok(v)
    else
      match SelectCell(v)
      case None => Backtrack
      case Some(s) => SearchBranches(v, s, Members(v[s]))
  }

  /** Try the digits `ds` at cell `s` in turn, each on its own copy of `v`. */
  function SearchBranches(v: Values, s: Cell, ds: seq<Digit>): (r: Result<Values>)
    requires |v[s]| > 1
    decreases Size(v), 0, |ds|
    ensures r.Ok? ==> Solved(r.value) && Shrinks(v, r.value)
  {
    if ds == [] then Backtrack
    else
      var found := SearchBranch(v, s, ds[0]);
      if found.Ok? then found
      else SearchBranches(v, s, ds[1..])
  }

  /** One branch: assign `d` at `s` on a copy, then search on. */
  function SearchBranch(v: Values, s: Cell, d: Digit): (r: Result<Values>)
    requires |v[s]| > 1
    decreases Size(v), 0, 0
    ensures r.Ok? ==> Solved(r.value) && Shrinks(v, r.value)
  {
    var a := Assign(v, s, d);
    if a.Ok? then AssignProgress(v, s, d); Search(a.value) else Backtrack
  }

  /** Enumerate mode: every solution reachable from `v`, in depth-first order. */
  function SearchAll(v: Values): (sols: seq<Values>)
    decreases Size(v), 1, 0
    ensures forall e :: e in sols ==> Solved(e) && Shrinks(v, e)
  {
    if Solved(v) then [v]
    else
      match SelectCell(v)
      case None => []
      case Some(s) => SearchAllBranches(v, s, Members(v[s]))
  }

  /** The solutions of the branches `ds` at cell `s`, one branch after another. */
  function SearchAllBranches(v: Values, s: Cell, ds: seq<Digit>): (sols: seq<Values>)
    requires |v[s]| > 1
    decreases Size(v), 0, |ds|
    ensures forall e :: e in sols ==> Solved(e) && Shrinks(v, e)
    ensures forall e :: e in sols ==> forall x :: x in e[s] ==> x in ds
  {
    if ds == [] then []
    else SearchAllBranch(v, s, ds[0]) + SearchAllBranches(v, s, ds[1..])
  }

  /** The solutions of one branch; all of them have `d` at `s`. */
  function SearchAllBranch(v: Values, s: Cell, d: Digit): (sols: seq<Values>)
    requires |v[s]| > 1
    decreases Size(v), 0, 0
    ensures forall e :: e in sols ==> Solved(e) && Shrinks(v, e) && e[s] == {d}
  {
    var a := Assign(v, s, d);
    if a.Ok? then AssignProgress(v, s, d); SearchAll(a.value) else []
  }

  /** The lazy enumeration pulled at most `k` times: the generator stops
      exploring as soon as its consumer has taken `k` solutions. */
  function Enumerate(v: Values, k: nat): (sols: seq<Values>)
    decreases Size(v), 1, 0
    ensures |sols| <= k
  {
    if k == 0 then []
    else if Solved(v) then [v]
    else
      match SelectCell(v)
      case None => []
      case Some(s) => EnumerateBranches(v, s, Members(v[s]), k)
  }

  function EnumerateBranches(v: Values, s: Cell, ds: seq<Digit>, k: nat): (sols: seq<Values>)
    requires |v[s]| > 1
    decreases Size(v), 0, |ds|
    ensures |sols| <= k
  {
    if ds == [] || k == 0 then []
    else
      var here := EnumerateBranch(v, s, ds[0], k);
      here + EnumerateBranches(v, s, ds[1..], Remaining(k, |here|))
  }

  /** How many more solutions the consumer wants after receiving `taken`. */
  function Remaining(k: nat, taken: nat): (left: nat)
    ensures taken <= k ==> left + taken == k
  {
    if taken <= k then k - taken else 0
  }

  function EnumerateBranch(v: Values, s: Cell, d: Digit, k: nat): (sols: seq<Values>)
    requires |v[s]| > 1
    decreases Size(v), 0, 0
    ensures |sols| <= k
  {
    var a := Assign(v, s, d);
    if a.Ok? then AssignProgress(v, s, d); Enumerate(a.value, k) else []
  }
}
