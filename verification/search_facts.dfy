/** What the two search modes compute. From a consistent state, `SearchAll`
    lists every valid solution the state allows, each exactly once; `Search`
    returns the first of them; and pulling the enumeration `k` times yields
    its first `k` solutions. */
module SearchEngineFacts {
  import opened Outcomes
  import opened Topology
  import opened Candidates
  import opened Propagation
  import opened PropagationAllows
  import opened PropagationConsistent
  import opened SearchEngine

  /** Board `b` is a valid solution allowed by state `v`. */
  ghost predicate Solves(v: Values, b: Board) {
    ValidBoard(b) && Allows(v, b)
  }

  /** Exactly one valid solution is allowed by `v`. */
  ghost predicate UniqueCompletion(v: Values) {
    && (exists b: Board :: Solves(v, b))
    && (forall b1: Board, b2: Board :: Solves(v, b1) && Solves(v, b2) ==> b1 == b2)
  }

  ghost predicate Distinct(xs: seq<Values>) {
    forall i, j :: 0 <= i < j < |xs| ==> xs[i] != xs[j]
  }

  function First(xs: seq<Values>): Result<Values> {
    if xs == [] then Backtrack else Ok(xs[0])
  }

  /** The first `k` elements, or all of them when there are fewer. */
  function Take(xs: seq<Values>, k: nat): (t: seq<Values>)
    ensures |t| <= k && t <= xs
    ensures |t| < k ==> t == xs
  {
    if |xs| <= k then xs else xs[..k]
  }

  lemma TakeNothing(xs: seq<Values>, k: nat)
    requires |xs| == 0 || k == 0
    ensures Take(xs, k) == []
  {
  }

  lemma TakeConcat(a: seq<Values>, b: seq<Values>, k: nat)
    ensures Take(a + b, k) == Take(a, k) + Take(b, Remaining(k, |Take(a, k)|))
  {
    if |a| > k {
      assert (a + b)[..k] == a[..k];
    } else if |b| > k - |a| {
      assert (a + b)[..k] == a + b[..k - |a|];
    }
  }

  /** Every solution enumerated from a consistent state is consistent. */
  lemma {:induction false} SearchAllConsistent(v: Values)
    requires Consistent(v)
    decreases Size(v), 1, 0
    ensures forall e :: e in SearchAll(v) ==> Consistent(e)
  {
    if !Solved(v) {
      match SelectCell(v)
      case None =>
      case Some(s) => SearchAllBranchesConsistent(v, s, Members(v[s]));
    }
  }

  lemma {:induction false} SearchAllBranchesConsistent(v: Values, s: Cell, ds: seq<Digit>)
    requires Consistent(v) && |v[s]| > 1
    decreases Size(v), 0, |ds|
    ensures forall e :: e in SearchAllBranches(v, s, ds) ==> Consistent(e)
  {
    if ds != [] {
      var a := Assign(v, s, ds[0]);
      if a.Ok? {
        AssignKeepsConsistent(v, s, ds[0]);
        AssignProgress(v, s, ds[0]);
        SearchAllConsistent(a.value);
      }
      assert forall e :: e in SearchAllBranch(v, s, ds[0]) ==> Consistent(e);
      SearchAllBranchesConsistent(v, s, ds[1..]);
    }
  }

  /** Every valid solution allowed by the state is enumerated. */
  lemma {:induction false} SearchAllComplete(v: Values, b: Board)
    requires Solves(v, b)
    decreases Size(v), 1, 0
    ensures Embed(b) in SearchAll(v)
  {
    if Solved(v) {
      SolvedAllowsOnly(v, b);
    } else {
      assert SelectCell(v).Some? by {
        var c: Cell :| |v[c]| != 1;
        assert b[c] in v[c];
      }
      var s := SelectCell(v).value;
      assert b[s] in Members(v[s]);
      SearchAllBranchesComplete(v, s, Members(v[s]), b);
    }
  }

  lemma {:induction false} SearchAllBranchesComplete(v: Values, s: Cell, ds: seq<Digit>, b: Board)
    requires Solves(v, b) && |v[s]| > 1 && b[s] in ds
    decreases Size(v), 0, |ds|
    ensures Embed(b) in SearchAllBranches(v, s, ds)
  {
    if ds[0] == b[s] {
      AssignAllows(v, s, ds[0], b);
      AssignProgress(v, s, ds[0]);
      SearchAllComplete(Assign(v, s, ds[0]).value, b);
      assert Embed(b) in SearchAllBranch(v, s, ds[0]);
    } else {
      SearchAllBranchesComplete(v, s, ds[1..], b);
    }
  }

  lemma DistinctConcat(a: seq<Values>, b: seq<Values>)
    requires Distinct(a) && Distinct(b)
    requires forall x, y :: x in a && y in b ==> x != y
    ensures Distinct(a + b)
  {
    forall i, j | 0 <= i < j < |a + b|
      ensures (a + b)[i] != (a + b)[j]
    {
      if j < |a| {
        assert (a + b)[i] == a[i] && (a + b)[j] == a[j];
      } else if i >= |a| {
        assert (a + b)[i] == b[i - |a|] && (a + b)[j] == b[j - |a|];
      } else {
        assert (a + b)[i] in a && (a + b)[j] in b;
      }
    }
  }

  /** No solution is enumerated twice. */
  lemma {:induction false} SearchAllDistinct(v: Values)
    decreases Size(v), 1, 0
    ensures Distinct(SearchAll(v))
  {
    if !Solved(v) {
      match SelectCell(v)
      case None =>
      case Some(s) => SearchAllBranchesDistinct(v, s, Members(v[s]));
    }
  }

  lemma {:induction false} SearchAllBranchesDistinct(v: Values, s: Cell, ds: seq<Digit>)
    requires |v[s]| > 1 && Ascending(ds)
    decreases Size(v), 0, |ds|
    ensures Distinct(SearchAllBranches(v, s, ds))
  {
    if ds != [] {
      var a := Assign(v, s, ds[0]);
      var here := SearchAllBranch(v, s, ds[0]);
      var rest := SearchAllBranches(v, s, ds[1..]);
      assert SearchAllBranches(v, s, ds) == here + rest;
      if a.Ok? {
        AssignProgress(v, s, ds[0]);
        SearchAllDistinct(a.value);
      }
      SearchAllBranchesDistinct(v, s, ds[1..]);
      BranchesApart(v, s, ds);
      DistinctConcat(here, rest);
    }
  }

  /** The first branch's solutions hold `ds[0]` at `s`, the later branches'
      solutions hold a later digit there. */
  lemma BranchesApart(v: Values, s: Cell, ds: seq<Digit>)
    requires |v[s]| > 1 && Ascending(ds) && |ds| > 0
    ensures forall x, y :: x in SearchAllBranch(v, s, ds[0]) && y in SearchAllBranches(v, s, ds[1..]) ==> x != y
  {
    forall x, y | x in SearchAllBranch(v, s, ds[0]) && y in SearchAllBranches(v, s, ds[1..])
      ensures x != y
    {
      assert ds[0] in x[s];
      assert ds[0] !in ds[1..];
    }
  }

  /** Find-first mode returns the first solution of enumerate mode. */
  lemma {:induction false} SearchIsFirst(v: Values)
    decreases Size(v), 1, 0
    ensures Search(v) == First(SearchAll(v))
  {
    if !Solved(v) {
      match SelectCell(v)
      case None =>
      case Some(s) => SearchBranchesIsFirst(v, s, Members(v[s]));
    }
  }

  lemma {:induction false} SearchBranchesIsFirst(v: Values, s: Cell, ds: seq<Digit>)
    requires |v[s]| > 1
    decreases Size(v), 0, |ds|
    ensures SearchBranches(v, s, ds) == First(SearchAllBranches(v, s, ds))
  {
    if ds != [] {
      var a := Assign(v, s, ds[0]);
      if a.Ok? {
        AssignProgress(v, s, ds[0]);
        SearchIsFirst(a.value);
      }
      assert SearchBranch(v, s, ds[0]) == First(SearchAllBranch(v, s, ds[0]));
      SearchBranchesIsFirst(v, s, ds[1..]);
    }
  }

  /** Pulling the lazy enumeration `k` times yields its first `k` solutions. */
  lemma {:induction false} EnumerateIsPrefix(v: Values, k: nat)
    decreases Size(v), 1, 0
    ensures Enumerate(v, k) == Take(SearchAll(v), k)
  {
    if k > 0 && !Solved(v) {
      match SelectCell(v)
      case None =>
      case Some(s) => EnumerateBranchesIsPrefix(v, s, Members(v[s]), k);
    }
  }

  lemma {:induction false} EnumerateBranchesIsPrefix(v: Values, s: Cell, ds: seq<Digit>, k: nat)
    requires |v[s]| > 1
    decreases Size(v), 0, |ds|
    ensures EnumerateBranches(v, s, ds, k) == Take(SearchAllBranches(v, s, ds), k)
  {
    if ds != [] && k > 0 {
      var first := SearchAllBranch(v, s, ds[0]);
      var later := SearchAllBranches(v, s, ds[1..]);
      assert SearchAllBranches(v, s, ds) == first + later;
      var here := EnumerateBranch(v, s, ds[0], k);
      assert EnumerateBranches(v, s, ds, k) == here + EnumerateBranches(v, s, ds[1..], Remaining(k, |here|));
      EnumerateBranchIsPrefix(v, s, ds[0], k);
      assert here == Take(first, k);
      EnumerateBranchesIsPrefix(v, s, ds[1..], Remaining(k, |here|));
      TakeConcat(first, later, k);
    } else {
      assert EnumerateBranches(v, s, ds, k) == [];
      TakeNothing(SearchAllBranches(v, s, ds), k);
    }
  }

  lemma {:induction false} EnumerateBranchIsPrefix(v: Values, s: Cell, d: Digit, k: nat)
    requires |v[s]| > 1
    decreases Size(v), 0, 0
    ensures EnumerateBranch(v, s, d, k) == Take(SearchAllBranch(v, s, d), k)
  {
    if Assign(v, s, d).Ok? {
      AssignProgress(v, s, d);
      EnumerateIsPrefix(Assign(v, s, d).value, k);
    }
  }

  /** From a consistent state, enumerate mode yields exactly one solution iff
      exactly one valid solution is allowed by the state. */
  lemma ExactlyOneIffUnique(v: Values)
    requires Consistent(v)
    ensures |SearchAll(v)| == 1 <==> UniqueCompletion(v)
  {
    if |SearchAll(v)| == 1 {
      OneSolutionIsUnique(v);
    }
    if UniqueCompletion(v) {
      UniqueIsOneSolution(v);
    }
  }

  lemma OneSolutionIsUnique(v: Values)
    requires Consistent(v) && |SearchAll(v)| == 1
    ensures UniqueCompletion(v)
  {
    var e := SearchAll(v)[0];
    EnumeratedSolves(v, e);
    AtMostOneSolution(v);
  }

  /** With at most one enumerated state, at most one solution is allowed. */
  lemma AtMostOneSolution(v: Values)
    requires |SearchAll(v)| <= 1
    ensures forall b1: Board, b2: Board :: Solves(v, b1) && Solves(v, b2) ==> b1 == b2
  {
    forall b1: Board, b2: Board | Solves(v, b1) && Solves(v, b2)
      ensures b1 == b2
    {
      SearchAllComplete(v, b1);
      SearchAllComplete(v, b2);
      SameElement(SearchAll(v), Embed(b1), Embed(b2));
      EmbedInjective(b1, b2);
    }
  }

  lemma SameElement(xs: seq<Values>, x: Values, y: Values)
    requires |xs| <= 1 && x in xs && y in xs
    ensures x == y
  {
  }

  /** Every enumerated state, read as a board, is a solution the input allows. */
  lemma EnumeratedSolves(v: Values, e: Values)
    requires Consistent(v) && e in SearchAll(v)
    ensures Solves(v, BoardOf(e))
  {
    SearchAllConsistent(v);
    SolvedConsistentIsValid(e);
  }

  lemma UniqueIsOneSolution(v: Values)
    requires Consistent(v) && UniqueCompletion(v)
    ensures |SearchAll(v)| == 1
  {
    var sols := SearchAll(v);
    var b: Board :| Solves(v, b);
    SearchAllComplete(v, b);
    if |sols| >= 2 {
      SearchAllDistinct(v);
      SearchAllConsistent(v);
      TwoSolutionsDiffer(v, sols[0], sols[1]);
    }
  }

  lemma TwoSolutionsDiffer(v: Values, e0: Values, e1: Values)
    requires UniqueCompletion(v)
    requires Solved(e0) && Consistent(e0) && Shrinks(v, e0)
    requires Solved(e1) && Consistent(e1) && Shrinks(v, e1)
    ensures e0 == e1
  {
    SolvedConsistentIsValid(e0);
    SolvedConsistentIsValid(e1);
    assert Solves(v, BoardOf(e0)) && Solves(v, BoardOf(e1));
    EmbedBoardOf(e0);
    EmbedBoardOf(e1);
  }

  /** From a consistent state, find-first mode succeeds iff some valid solution
      is allowed, and what it returns is one. */
  lemma SearchCorrect(v: Values)
    requires Consistent(v)
    ensures Search(v).Ok? <==> exists b: Board :: Solves(v, b)
    ensures Search(v).Ok? ==> Solves(v, BoardOf(Search(v).value))
  {
    SearchIsFirst(v);
    SearchAllConsistent(v);
    var sols := SearchAll(v);
    if sols != [] {
      SolvedConsistentIsValid(sols[0]);
      assert Solves(v, BoardOf(sols[0]));
    }
    if exists b: Board :: Solves(v, b) {
      var b: Board :| Solves(v, b);
      SearchAllComplete(v, b);
    }
  }
}
