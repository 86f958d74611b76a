/** Generating puzzles: `randomPuzzle` fills a grid by assigning random
    candidates to the cells in a random order, and `createPuzzle` blanks the
    cells of that solution one by one, in another random order, keeping each
    blank only while the puzzle still has a unique solution.

    Randomness is a parameter: an attempt is the sequence of (cell, pick)
    steps one pass of `randomPuzzle` would take, and `pick` is reduced to an
    index into the cell's candidates. Each restart of `randomPuzzle` consumes
    the next attempt, so the list of attempts is also the bound on restarts. */
module Generator {
  import opened Outcomes
  import opened Topology
  import opened Candidates
  import opened Propagation
  import opened PropagationConsistent
  import opened Parsing
  import opened Solver

  /** `createPuzzle` without an argument asks for this many blanks. */
  const DefaultLevel: int := 81

  // ---------------------------------------------------------------------
  // Boards as strings of digits

  predicate IsBoardString(s: string) {
    |s| == 81 && forall i :: 0 <= i < 81 ==> IsDigitChar(s[i])
  }

  function BoardString(b: Board): (s: string)
    ensures IsBoardString(s)
    ensures forall c: Cell :: CharDigit(s[c]) == b[c]
  {
    seq(81, i requires 0 <= i < 81 => DigitChar(b[i]))
  }

  function StringBoard(s: string): (b: Board)
    requires IsBoardString(s)
    ensures forall c: Cell :: DigitChar(b[c]) == s[c]
  {
    seq(81, i requires 0 <= i < 81 => CharDigit(s[i]))
  }

  lemma BoardStringRoundTrip(b: Board)
    ensures StringBoard(BoardString(b)) == b
  {
  }

  lemma StringBoardRoundTrip(s: string)
    requires IsBoardString(s)
    ensures BoardString(StringBoard(s)) == s
  {
  }

  // ---------------------------------------------------------------------
  // randomValue and randomPuzzle

  /** The candidate at position `pick` (wrapped around) of the ascending
      candidate list. */
  function RandomValue(dom: Domain, pick: nat): (x: Digit)
    requires dom != {}
    ensures x in dom
  {
    var ms := Members(dom);
    ms[pick % |ms|]
  }

  /** Every candidate can be drawn. */
  lemma RandomValueCovers(dom: Domain, x: Digit)
    requires x in dom
    ensures exists pick: nat :: RandomValue(dom, pick) == x
  {
    var ms := Members(dom);
    assert x in ms;
    var i :| 0 <= i < |ms| && ms[i] == x;
    ModSmall(i, |ms|);
    assert RandomValue(dom, i) == x;
  }

  lemma ModSmall(i: int, n: int)
    requires 0 <= i < n
    ensures i % n == i
  {
  }

  /** One random choice: assign to `cell` its candidate number `pick`. */
  datatype Step = Step(cell: Cell, pick: nat)

  /** One pass of `randomPuzzle`: assign the steps in order, and stop with the
      grid as soon as every cell is fixed; a contradiction, or running out of
      steps, ends the pass without a grid. */
  function Fill(v: Values, steps: seq<Step>): (r: Option<Values>)
    requires NoEmpty(v)
    decreases steps
    ensures r.Some? ==> Solved(r.value) && Shrinks(v, r.value)
  {
    if steps == [] then None
    else
      match Choose(v, steps[0])
      case Backtrack => None
      case Ok(v1) =>
        if Solved(v1) then Some(v1) else Fill(v1, steps[1..])
  }

  /** Assign to the step's cell the candidate the step picks. */
  function Choose(v: Values, st: Step): (r: Result<Values>)
    requires NoEmpty(v)
    ensures r.Ok? ==> Shrinks(v, r.value) && KeepsNonEmpty(v, r.value)
    ensures r.Ok? ==> |r.value[st.cell]| == 1
  {
    Assign(v, st.cell, RandomValue(v[st.cell], st.pick))
  }

  /** A pass started from a consistent state ends in a consistent state. */
  lemma {:induction false} FillConsistent(v: Values, steps: seq<Step>)
    requires Consistent(v)
    decreases steps
    ensures Fill(v, steps).Some? ==> Consistent(Fill(v, steps).value)
  {
    if steps != [] {
      var a := Choose(v, steps[0]);
      if a.Ok? {
        AssignKeepsConsistent(v, steps[0].cell, RandomValue(v[steps[0].cell], steps[0].pick));
        if !Solved(a.value) {
          FillConsistent(a.value, steps[1..]);
        }
      }
    }
  }

  /** One pass from the state where every digit is possible. */
  function Pass(steps: seq<Step>): (r: Option<Values>)
    ensures r.Some? ==> Solved(r.value)
  {
    InitialConsistent();
    Fill(Initial(), steps)
  }

  /** Restart from the all-candidates state until a pass fills the grid. */
  function RandomPuzzle(attempts: seq<seq<Step>>): (r: Option<string>)
    ensures r.Some? ==> IsBoardString(r.value)
  {
    if attempts == [] then None
    else
      match Pass(attempts[0])
      case Some(v) => Some(BoardString(BoardOf(v)))
      case None => RandomPuzzle(attempts[1..])
  }

  /** No grid comes out exactly when every pass fails. */
  lemma {:induction false} RandomPuzzleNone(attempts: seq<seq<Step>>)
    ensures RandomPuzzle(attempts).None? <==> forall i :: 0 <= i < |attempts| ==> Pass(attempts[i]).None?
  {
    if attempts != [] {
      RandomPuzzleNone(attempts[1..]);
      assert forall i :: 1 <= i < |attempts| ==> attempts[i] == attempts[1..][i - 1];
    }
  }

  /** The grid is the one filled by the first pass that succeeds. */
  lemma {:induction false} RandomPuzzleFirst(attempts: seq<seq<Step>>, i: nat)
    requires i < |attempts| && Pass(attempts[i]).Some?
    requires forall j :: 0 <= j < i ==> Pass(attempts[j]).None?
    ensures RandomPuzzle(attempts) == Some(BoardString(BoardOf(Pass(attempts[i]).value)))
  {
    if i > 0 {
      var rest := attempts[1..];
      assert rest[i - 1] == attempts[i];
      forall j | 0 <= j < i - 1
        ensures Pass(rest[j]).None?
      {
        assert rest[j] == attempts[j + 1];
      }
      RandomPuzzleFirst(rest, i - 1);
    }
  }

  /** The generated grid is a valid solved sudoku. */
  lemma {:induction false} RandomPuzzleValid(attempts: seq<seq<Step>>)
    ensures RandomPuzzle(attempts).Some? ==> ValidBoard(StringBoard(RandomPuzzle(attempts).value))
  {
    if attempts != [] {
      var r := Pass(attempts[0]);
      if r.Some? {
        InitialConsistent();
        FillConsistent(Initial(), attempts[0]);
        SolvedConsistentIsValid(r.value);
        BoardStringRoundTrip(BoardOf(r.value));
      } else {
        RandomPuzzleValid(attempts[1..]);
      }
    }
  }

  // ---------------------------------------------------------------------
  // createPuzzle

  /** A generated puzzle with the solution it was dug from. */
  datatype Puzzle = Puzzle(puzzle: string, solution: string)

  /** The number of blanks in a puzzle string. */
  function Blanks(p: string): (n: nat)
    ensures n <= |p|
  {
    if p == [] then 0 else (if p[0] == '.' then 1 else 0) + Blanks(p[1..])
  }

  /** Blanking one more cell adds at most one blank. */
  lemma {:induction false} BlanksBlankOne(p: string, i: nat)
    requires i < |p|
    ensures Blanks(p[i := '.']) <= Blanks(p) + 1
  {
    if i > 0 {
      assert p[i := '.'][1..] == p[1..][i - 1 := '.'];
      BlanksBlankOne(p[1..], i - 1);
    }
  }

  /** `p` is `solution` with some cells blanked. */
  ghost predicate Matches(p: string, solution: string)
    requires IsBoardString(solution)
  {
    |p| == 81 && forall i :: 0 <= i < 81 ==> p[i] == '.' || p[i] == solution[i]
  }

  function Max(a: int, b: int): int {
    if a < b then b else a
  }

  /** Try the cells of `order` in turn: blank one, keep the blank when
      `check` says the puzzle still has a unique solution (counting it
      towards `difficulty`, and stopping once `level` is reached), restore the
      cell otherwise. A failure of `check` ends the digging. `createPuzzle`
      digs with `check` being `hasUniqueSolution`. */
  function Dig(p: string, order: seq<Cell>, difficulty: int, level: int, check: string -> Result<bool>): (r: Result<string>)
    requires |p| == 81
    decreases order
    ensures r.Ok? ==> |r.value| == 81
  {
    if order == [] then Ok(p)
    else
      var totry := p[order[0] := '.'];
      match check(totry)
      case Backtrack => Backtrack
      case Ok(unique) =>
        if !unique then Dig(p, order[1..], difficulty, level, check)
        else if difficulty + 1 >= level then Ok(totry)
        else Dig(totry, order[1..], difficulty + 1, level, check)
  }

  /** Generate a solution, then dig `level` blanks into it along `order`. */
  function CreatePuzzle(level: int, attempts: seq<seq<Step>>, order: seq<Cell>): (r: Option<Puzzle>)
    ensures r.Some? <==> RandomPuzzle(attempts).Some?
    ensures r.Some? ==> r.value.solution == RandomPuzzle(attempts).value
  {
    match RandomPuzzle(attempts)
    case None => None
    case Some(solution) =>
      RandomPuzzleValid(attempts);
      DigSucceeds(solution, solution, order, 0, level);
      match Dig(solution, order, 0, level, HasUniqueSolution)
      case Backtrack => None
      case Ok(p) => Some(Puzzle(p, solution))
  }

  /** A puzzle dug from a valid solution is solved by it. */
  lemma SolutionSolvesDug(p: string, solution: string)
    requires IsBoardString(solution) && ValidBoard(StringBoard(solution))
    requires Matches(p, solution)
    ensures SolvesGrid(StringBoard(solution), p)
  {
    GridValuesOfCells(p);
  }

  /** A full solution string has itself as its only solution. */
  lemma SolutionUnique(solution: string)
    requires IsBoardString(solution) && ValidBoard(StringBoard(solution))
    ensures UniqueSolutionOf(solution)
  {
    SolutionSolvesDug(solution, solution);
    GridValuesOfCells(solution);
    forall b: Board | SolvesGrid(b, solution)
      ensures b == StringBoard(solution)
    {
      assert forall c: Cell :: b[c] == StringBoard(solution)[c];
    }
  }

  /** Digging a puzzle that a valid solution solves never meets a
      contradiction. */
  lemma {:induction false} DigSucceeds(solution: string, p: string, order: seq<Cell>, difficulty: int, level: int)
    requires IsBoardString(solution) && ValidBoard(StringBoard(solution))
    requires Matches(p, solution)
    decreases order
    ensures Dig(p, order, difficulty, level, HasUniqueSolution).Ok?
  {
    if order != [] {
      var totry := p[order[0] := '.'];
      assert Matches(totry, solution);
      SolutionSolvesDug(totry, solution);
      ParseGridComplete(totry, StringBoard(solution));
      DigSucceeds(solution, p, order[1..], difficulty, level);
      DigSucceeds(solution, totry, order[1..], difficulty + 1, level);
    }
  }

  /** Digging only blanks cells. */
  lemma {:induction false} DigMatches(solution: string, p: string, order: seq<Cell>, difficulty: int, level: int, check: string -> Result<bool>)
    requires IsBoardString(solution) && Matches(p, solution)
    decreases order
    ensures Dig(p, order, difficulty, level, check).Ok? ==> Matches(Dig(p, order, difficulty, level, check).value, solution)
  {
    if order != [] {
      var totry := p[order[0] := '.'];
      assert Matches(totry, solution);
      DigMatches(solution, p, order[1..], difficulty, level, check);
      DigMatches(solution, totry, order[1..], difficulty + 1, level, check);
    }
  }

  /** Digging stops once `level` blanks are kept; one blank is always allowed. */
  lemma {:induction false} DigBlanks(p: string, order: seq<Cell>, difficulty: int, level: int, check: string -> Result<bool>)
    requires |p| == 81 && 0 <= difficulty && Blanks(p) <= difficulty
    requires difficulty == 0 || difficulty < level
    decreases order
    ensures Dig(p, order, difficulty, level, check).Ok? ==> Blanks(Dig(p, order, difficulty, level, check).value) <= Max(level, 1)
  {
    if order != [] {
      var totry := p[order[0] := '.'];
      BlanksBlankOne(p, order[0]);
      DigBlanks(p, order[1..], difficulty, level, check);
      if difficulty + 1 < level {
        DigBlanks(totry, order[1..], difficulty + 1, level, check);
      }
    }
  }

  /** Every blank kept leaves the puzzle with exactly one solution. */
  lemma {:induction false} DigUnique(p: string, order: seq<Cell>, difficulty: int, level: int)
    requires |p| == 81 && UniqueSolutionOf(p)
    decreases order
    ensures Dig(p, order, difficulty, level, HasUniqueSolution).Ok? ==>
              UniqueSolutionOf(Dig(p, order, difficulty, level, HasUniqueSolution).value)
  {
    if order != [] {
      var totry := p[order[0] := '.'];
      HasUniqueSolutionCorrect(totry);
      DigUnique(p, order[1..], difficulty, level);
      if HasUniqueSolution(totry) == Ok(true) {
        DigUnique(totry, order[1..], difficulty + 1, level);
      }
    }
  }

  /** Whenever a solution is generated a puzzle is produced: it is the
      solution with at most `level` cells blanked (at least one is always
      tried), it has exactly one solution, and solving it gives back the
      generated solution. */
  lemma CreatePuzzleCorrect(level: int, attempts: seq<seq<Step>>, order: seq<Cell>)
    ensures CreatePuzzle(level, attempts, order).Some? <==> RandomPuzzle(attempts).Some?
    ensures CreatePuzzle(level, attempts, order).Some? ==>
              var pz := CreatePuzzle(level, attempts, order).value;
              && pz.solution == RandomPuzzle(attempts).value
              && IsBoardString(pz.solution)
              && ValidBoard(StringBoard(pz.solution))
              && Matches(pz.puzzle, pz.solution)
              && Blanks(pz.puzzle) <= Max(level, 1)
              && HasUniqueSolution(pz.puzzle) == Ok(true)
              && Solve(pz.puzzle) == Ok(Embed(StringBoard(pz.solution)))
  {
    if RandomPuzzle(attempts).Some? {
      RandomPuzzleValid(attempts);
      DigFromSolution(RandomPuzzle(attempts).value, order, level);
    }
  }

  /** Digging a valid solution from scratch always yields a puzzle, and the
      puzzle has the properties `createPuzzle` promises. */
  lemma DigFromSolution(solution: string, order: seq<Cell>, level: int)
    requires IsBoardString(solution) && ValidBoard(StringBoard(solution))
    ensures Dig(solution, order, 0, level, HasUniqueSolution).Ok?
    ensures var p := Dig(solution, order, 0, level, HasUniqueSolution).value;
              && Matches(p, solution)
              && Blanks(p) <= Max(level, 1)
              && HasUniqueSolution(p) == Ok(true)
              && Solve(p) == Ok(Embed(StringBoard(solution)))
  {
    SolutionUnique(solution);
    assert Blanks(solution) == 0 by {
      BlanksNone(solution);
    }
    DigSucceeds(solution, solution, order, 0, level);
    DigMatches(solution, solution, order, 0, level, HasUniqueSolution);
    DigBlanks(solution, order, 0, level, HasUniqueSolution);
    DigUnique(solution, order, 0, level);
    var p := Dig(solution, order, 0, level, HasUniqueSolution).value;
    HasUniqueSolutionCorrect(p);
    SolutionSolvesDug(p, solution);
    SolveUnique(p, StringBoard(solution));
  }

  lemma {:induction false} BlanksNone(p: string)
    requires forall i :: 0 <= i < |p| ==> p[i] != '.'
    ensures Blanks(p) == 0
  {
    if p != [] {
      BlanksNone(p[1..]);
    }
  }
}
