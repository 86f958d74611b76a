/** `solve` and `hasUniqueSolution`: parse a grid string, then search. */
module Solver {
  import opened Outcomes
  import opened Candidates
  import opened Parsing
  import opened SearchEngine
  import opened SearchEngineFacts

  /** The puzzle `grid` has exactly one valid solution. */
  ghost predicate UniqueSolutionOf(grid: string) {
    && (exists b: Board :: SolvesGrid(b, grid))
    && (forall b1: Board, b2: Board :: SolvesGrid(b1, grid) && SolvesGrid(b2, grid) ==> b1 == b2)
  }

  /** The first solution found, as a candidate state with every cell fixed;
      a contradiction in the givens or an unsolvable grid is a dead end. */
  function Solve(grid: string): (r: Result<Values>)
    ensures r.Ok? ==> Solved(r.value)
  {
    match ParseGrid(grid)
    case Backtrack => Backtrack
    case Ok(v) => Search(v)
  }

  /** Pull at most two solutions from the enumeration of the parsed grid and
      report whether exactly one came; givens that contradict each other
      make parsing fail, and that failure propagates. */
  function HasUniqueSolution(grid: string): (r: Result<bool>)
    ensures r.Ok? <==> ParseGrid(grid).Ok?
    ensures r.Ok? ==> (r.value <==> |SearchAll(ParseGrid(grid).value)| == 1)
  {
    match ParseGrid(grid)
    case Backtrack => Backtrack
    case Ok(v) =>
      EnumerateIsPrefix(v, 2);
      Ok(|Enumerate(v, 2)| == 1)
  }

  /** Puzzle boards and the solutions of the parsed state are the same thing. */
  lemma ParsedSolves(grid: string)
    requires ParseGrid(grid).Ok?
    ensures forall b: Board :: Solves(ParseGrid(grid).value, b) <==> SolvesGrid(b, grid)
  {
    forall b: Board
      ensures Solves(ParseGrid(grid).value, b) <==> SolvesGrid(b, grid)
    {
      ParseGridSolutions(grid, b);
    }
  }

  /** `solve` succeeds exactly on the grids that have a valid solution, and
      what it returns is one. */
  lemma SolveCorrect(grid: string)
    ensures Solve(grid).Ok? <==> exists b: Board :: SolvesGrid(b, grid)
    ensures Solve(grid).Ok? ==> SolvesGrid(BoardOf(Solve(grid).value), grid)
  {
    if ParseGrid(grid).Ok? {
      ParseGridSound(grid);
      ParsedSolves(grid);
      SearchCorrect(ParseGrid(grid).value);
    } else if exists b: Board :: SolvesGrid(b, grid) {
      var b: Board :| SolvesGrid(b, grid);
      ParseGridComplete(grid, b);
    }
  }

  /** A grid with one solution is solved to exactly that board. */
  lemma SolveUnique(grid: string, b: Board)
    requires UniqueSolutionOf(grid) && SolvesGrid(b, grid)
    ensures Solve(grid) == Ok(Embed(b))
  {
    SolveCorrect(grid);
    var r := Solve(grid).value;
    assert BoardOf(r) == b;
    EmbedBoardOf(r);
  }

  /** `hasUniqueSolution` says yes exactly for the puzzles with one valid
      solution. */
  lemma HasUniqueSolutionCorrect(grid: string)
    ensures HasUniqueSolution(grid) == Ok(true) <==> UniqueSolutionOf(grid)
  {
    if ParseGrid(grid).Ok? {
      var v := ParseGrid(grid).value;
      ParseGridSound(grid);
      ParsedSolves(grid);
      ExactlyOneIffUnique(v);
    } else if exists b: Board :: SolvesGrid(b, grid) {
      var b: Board :| SolvesGrid(b, grid);
      ParseGridComplete(grid, b);
    }
  }
}
