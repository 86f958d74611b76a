/** Reading a grid string: `gridValues` keeps the characters that denote a
    cell ('1'..'9', '0' and '.'), gives the i-th kept one to cell i, and
    `parseGrid` assigns every given digit, in cell order, starting from the
    state where every digit is possible. */
module Parsing {
  import opened Outcomes
  import opened Topology
  import opened Candidates
  import opened Propagation
  import opened PropagationAllows
  import opened PropagationConsistent

  predicate IsDigitChar(ch: char) {
    '1' <= ch <= '9'
  }

  /** A character that denotes a cell: a digit, or '0' or '.' for a blank. */
  predicate IsGridChar(ch: char) {
    IsDigitChar(ch) || ch == '0' || ch == '.'
  }

  function CharDigit(ch: char): (d: Digit)
    requires IsDigitChar(ch)
  {
    (ch as int) - ('0' as int)
  }

  function DigitChar(d: Digit): (ch: char)
    ensures IsDigitChar(ch) && CharDigit(ch) == d
  {
    (('0' as int) + d) as char
  }

  lemma CharDigitRoundTrip(ch: char)
    requires IsDigitChar(ch)
    ensures DigitChar(CharDigit(ch)) == ch
  {
  }

  /** The characters of `grid` that denote cells, in order. */
  function GridChars(grid: string): (cs: string)
    ensures forall i :: 0 <= i < |cs| ==> IsGridChar(cs[i])
    ensures (forall i :: 0 <= i < |grid| ==> IsGridChar(grid[i])) ==> cs == grid
    ensures |cs| <= |grid|
  {
    if grid == [] then []
    else (if IsGridChar(grid[0]) then [grid[0]] else []) + GridChars(grid[1..])
  }

  /** Filtering a concatenation filters each part. */
  lemma {:induction false} GridCharsConcat(a: string, b: string)
    ensures GridChars(a + b) == GridChars(a) + GridChars(b)
  {
    if a == [] {
      assert a + b == b;
    } else {
      var head := if IsGridChar(a[0]) then [a[0]] else [];
      assert (a + b)[0] == a[0] && (a + b)[1..] == a[1..] + b;
      GridCharsConcat(a[1..], b);
      assert GridChars(a + b) == head + (GridChars(a[1..]) + GridChars(b));
    }
  }

  /** A cell character is kept and any other character is dropped. */
  lemma GridCharsOne(ch: char)
    ensures GridChars([ch]) == if IsGridChar(ch) then [ch] else []
  {
    assert [ch][1..] == [];
  }

  /** The character each cell receives; cells beyond the kept characters
      receive none (the solver's map then holds `undefined` there). */
  function GridValues(grid: string): (vals: seq<Option<char>>)
    ensures |vals| == 81
  {
    var cs := GridChars(grid);
    seq(81, i => if 0 <= i < |cs| then Some(cs[i]) else None)
  }

  /** The cell numbered by how many cell characters precede a cell
      character receives that character. */
  lemma GridValuesAt(a: string, ch: char, b: string)
    requires IsGridChar(ch) && |GridChars(a)| < 81
    ensures GridValues(a + [ch] + b)[|GridChars(a)|] == Some(ch)
  {
    GridCharsConcat(a + [ch], b);
    GridCharsConcat(a, [ch]);
    GridCharsOne(ch);
    assert GridChars(a + [ch] + b) == GridChars(a) + [ch] + GridChars(b);
  }

  /** The cells beyond the cell characters of a short grid receive none. */
  lemma GridValuesBeyond(grid: string, c: Cell)
    requires |GridChars(grid)| <= c
    ensures GridValues(grid)[c] == None
  {
  }

  /** A string of 81 cell characters gives every cell its own character. */
  lemma GridValuesOfCells(grid: string)
    requires |grid| == 81 && forall i :: 0 <= i < 81 ==> IsGridChar(grid[i])
    ensures forall c: Cell :: GridValues(grid)[c] == Some(grid[c])
  {
  }

  /** The cell holds a given digit. */
  predicate IsGiven(o: Option<char>) {
    o.Some? && IsDigitChar(o.value)
  }

  /** Board `b` has the given digit at every given cell. */
  ghost predicate Agrees(b: Board, vals: seq<Option<char>>)
    requires |vals| == 81
  {
    forall c: Cell :: IsGiven(vals[c]) ==> b[c] == CharDigit(vals[c].value)
  }

  /** Board `b` is a valid solution of the puzzle `grid`. */
  ghost predicate SolvesGrid(b: Board, grid: string) {
    ValidBoard(b) && Agrees(b, GridValues(grid))
  }

  /** Every given is fixed in `v`. */
  ghost predicate GivensFixed(v: Values, vals: seq<Option<char>>, n: int)
    requires |vals| == 81
  {
    forall c: Cell :: c < n && IsGiven(vals[c]) ==> v[c] == {CharDigit(vals[c].value)}
  }

  /** Assign the givens of cells `i..80` in order; a contradiction propagates out. */
  function ParseFrom(v: Values, vals: seq<Option<char>>, i: nat): (r: Result<Values>)
    requires |vals| == 81 && i <= 81
    decreases 81 - i
    ensures r.Ok? ==> Shrinks(v, r.value) && KeepsNonEmpty(v, r.value)
  {
    if i == 81 then Ok(v)
    else if IsGiven(vals[i]) then
      match Assign(v, i, CharDigit(vals[i].value))
      case Backtrack => Backtrack
      case Ok(v1) => ParseFrom(v1, vals, i + 1)
    else ParseFrom(v, vals, i + 1)
  }

  /** Assigning the remaining givens fixes each to its digit and empties no cell. */
  lemma {:induction false} ParseFromFixesGivens(v: Values, vals: seq<Option<char>>, i: nat)
    requires |vals| == 81 && i <= 81
    requires NoEmpty(v) && GivensFixed(v, vals, i)
    decreases 81 - i
    ensures ParseFrom(v, vals, i).Ok? ==>
              NoEmpty(ParseFrom(v, vals, i).value) && GivensFixed(ParseFrom(v, vals, i).value, vals, 81)
  {
    if i < 81 {
      if IsGiven(vals[i]) {
        var a := Assign(v, i, CharDigit(vals[i].value));
        if a.Ok? {
          forall c: Cell | c < i + 1 && IsGiven(vals[c])
            ensures a.value[c] == {CharDigit(vals[c].value)}
          {
            if c < i {
              assert v[c] == {CharDigit(vals[c].value)};
            }
          }
          ParseFromFixesGivens(a.value, vals, i + 1);
        }
      } else {
        ParseFromFixesGivens(v, vals, i + 1);
      }
    }
  }

  /** The candidate state of a grid string, or a dead end when its givens
      contradict each other. */
  function ParseGrid(grid: string): (r: Result<Values>)
    ensures r.Ok? ==> NoEmpty(r.value) && GivensFixed(r.value, GridValues(grid), 81)
  {
    ParseFromFixesGivens(Initial(), GridValues(grid), 0);
    ParseFrom(Initial(), GridValues(grid), 0)
  }

  lemma {:induction false} ParseFromSound(v: Values, vals: seq<Option<char>>, i: nat)
    requires |vals| == 81 && i <= 81
    requires Consistent(v) && GivensFixed(v, vals, i)
    decreases 81 - i
    ensures ParseFrom(v, vals, i).Ok? ==>
              Consistent(ParseFrom(v, vals, i).value) && GivensFixed(ParseFrom(v, vals, i).value, vals, 81)
  {
    if i < 81 {
      if IsGiven(vals[i]) {
        var a := Assign(v, i, CharDigit(vals[i].value));
        if a.Ok? {
          AssignKeepsConsistent(v, i, CharDigit(vals[i].value));
          ParseFromSound(a.value, vals, i + 1);
        }
      } else {
        ParseFromSound(v, vals, i + 1);
      }
    }
  }

  lemma {:induction false} ParseFromComplete(v: Values, vals: seq<Option<char>>, i: nat, b: Board)
    requires |vals| == 81 && i <= 81
    requires ValidBoard(b) && Allows(v, b) && Agrees(b, vals)
    decreases 81 - i
    ensures ParseFrom(v, vals, i).Ok? && Allows(ParseFrom(v, vals, i).value, b)
  {
    if i < 81 {
      if IsGiven(vals[i]) {
        AssignAllows(v, i, CharDigit(vals[i].value), b);
        ParseFromComplete(Assign(v, i, CharDigit(vals[i].value)).value, vals, i + 1, b);
      } else {
        ParseFromComplete(v, vals, i + 1, b);
      }
    }
  }

  /** A parsed grid is consistent and has every given fixed. */
  lemma ParseGridSound(grid: string)
    ensures ParseGrid(grid).Ok? ==> Consistent(ParseGrid(grid).value)
    ensures ParseGrid(grid).Ok? ==> GivensFixed(ParseGrid(grid).value, GridValues(grid), 81)
  {
    InitialConsistent();
    ParseFromSound(Initial(), GridValues(grid), 0);
  }

  /** A grid with a valid solution parses, and the parsed state allows it. */
  lemma ParseGridComplete(grid: string, b: Board)
    requires SolvesGrid(b, grid)
    ensures ParseGrid(grid).Ok? && Allows(ParseGrid(grid).value, b)
  {
    ParseFromComplete(Initial(), GridValues(grid), 0, b);
  }

  /** The valid boards a parsed state allows are exactly the valid solutions
      of the grid. */
  lemma ParseGridSolutions(grid: string, b: Board)
    requires ParseGrid(grid).Ok?
    ensures ValidBoard(b) && Allows(ParseGrid(grid).value, b) <==> SolvesGrid(b, grid)
  {
    ParseGridSound(grid);
    if SolvesGrid(b, grid) {
      ParseGridComplete(grid, b);
    }
  }
}
