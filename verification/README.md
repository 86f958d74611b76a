# Sudoku engine: constraint propagation, search, generation and session counters

This project models the puzzle engine of a Sudoku web app in Dafny and proves
properties of that model. The engine is a port of Peter Norvig's "Solving Every
Sudoku Puzzle" and is implemented in `src/lib/sudoku-generator.js`. The model
also covers three pieces of session state from `src/lib/settings.svelte.js`:
the stopwatch, the undo stack and the mistakes counter.

## The engine

- **Board** (`Topology`)
  - 81 cells, numbered row-major, and 27 units: 9 columns, then 9 rows, then 9 boxes.
  - Each cell has three units and 20 peers.
- **Candidates** (`Candidates`)
  - A candidate state gives every cell its set of still-possible digits.
  - `Consistent` is the invariant the solver keeps:
    - no cell is empty;
    - a fixed digit is absent from all of its cell's peers;
    - every digit keeps a place in every unit.
- **Propagation** (`Propagation`)
  - `eliminate` and `assign` are mutually recursive; every contradiction becomes `Backtrack`.
  - Separate modules prove that propagation keeps places (`PropagationPlaces`) and keeps fixed digits apart (`PropagationSingles`).
  - They also prove that it never removes a digit of a solution the state allows (`PropagationAllows`).
  - They also prove that a unit of the changed cell left with one place for the removed digit gets that digit assigned there (`PropagationHidden`).
  - `PropagationConsistent` combines the places and singles results into the solver's invariant. The `PropagationAllows` result is used separately, by the completeness of search.
- **Search** (`SearchEngine`, `SearchEngineFacts`)
  - Depth-first search branches on the first cell, in row-major order, with the fewest candidates above one.
  - Find-first mode is `Search`; enumerate mode is `SearchAll`.
  - `Enumerate` is the lazy generator pulled at most `k` times.
  - Proved: `SearchAll` is sound, complete and free of repeats, `Search` is its first element, and `Enumerate` is its prefix.
- **Parsing and solving** (`Parsing`, `Solver`)
  - `gridValues`, `parseGrid`, `solve` and `hasUniqueSolution`.
  - The main results are exact characterisations: `solve` succeeds iff the grid has a solution, and `hasUniqueSolution` returns true iff it has exactly one.
- **Generation** (`Generator`)
  - `randomPuzzle` fills a grid by random assignments, restarting on a contradiction.
  - `createPuzzle` blanks cells in random order while the puzzle stays uniquely solvable.
  - Randomness is an explicit parameter:
    - a `Step` names a cell and a pick among its candidates;
    - an attempt list stands for the successive restarts;
    - an `order` stands for the shuffled cells.
- **Session state** (`Clock`, `UndoStack`, `MistakeCounter`)
  - Pure functions over immutable records.
  - Events the undo stack dispatches are returned as a list.

The code returns the candidate state from `solve`, not a solved string, and that is what the model does. `Solve` yields a `Values` state, and `Candidates.BoardOf` reads the digits out of it.

## Model

| member | source | states |
|---|---|---|
| Topology.UnitsOf | src/lib/sudoku-generator.js:36 | a cell has exactly three units, and they are exactly the units that contain it |
| Topology.UnitCells | src/lib/sudoku-generator.js:34 | a unit lists exactly the cells of its column, row or box |
| Topology.PeerCells | src/lib/sudoku-generator.js:37 | the peers of a cell are exactly the other cells sharing a unit with it |
| TopologyCounts.PeerCount | src/lib/sudoku-generator.js:37 | every cell has exactly 20 peers, each listed once |
| TopologyCounts.UnitCount | src/lib/sudoku-generator.js:34 | every unit has exactly 9 cells, each listed once |
| Candidates.Initial | src/lib/sudoku-generator.js:44-45 | the starting state allows all nine digits in every cell |
| Candidates.Members | src/lib/sudoku-generator.js:77 | listing a domain gives exactly its digits, in ascending order |
| Candidates.InitialConsistent | src/lib/sudoku-generator.js:44-45 | the starting state satisfies the solver's invariant |
| Candidates.SolvedConsistentIsValid | src/lib/sudoku-generator.js:126-127 | a consistent state with one digit per cell is a valid Sudoku solution |
| Candidates.BoardOf | src/lib/sudoku-generator.js:181-182 | reading a solved state gives, for each cell, its only remaining digit |
| Propagation.Eliminate | src/lib/sudoku-generator.js:88-116 | removing an absent digit changes nothing; removing a cell's last digit is a contradiction; on success domains only shrink, none empties, and the digit is gone |
| Propagation.Remove | src/lib/sudoku-generator.js:92 | the digit leaves its cell and no other cell changes |
| Propagation.Propagate | src/lib/sudoku-generator.js:97-115 | the peer and unit follow-up of an elimination only shrinks domains and never empties one |
| Propagation.EliminateFromPeers | src/lib/sudoku-generator.js:100-102 | on success the digit is absent from every listed peer |
| Propagation.Places | src/lib/sudoku-generator.js:106 | the places of a digit are exactly the unit's cells that still allow it |
| Propagation.CheckUnits | src/lib/sudoku-generator.js:105-115 | the unit check only shrinks domains and never empties one |
| Propagation.Assign | src/lib/sudoku-generator.js:76-82 | on success the cell holds just the assigned digit; assigning a digit the cell does not allow is a contradiction |
| Propagation.EliminateDigits | src/lib/sudoku-generator.js:77-81 | on success none of the eliminated digits remains in the cell |
| PropagationPlaces.EliminatePlaces | src/lib/sudoku-generator.js:105-115 | after an elimination every unit still has a place for every digit it had a place for, including the removed digit in the cell's own units |
| PropagationPlaces.PropagatePlaces | src/lib/sudoku-generator.js:97-115 | the follow-up of an elimination keeps every place and leaves a place for the removed digit in each unit of the cell |
| PropagationPlaces.EliminateFromPeersPlaces | src/lib/sudoku-generator.js:100-102 | eliminating from peers keeps every place |
| PropagationPlaces.CheckUnitsPlaces | src/lib/sudoku-generator.js:105-115 | after the unit check every checked unit still has a place for the digit |
| PropagationPlaces.AssignPlaces | src/lib/sudoku-generator.js:76-82 | assignment keeps every place |
| PropagationPlaces.EliminateDigitsPlaces | src/lib/sudoku-generator.js:79-81 | eliminating several digits keeps every place |
| PropagationHidden.EliminateHidden | src/lib/sudoku-generator.js:105-115 | an elimination keeps every hidden single already fixed, and in each unit of the cell a single remaining place for the removed digit holds just that digit |
| PropagationHidden.PropagateHidden | src/lib/sudoku-generator.js:97-115 | the follow-up of an elimination fixes the removed digit at its only place in each unit of the cell, and keeps every hidden single already fixed |
| PropagationHidden.EliminateFromPeersHidden | src/lib/sudoku-generator.js:100-102 | eliminating from peers keeps every hidden single already fixed |
| PropagationHidden.CheckUnitsHidden | src/lib/sudoku-generator.js:105-115 | after the unit check, every checked unit with one place left for the digit has the digit assigned there |
| PropagationHidden.CheckUnitsHiddenOne | src/lib/sudoku-generator.js:112-115 | when the first unit has one place, assigning there and checking the other units keeps every hidden single and fixes those of all checked units |
| PropagationHidden.OnePlaceAssigned | src/lib/sudoku-generator.js:112-114 | a successful assignment at a unit's only place fixes that unit's hidden single |
| PropagationHidden.CheckUnitsHiddenRest | src/lib/sudoku-generator.js:105-115 | the units after the first keep the hidden single the first one fixed, and fix their own |
| PropagationHidden.AssignHidden | src/lib/sudoku-generator.js:76-82 | assignment keeps every hidden single already fixed |
| PropagationHidden.EliminateDigitsHidden | src/lib/sudoku-generator.js:79-81 | eliminating several digits keeps every hidden single already fixed |
| PropagationHidden.ManyPlacesVacuous | src/lib/sudoku-generator.js:106-114 | a unit with two or more places for the digit has no hidden single, since the places are listed once each |
| PropagationHidden.EliminateFixesHiddenSingles | src/lib/sudoku-generator.js:112-114 | after a successful elimination of a present digit, every unit of the cell whose place list for it has one entry holds just that digit there |
| PropagationSingles.EliminateSingles | src/lib/sudoku-generator.js:97-103 | a cell fixed by an elimination has its digit removed from all of its peers |
| PropagationSingles.PropagateSingles | src/lib/sudoku-generator.js:97-115 | when the cell is down to one digit, the follow-up removes that digit from all of its peers |
| PropagationSingles.EliminateFromPeersSingles | src/lib/sudoku-generator.js:100-102 | every cell newly fixed while eliminating from peers is apart from its peers |
| PropagationSingles.CheckUnitsSingles | src/lib/sudoku-generator.js:105-115 | every cell newly fixed by the unit check is apart from its peers |
| PropagationSingles.AssignSingles | src/lib/sudoku-generator.js:76-82 | every cell newly fixed by an assignment is apart from its peers |
| PropagationSingles.EliminateDigitsSingles | src/lib/sudoku-generator.js:79-81 | every cell newly fixed while eliminating several digits is apart from its peers |
| PropagationAllows.EliminateAllows | src/lib/sudoku-generator.js:88-116 | eliminating a digit that a valid solution does not put in the cell succeeds and keeps that solution allowed |
| PropagationAllows.PropagateAllows | src/lib/sudoku-generator.js:97-115 | the follow-up never rejects a solution the state allows |
| PropagationAllows.EliminateFromPeersAllows | src/lib/sudoku-generator.js:100-102 | eliminating a digit the solution does not use at the peers keeps it allowed |
| PropagationAllows.CheckUnitsAllows | src/lib/sudoku-generator.js:105-115 | the unit check never rejects, and never assigns against, an allowed solution |
| PropagationAllows.AssignAllows | src/lib/sudoku-generator.js:76-82 | assigning the solution's own digit succeeds and keeps the solution allowed |
| PropagationAllows.EliminateDigitsAllows | src/lib/sudoku-generator.js:79-81 | eliminating digits other than the solution's keeps it allowed |
| PropagationConsistent.AssignKeepsConsistent | src/lib/sudoku-generator.js:76-116 | a successful assignment on a consistent state gives a consistent state |
| SearchEngine.SelectCell | src/lib/sudoku-generator.js:129-131 | the branching cell has more than one candidate, no cell above one has fewer, and every earlier cell above one has strictly more; there is none iff no cell has more than one |
| SearchEngine.AssignProgress | src/lib/sudoku-generator.js:133-137 | a successful branch assignment strictly lowers the total candidate count |
| SearchEngine.Search | src/lib/sudoku-generator.js:125-144 | a found result is solved and only narrows the input |
| SearchEngine.SearchBranches | src/lib/sudoku-generator.js:133-143 | a result found among the branches is solved and narrows the input |
| SearchEngine.SearchBranch | src/lib/sudoku-generator.js:134-137 | a result found in one branch is solved and narrows the input |
| SearchEngine.SearchAll | src/lib/sudoku-generator.js:146-163 | every enumerated state is solved and narrows the input |
| SearchEngine.SearchAllBranches | src/lib/sudoku-generator.js:154-161 | every enumerated state is solved, narrows the input, and holds one of the tried digits at the branching cell |
| SearchEngine.SearchAllBranch | src/lib/sudoku-generator.js:155-158 | every state enumerated in a branch holds the branch's digit at the branching cell |
| SearchEngine.Enumerate | src/lib/sudoku-generator.js:196-201 | pulling at most k solutions yields at most k |
| SearchEngineFacts.SearchAllConsistent | src/lib/sudoku-generator.js:146-163 | from a consistent state, every enumerated solution is consistent |
| SearchEngineFacts.SearchAllComplete | src/lib/sudoku-generator.js:146-163 | every valid solution the state allows is enumerated |
| SearchEngineFacts.SearchAllDistinct | src/lib/sudoku-generator.js:146-163 | no solution is enumerated twice |
| SearchEngineFacts.SearchIsFirst | src/lib/sudoku-generator.js:125-144 | find-first search returns the first enumerated solution, or a dead end when there is none |
| SearchEngineFacts.EnumerateIsPrefix | src/lib/sudoku-generator.js:146-163 | the lazy enumeration pulled k times gives the first k solutions of the full enumeration |
| SearchEngineFacts.ExactlyOneIffUnique | src/lib/sudoku-generator.js:193-204 | on a consistent state, exactly one solution is enumerated iff exactly one valid solution is allowed |
| SearchEngineFacts.SearchCorrect | src/lib/sudoku-generator.js:125-144 | on a consistent state, search succeeds iff some valid solution is allowed, and what it returns is one |
| Parsing.DigitChar | src/lib/sudoku-generator.js:32 | every digit has a digit character that reads back as it |
| Parsing.CharDigitRoundTrip | src/lib/sudoku-generator.js:32 | a digit character converts to its digit and back unchanged |
| Parsing.GridChars | src/lib/sudoku-generator.js:61 | the filter keeps only digits, '0' and '.', and keeps a clean grid unchanged |
| Parsing.GridCharsConcat | src/lib/sudoku-generator.js:61 | filtering a concatenation gives the concatenation of the filtered parts, so order is kept |
| Parsing.GridCharsOne | src/lib/sudoku-generator.js:61 | a single cell character is kept and any other character is dropped |
| Parsing.GridValues | src/lib/sudoku-generator.js:59-70 | the cell map always has 81 entries |
| Parsing.GridValuesAt | src/lib/sudoku-generator.js:61-67 | a cell character preceded by k cell characters, with k below 81, is what cell k receives, whatever other characters surround it |
| Parsing.GridValuesBeyond | src/lib/sudoku-generator.js:65-67 | when the grid has fewer cell characters than a cell's number, that cell receives nothing |
| Parsing.GridValuesOfCells | src/lib/sudoku-generator.js:59-70 | for an 81-character clean grid, cell c holds the c-th character |
| Parsing.ParseFrom | src/lib/sudoku-generator.js:47-51 | assigning the givens only narrows the state and never empties a cell |
| Parsing.ParseFromFixesGivens | src/lib/sudoku-generator.js:47-51 | assigning the givens from a state with no empty cell fixes every given to its digit and empties no cell |
| Parsing.ParseGrid | src/lib/sudoku-generator.js:43-54 | a parsed grid has no empty cell and every given fixed to its digit; ParseGridSolutions gives the solutions it allows |
| Parsing.ParseFromSound | src/lib/sudoku-generator.js:43-54 | assigning the givens keeps the state consistent and fixes every given |
| Parsing.ParseFromComplete | src/lib/sudoku-generator.js:43-54 | a valid solution agreeing with the givens is never rejected by parsing |
| Parsing.ParseGridSound | src/lib/sudoku-generator.js:43-54 | a parsed grid is consistent and has every given fixed to its digit |
| Parsing.ParseGridComplete | src/lib/sudoku-generator.js:43-54 | if some valid solution agrees with the givens, parsing succeeds and allows it |
| Parsing.ParseGridSolutions | src/lib/sudoku-generator.js:43-54 | the valid solutions a parsed grid allows are exactly the valid solutions agreeing with its givens |
| Solver.Solve | src/lib/sudoku-generator.js:118-120 | a successful solve returns a solved state |
| Solver.SolveCorrect | src/lib/sudoku-generator.js:118-120 | solving succeeds iff the grid has a solution, and the result is one |
| Solver.SolveUnique | src/lib/sudoku-generator.js:118-120 | a grid with exactly one solution solves to that solution |
| Solver.HasUniqueSolution | src/lib/sudoku-generator.js:193-204 | the check fails only when parsing does, and pulling two solutions answers true iff the full enumeration finds exactly one; HasUniqueSolutionCorrect ties that to the grid's solutions |
| Solver.HasUniqueSolutionCorrect | src/lib/sudoku-generator.js:193-204 | the check answers true iff the grid has exactly one solution |
| Generator.BoardString | src/lib/sudoku-generator.js:181-182 | a board is written as 81 digit characters, cell by cell |
| Generator.StringBoard | src/lib/sudoku-generator.js:181-182 | a board string reads back as the board whose digits it spells |
| Generator.BoardStringRoundTrip | src/lib/sudoku-generator.js:181-182 | writing a board and reading it back gives the board |
| Generator.StringBoardRoundTrip | src/lib/sudoku-generator.js:181-182 | reading a board string and writing it back gives the string |
| Generator.RandomValue | src/lib/sudoku-generator.js:189-191 | the drawn digit is a candidate of the domain |
| Generator.RandomValueCovers | src/lib/sudoku-generator.js:189-191 | every candidate of the domain can be drawn |
| Generator.Choose | src/lib/sudoku-generator.js:171 | a successful random assignment fixes the cell and only narrows the state |
| Generator.Fill | src/lib/sudoku-generator.js:169-184 | a pass that produces a grid has every cell fixed and only narrowed the start |
| Generator.FillConsistent | src/lib/sudoku-generator.js:169-184 | a pass started from a consistent state ends in a consistent state |
| Generator.Pass | src/lib/sudoku-generator.js:166-184 | a pass from the all-candidates state that produces a grid has every cell fixed |
| Generator.RandomPuzzle | src/lib/sudoku-generator.js:165-187 | a generated grid is an 81-digit string |
| Generator.RandomPuzzleNone | src/lib/sudoku-generator.js:165-187 | no grid comes out iff every attempted pass fails |
| Generator.RandomPuzzleFirst | src/lib/sudoku-generator.js:165-187 | the grid that comes out is the one of the first successful pass |
| Generator.RandomPuzzleValid | src/lib/sudoku-generator.js:165-187 | a generated grid is a valid Sudoku solution |
| Generator.Dig | src/lib/sudoku-generator.js:212-225 | digging keeps the puzzle 81 characters long |
| Generator.SolutionSolvesDug | src/lib/sudoku-generator.js:210-218 | a puzzle made by blanking cells of a valid solution is solved by that solution |
| Generator.SolutionUnique | src/lib/sudoku-generator.js:207-210 | a full valid grid has exactly one solution, itself |
| Generator.DigSucceeds | src/lib/sudoku-generator.js:212-225 | digging a blanked copy of a valid solution never hits a parse contradiction |
| Generator.DigMatches | src/lib/sudoku-generator.js:213-219 | every dug cell is either blank or keeps the solution's digit |
| Generator.DigBlanks | src/lib/sudoku-generator.js:220-223 | digging stops after at most `level` blanks, and at most one when `level` is below one |
| Generator.DigUnique | src/lib/sudoku-generator.js:215-219 | every kept blank leaves the puzzle with exactly one solution |
| Generator.DigFromSolution | src/lib/sudoku-generator.js:210-225 | digging a valid solution always yields a puzzle that matches it, has at most `level` blanks, has exactly one solution and solves back to it |
| Generator.CreatePuzzle | src/lib/sudoku-generator.js:206-231 | a puzzle comes out iff a solution was generated, and it carries that solution; CreatePuzzleCorrect states the rest |
| Generator.CreatePuzzleCorrect | src/lib/sudoku-generator.js:206-231 | a puzzle comes out iff a solution was generated; it is that solution with at most `level` blanks, it has exactly one solution, and solving it returns the solution |
| Clock.Time | src/lib/settings.svelte.js:100-102 | on normal counters the reading gives back the seconds past the minute, the minutes past the hour and the whole hours; SetTimeOfTime is the round trip |
| Clock.JsRem | src/lib/settings.svelte.js:104-105 | the remainder agrees with the mathematical one on non-negative values and truncates toward zero on negative ones |
| Clock.SetTime | src/lib/settings.svelte.js:103-107 | setting a non-negative time gives seconds and minutes below 60 that add up to that time; ticking is unchanged |
| Clock.SetTimeOfTime | src/lib/settings.svelte.js:100-107 | setting the time a stopwatch reads gives back the same stopwatch |
| Clock.Stop | src/lib/settings.svelte.js:67-72 | stopping ends ticking and changes nothing else |
| Clock.Start | src/lib/settings.svelte.js:74-86 | starting makes the stopwatch tick and changes nothing else |
| Clock.Reset | src/lib/settings.svelte.js:88-93 | resetting gives a stopped stopwatch at zero |
| Clock.TickAsWritten | src/lib/settings.svelte.js:76-85 | a tick as written in the source does not change whether the stopwatch is ticking |
| Clock.TickAsWrittenWithinHour | src/lib/settings.svelte.js:76-85 | away from the hour boundary a tick as written adds one second |
| Clock.TickAsWrittenSkipsAnHour | src/lib/settings.svelte.js:76-85 | at 0:59:59 a tick as written reads 7200 seconds instead of 3600, with the minutes left at 60 |
| Clock.ElapseAsWritten | src/lib/settings.svelte.js:76-85 | running n ticks as written does not change whether the stopwatch is ticking |
| Clock.ElapseAsWrittenWithinHour | src/lib/settings.svelte.js:76-85 | n ticks as written that do not reach the end of the hour add n seconds and leave the hours alone |
| Clock.ElapseAgreesWithinHour | src/lib/settings.svelte.js:76-85 | n ticks as written and n corrected ticks give the same counters until the end of the hour |
| Clock.Tick | src/lib/settings.svelte.js:76-85 | the corrected tick does not change whether the stopwatch is ticking |
| Clock.TickAdvances | src/lib/settings.svelte.js:76-85 | the corrected tick always adds exactly one second and keeps seconds and minutes below 60 |
| Clock.TickAgreesWithinHour | src/lib/settings.svelte.js:76-85 | the corrected tick equals the one as written except at the hour boundary |
| Clock.Elapse | src/lib/settings.svelte.js:76-85 | running n corrected ticks does not change whether the stopwatch is ticking |
| Clock.ElapseAdvances | src/lib/settings.svelte.js:76-85 | n corrected ticks add n seconds and equal setting the time n seconds later; the ticks as written do so only within the hour (ElapseAgreesWithinHour) |
| UndoStack.Push | src/lib/settings.svelte.js:135-139 | pushing puts the command on top, keeps the rest of the stack, and dispatches its redo event |
| UndoStack.Undo | src/lib/settings.svelte.js:127-133 | undo on an empty stack does nothing; otherwise it pops the top command and dispatches its undo event |
| UndoStack.Clear | src/lib/settings.svelte.js:141-145 | clearing empties the stack, dispatches nothing and resets the stopwatch |
| UndoStack.Replay | src/lib/settings.svelte.js:147-151 | replay dispatches every redo event, bottom of the stack first |
| UndoStack.PushThenUndo | src/lib/settings.svelte.js:127-139 | undo right after a push restores the history and dispatches the command's undo event |
| UndoStack.ReplayAfterPush | src/lib/settings.svelte.js:135-151 | after a push, replay dispatches the old replay followed by the new redo event |
| UndoStack.UndoTimes | src/lib/settings.svelte.js:127-133 | repeated undo never touches the stopwatch |
| UndoStack.Reverts | src/lib/settings.svelte.js:127-133 | lists the undo events of a stack, top first |
| UndoStack.UndoEverything | src/lib/settings.svelte.js:127-133 | undoing at least as often as the stack is deep empties it and dispatches every undo event, top first |
| UndoStack.UndoNothing | src/lib/settings.svelte.js:127-133 | undo on an empty stack, any number of times, does nothing |
| MistakeCounter.Increment | src/lib/settings.svelte.js:200-204 | a mistake counts one more unless the counter is frozen |
| MistakeCounter.Reset | src/lib/settings.svelte.js:206-208 | resetting brings the count to zero, frozen or not |
| MistakeCounter.WithFreeze | src/lib/settings.svelte.js:210-217 | the counter is unfrozen afterwards, whether or not the body throws, and the throw passes through |
| MistakeCounter.FrozenRun | src/lib/settings.svelte.js:200-208 | while frozen, increments change nothing and only a reset changes the count |
| MistakeCounter.WithFreezeCountsNothing | src/lib/settings.svelte.js:200-217 | mistakes inside the body are not counted, and the next one after it is |
| MistakeCounter.UnfrozenRun | src/lib/settings.svelte.js:200-204 | while unfrozen and without a reset, the count grows by the number of increments |

## Left out

- Logging: the `console.log` in `gridValues` has no effect on the result.
- `sudoku-grid-util.js` is not part of this model, so the board structure is defined directly.
  - The structure is Norvig's: columns, then rows, then boxes.
  - A cell's units are visited column, row, box, and its peers in row-major order: peers and units are taken in the order `Topology` lists them. This is a modelling choice.
- Set iteration order: candidates are listed in ascending order. This matches insertion order, because the solver builds every domain by filtering the digit set `1`..`9`.
- Randomness:
  - `getRandomInt` is a natural number `pick`, reduced modulo the domain size.
  - `shuffle` is an arbitrary list of cells. The model does not require it to be a permutation, and every property holds for any list.
- Generator.RandomPuzzle: the source restarts without bound, so the model takes a finite list of attempts and yields `None` when every attempt fails. It is weaker than the source only in that termination of the unbounded retry is not modelled.
- Generator.Fill: a pass that runs out of steps without fixing every cell yields `None`. With the full shuffled cell list this restarts the search, as in the source.
- Crashes: the TypeError that search raises on a state with an empty cell, when no cell has two or more candidates, is modelled as a dead end. Every enclosing `catch` handles the two alike.
- Uncaught exceptions: a contradiction while parsing the givens propagates out of `parseGrid`, `solve` and `hasUniqueSolution` in the source. The model returns it as `Backtrack`.
- Mutation and aliasing:
  - The source's branches copy the map shallowly but replace each domain with a new set instead of mutating it.
  - Value semantics therefore match it, and the model's states are plain values.
- Generator.CreatePuzzle: `level` is an integer defaulting to 81 (`Generator.DefaultLevel`).
  - The named difficulty table and the `level` export are not modelled.
  - A level that is not a number makes the comparison always false. That behaves like a level above 81 and is not modelled separately.
- Clock.SetTime: takes an integer number of seconds. `Math.floor` on fractional values is not modelled, and its contract promises nothing for negative times beyond the truncating remainder.
- Timers: the `setInterval` timer is not modelled. `Clock.TickAsWritten` is one callback run and `Clock.ElapseAsWritten` is n of them. `Clock.Tick` and `Clock.Elapse` are the corrected callback from the finding below.
- Persistence: localStorage is not modelled, including the stack and time loaded at start-up and the saves after each change. Neither are Svelte `$state` reactivity, the `EventTarget` plumbing, `addEventListener` or `removeEventListener`.
  - Dispatched events are returned as a list of event values.
- MistakeCounter.WithFreeze: the body is a list of counter calls plus whether it throws. The body's other effects are not modelled, nor is a nested `withFreeze`: an inner `finally` unfreezes the outer body.
- Out of scope: `MistakeCounter.Limit` is defined but only compared by the UI, and the `game`, `level` and `createPromiser` stores are not modelled.
- Out of scope: `actions.js`, `bus.js`, `bench.js` and the route files are UI glue or benchmarks.

## Findings

| source | as written | input that shows it | evidently intended | confidence | as-written member | corrected member |
|---|---|---|---|---|---|---|
| src/lib/settings.svelte.js:81-83 | when the minutes reach 60 the hours go up, but the minutes are never reset to 0 | a ticking stopwatch at 0 h 59 min 59 s: one tick gives 1 h 60 min 0 s, so `time` reads 7200 instead of 3600 | on reaching 60 minutes, set the minutes to 0 and add an hour | not executed | Clock.TickAsWrittenSkipsAnHour | Clock.TickAdvances |
