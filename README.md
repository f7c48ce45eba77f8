# Sudoku.js and the ranking helper, modelled in Dafny

This project models the core of the Sudoku.js library:

- the board geometry: squares, units and peers;
- board validation and the grid/string conversions;
- constraint propagation (`_assign` / `_eliminate`, mutually recursive and
  updating the candidate map in place);
- depth-first search and `solve`;
- `get_candidates`;
- the puzzle generator (`generate`) with its difficulty table and the
  `_force_range` clamp;
- the small utilities `_in`, `_cross`, `_shuffle`, `_strip_dups` and
  `_force_range`.

It also models the application's `findRelativedRank` helper and its
comparator `sortByNum`. That helper turns a list of scores into
"Gold Medal" / "Silver Medal" / "Bronze Medal" / "4" / "5" / … labels by
position.

Representation:

- Squares are the indices 0..80, row-major: square `9 * r + c` is the label
  `ROWS[r] + COLS[c]`. `Topology.Label` renders that label and is proved
  injective.
- A candidate map is an `array<string>` of length 81, one string of
  remaining digits per square.
- A thrown error is `Result.Error(message)`, with the library's message.
- A `false` or `undefined` return is `Option.None`.
- Random numbers (`_rand_range`) are parameters, each reduced modulo the
  range: the probes of the square shuffle, the candidate pick of each step,
  and for each step its own list of probes for the givens shuffle that step
  would run.

What is proved, in outline:

- Propagation never loses a solution that agrees with the map, and
  never leaves a square empty when it reports success.
- `solve` returns a real solution that agrees with the givens whenever it
  returns a board.
- When `solve` answers `false`, no solution agrees with the board.
- `generate` only returns valid boards with exactly the clamped number of
  givens that have at least one solution.
- `findRelativedRank` returns, for each score, the label of its place under
  a stable descending sort.

Modules, in dependency order:

`Base` → `Utility` → `Topology` → `Solutions` → `Candidates` → `Search` →
`Board` → `Sudoku` → `Generator`, plus `Ranking`, which stands apart.

## Model

| member | source | states |
|---|---|---|
| Base.NatToString | src/common/js/util.js:56 | `idx + 1 + ''` renders a number as a non-empty string of decimal digits |
| Base.ParseNatToString | src/common/js/util.js:56 | reading the rendered number back gives the number |
| Base.NatToStringInjective | src/common/js/util.js:56 | different numbers render as different strings |
| Base.JoinStep | src/common/js/sudoku.js:203-206 | `solution += result[square]` appends one more square to the joined string |
| Topology.Cross | src/common/js/sudoku.js:688-700 | `_cross(a, b)` pairs every element of `a` with every element of `b`, in row-major order |
| Topology.SquaresInOrder | src/common/js/sudoku.js:45 | `_cross(ROWS, COLS)` lists the 81 squares in order 0..80 |
| Topology.GetAllUnits | src/common/js/sudoku.js:560-585 | builds the 9 rows, then the 9 columns, then the 9 boxes, which is exactly the 27 units |
| Topology.RowUnitIsCross | src/common/js/sudoku.js:566-568 | the crossed row `rows[r] × cols` is row unit `r` |
| Topology.ColUnitIsCross | src/common/js/sudoku.js:571-573 | the crossed column `rows × cols[c]` is column unit `9 + c` |
| Topology.BoxUnitIsCross | src/common/js/sudoku.js:576-582 | the crossed box `rowSquares[rsi] × colSquares[csi]` is box unit `18 + 3 * rsi + csi` |
| Topology.GetSquareUnitsMap | src/common/js/sudoku.js:497-524 | each square is mapped to the units that contain it, in unit order |
| Topology.UnitsOfSquare | src/common/js/sudoku.js:497-524 | the units containing square `s` are its row, its column and its box |
| Topology.GetSquarePeersMap | src/common/js/sudoku.js:526-558 | each square is mapped to the first occurrences of the other squares of its units |
| Topology.PeersMembers | src/common/js/sudoku.js:526-558 | the peers of `s` have no duplicates, exclude `s`, and are exactly the squares sharing a unit with `s` |
| Topology.PeersCount | src/common/js/sudoku.js:526-558 | every square has exactly 20 peers |
| Topology.PeersSymmetric | src/common/js/sudoku.js:526-558 | `t` is a peer of `s` if and only if `s` is a peer of `t` |
| Topology.InUnit | src/common/js/sudoku.js:560-585 | `x` is in unit `u` if and only if `u` is `x`'s row, column or box |
| Topology.UnitShape | src/common/js/sudoku.js:560-585 | every unit has 9 distinct squares sharing its row, column or box |
| Topology.InSquareUnits | src/common/js/sudoku.js:536-550 | a square occurs in `s`'s units if and only if it shares a unit with `s` |
| Topology.Initialize | src/common/js/sudoku.js:42-49 | `initialize` sets up the squares, the 27 units, the units map and the peers map |
| Topology.LabelInjective | src/common/js/sudoku.js:13-15 | square labels `ROWS[r] + COLS[c]` are distinct for distinct squares |
| Solutions.DigitInUnit | src/common/js/sudoku.js:458-461 | every digit occurs somewhere in every unit of a solution, so each unit has some place for each value |
| Candidates.RemoveFirst | src/common/js/sudoku.js:386 | `replace(val, '')` removes the first occurrence only: one character shorter if present, unchanged if absent, no duplicates created |
| Candidates.Eliminate | src/common/js/sudoku.js:406-474 | returns the map unchanged if `val` is absent; on success `val` is gone, every decided square's value is cleared from its peers, `val` keeps a place in each unit of the square and a single place is assigned `val`, and every unit whose places for a digit dropped to one has that digit assigned there; no solution compatible with the map and differing at the square is lost; `false` only when no such solution exists |
| Candidates.ClearPeers | src/common/js/sudoku.js:425-438 | when one candidate `t` is left, it is eliminated from every peer; failure only when every compatible solution is excluded |
| Candidates.CheckUnits | src/common/js/sudoku.js:447-471 | for each unit of the square: no place for `val` fails, one place assigns it there; on success every unit keeps a place for `val`, and where only one is left that square is exactly `[val]` |
| Candidates.SinglePlacedKept | src/common/js/sudoku.js:463-469 | once a digit's only place in a unit holds exactly that digit, later propagation keeps it so |
| Candidates.UnitPlaces | src/common/js/sudoku.js:451-457 | computes the squares of a unit that still hold `val`, in unit order |
| Candidates.Assign | src/common/js/sudoku.js:377-404 | eliminates every other value at the square; on success the square is exactly `[val]`, and no solution with `val` there is lost |
| Candidates.RemoveStep | src/common/js/sudoku.js:420-421 | removing `val` keeps the map well formed and shrinks the total; it changes no place list other than those for `val` in the square's own units; it keeps every solution that differs at the square |
| Candidates.ShrinksTotal | src/common/js/sudoku.js:406-474 | the candidate count never grows, so the mutual recursion terminates |
| Candidates.ShrinksTotalStrict | src/common/js/sudoku.js:421 | a strictly shorter square strictly lowers the total |
| Candidates.ProgressTrans | src/common/js/sudoku.js:377-474 | the propagation invariant (shrinking, non-empty squares kept, decided values cleared from peers, unit places kept, single places assigned) composes across calls |
| Candidates.ConsistentKept | src/common/js/sudoku.js:377-474 | propagation keeps a consistent map consistent: no two peers decided to the same digit |
| Candidates.FullMapFacts | src/common/js/sudoku.js:264-267 | the all-digits starting map is well formed and consistent, and every solution is compatible with it |
| Candidates.DecidedSolution | src/common/js/sudoku.js:316-318 | a consistent map with one candidate everywhere spells a solution, and it is the only compatible one |
| Search.MaxCandidates | src/common/js/sudoku.js:304-315 | computes the largest candidate count over all squares (0 for an all-empty map) |
| Search.FewestCandidates | src/common/js/sudoku.js:320-332 | picks the first square with the fewest candidates above one (and below ten), or none when there is no such square |
| Search.FewestSquareUnique | src/common/js/sudoku.js:320-332 | the square the search branches on is unique |
| Search.Search | src/common/js/sudoku.js:288-375 | a returned map is fully decided and refines the input; when it came from branching, the branch square holds one of its candidates and every candidate tried before it (earlier in the string, or later in reverse mode) allows no solution; `false` means no solution is compatible; an error is thrown only in reverse mode on an all-empty map (`minCandidates` undefined) |
| Search.TryValue | src/common/js/sudoku.js:340-371 | trying one value on a copy finds an outcome whenever a compatible solution has that value there; an outcome holds exactly that value at the square |
| Search.NoneLeft | src/common/js/sudoku.js:316-375 | when no square holds between 2 and 9 candidates and the maximum is not 1, the map is empty everywhere and has no solution |
| Board.ValidateBoard | src/common/js/sudoku.js:662-686 | computes the validation report: `Empty board`, the size message, the first bad character with its index, or success |
| Board.ValidationMeaning | src/common/js/sudoku.js:662-686 | the report is success if and only if the board is 81 characters of digits and `.`; each failure has the reason the code gives, naming the first bad index |
| Board.FirstBadLeast | src/common/js/sudoku.js:677-681 | the reported index is the first non-board character |
| Board.BoardStringToGrid | src/common/js/sudoku.js:589-602 | splits the string into rows of nine entries, dropping an incomplete last row |
| Board.BoardGridToString | src/common/js/sudoku.js:604-614 | concatenates the first nine rows' first nine cells; fewer than nine rows is an error |
| Board.GridRoundTrip | src/common/js/sudoku.js:589-614 | converting a valid board to a grid and back gives the same board |
| Board.StringRoundTrip | src/common/js/sudoku.js:589-614 | converting a 9×9 grid of digits and blanks to a string and back gives the same grid |
| Board.GetSquareValsMap | src/common/js/sudoku.js:480-495 | a board of length 81 maps every square to its character; any other length throws `Board/squares length mismatch.` |
| Utility.IndexOf | src/common/js/sudoku.js:705 | `-1` exactly when the value is absent, otherwise its first position |
| Utility.In | src/common/js/sudoku.js:702-706 | `_in` holds exactly when the value occurs in the sequence |
| Utility.ForceRange | src/common/js/sudoku.js:771-785 | treats a missing bound or number as 0; the result is within `[min, max]`; a number inside passes through, below becomes `min`, above becomes `max` |
| Utility.ForceRangeIdempotent | src/common/js/sudoku.js:771-785 | clamping twice equals clamping once |
| Utility.ForceRangeMonotone | src/common/js/sudoku.js:771-785 | clamping preserves order |
| Utility.StripDups | src/common/js/sudoku.js:756-769 | keeps the first occurrence of each value, in order |
| Utility.FirstOccurrencesFacts | src/common/js/sudoku.js:756-769 | the stripped list has no duplicates, is no longer than the input, and has the same members |
| Utility.FirstOccurrencesNoDup | src/common/js/sudoku.js:756-769 | a list without duplicates is returned unchanged |
| Utility.Shuffle | src/common/js/sudoku.js:720-741 | the shuffled list is a permutation of the input, whatever the random probes |
| Utility.Probe | src/common/js/sudoku.js:731-735 | the wrap-around linear probe stops at the first free slot from `ti` onwards |
| Sudoku.CountGivens | src/common/js/sudoku.js:186-191 | counts the squares holding a digit |
| Sudoku.GetCandidatesMap | src/common/js/sudoku.js:250-286 | an invalid board throws the validation report; otherwise each given is assigned in square order; a result map fixes each given and loses no solution agreeing with the board; `false` means none exists; a board without givens gives the all-digits map |
| Sudoku.AssignGiven | src/common/js/sudoku.js:275-282 | assigning one given keeps every agreeing solution; failure means no solution agrees with the board |
| Sudoku.GivenTest | src/common/js/sudoku.js:275 | `_in(val, DIGITS)` holds exactly for given squares |
| Sudoku.GetCandidates | src/common/js/sudoku.js:212-248 | validation errors are thrown; `false` means no agreeing solution; otherwise nine rows of nine of a propagated map that fixes each given and still allows every solution agreeing with the board |
| Sudoku.GroupRows | src/common/js/sudoku.js:235-246 | pushes a row every ninth square; row `r`, column `c` is square `9r + c` |
| Sudoku.RowsEntry | src/common/js/sudoku.js:236-246 | entry `[r][c]` of the grouped rows is square `9r + c` |
| Sudoku.Concatenate | src/common/js/sudoku.js:202-206 | joins the per-square strings of the result map |
| Sudoku.Solve | src/common/js/sudoku.js:168-210 | throws the validation report or `Too few givens. Minimum givens is 17` when applicable; a returned board is a solution agreeing with every given; `false` only when no solution agrees |
| Sudoku.SolvedBoard | src/common/js/sudoku.js:199-207 | the concatenated search outcome is a solution agreeing with the board |
| Generator.Target | src/common/js/sudoku.js:85-91 | the clamp with max `NR_SQUARES + 1`: within 17..82; in-range requests pass through, smaller give 17, larger give 82 |
| Generator.NamedTargets | src/common/js/sudoku.js:27-34 | table names give their table value (17..62); unknown names and a missing difficulty give `easy`, 62 |
| Generator.RetryTarget | src/common/js/sudoku.js:91 | re-entering `generate` with the clamped number clamps it to the same value |
| Generator.SinglesCount | src/common/js/sudoku.js:116-124 | the list of single candidates has one entry per decided square |
| Generator.SpelledBoard | src/common/js/sudoku.js:130-140 | the spelled board is valid; its givens are exactly the decided squares |
| Generator.BlankOut | src/common/js/sudoku.js:148-149 | `substr(0, t) + '.' + substr(t + 1)` blanks square `t` and keeps every other square |
| Generator.BlankOutValid | src/common/js/sudoku.js:145-151 | blanking a given keeps the board valid and removes exactly that one given |
| Generator.TrimGivens | src/common/js/sudoku.js:141-152 | the trimmed board is valid with exactly `difficulty` givens; every square is either unchanged or blanked, so each remaining given is an original one |
| Generator.SingleCandidates | src/common/js/sudoku.js:116-124 | collects the single-candidate strings in square order |
| Generator.SpellBoard | src/common/js/sudoku.js:130-140 | writes each decided digit or a blank, and lists the decided squares in order |
| Generator.BlankBoard | src/common/js/sudoku.js:96-99 | the 81-dot board is valid and has no givens |
| Generator.TryBoard | src/common/js/sudoku.js:116-159 | returns a puzzle only when at least `difficulty` squares are decided and their digits include 8 distinct ones; it is valid, has exactly `difficulty` givens, each the digit its square is decided to, and is solvable; never for more than 81 |
| Generator.GivensDecided | src/common/js/sudoku.js:130-151 | every given left after trimming is the single candidate of its square |
| Generator.GenerateAttempt | src/common/js/sudoku.js:96-160 | one pass over shuffled squares, each step drawing its own candidate choice and givens shuffle: any returned puzzle is valid, has `difficulty` givens and is solvable; a failed assignment abandons the pass |
| Generator.Generate | src/common/js/sudoku.js:53-164 | returns only valid, solvable puzzles with exactly the clamped number of givens; nothing for requests above 81 |
| Ranking.SortByNum | src/common/js/util.js:36-38 | `b.value - a.value` is negative exactly when `a` scores higher and zero exactly on equal scores |
| Ranking.Label | src/common/js/util.js:46-56 | places 0–2 are the medal names, later places are decimal numbers |
| Ranking.LabelRoundTrip | src/common/js/util.js:56 | the place can be read back from its label |
| Ranking.LabelInjective | src/common/js/util.js:56 | two places get the same label if and only if they are equal |
| Ranking.LabelMedals | src/common/js/util.js:46-56 | exactly place 0 is "Gold Medal", place 1 "Silver Medal", place 2 "Bronze Medal" |
| Ranking.PairWithPositions | src/common/js/util.js:48-53 | fills `tmpArr` with the position/score pairs, keys ascending |
| Ranking.Sort | src/common/js/util.js:54 | `sort(sortByNum)` orders by descending score, keeps equal scores in original order, and permutes the items |
| Ranking.Sink | src/common/js/util.js:54 | inserting one more item keeps the sorted prefix stably sorted and a permutation |
| Ranking.WriteLabels | src/common/js/util.js:55-57 | writes label `idx` at `result[tmpArr[idx].key]` |
| Ranking.SortedPlace | src/common/js/util.js:54-57 | after the stable sort, the item at position `k` has exactly `k` scores ranked before it |
| Ranking.RankFacts | src/common/js/util.js:48-58 | the written result is exactly the place labels of the scores |
| Ranking.FindRelativedRank | src/common/js/util.js:40-59 | a missing input returns nothing; otherwise each score gets the label of its place |
| Ranking.PlaceBound | src/common/js/util.js:40-59 | each place is below the number of scores |
| Ranking.PlaceOf | src/common/js/util.js:40-59 | every place below the number of scores is taken by some score |
| Ranking.RanksOrder | src/common/js/util.js:54-57 | a higher score gets an earlier place; equal scores are placed by position |
| Ranking.RanksOnce | src/common/js/util.js:55-57 | different scores' positions get different labels, and every label up to the length is handed out |
| Ranking.Medals | src/common/js/util.js:46-56 | gold exactly for a score no other beats, or ties from earlier; silver and bronze exactly for places 1 and 2 |

## Left out

- `print_board` (sudoku.js:619-660) is console output and is not modelled.
- `_first_true` (sudoku.js:708-718) is not called by any modelled operation and is not part of this model.
- `_rand_range` and `Math.random` are replaced by caller-supplied numbers: `Utility.Shuffle` takes probes; `Generator.Draw` carries the square probes, candidate picks and given probes.
- `_rand_range(0)` throwing `Range undefined` is not modelled as a path. The candidate list it is called on is proved non-empty at that point, so it cannot happen there.
- Generator.Generate: the source retries forever by calling `generate(difficulty)` again. The model tries a finite list of draws and returns `None` when they run out. For a request above 81, the source recurses without end; the model returns `None`.
- Generator.Generate: puzzle uniqueness is not implemented in the source, and `unique` is forced to `true` and never read; the model has no `unique` parameter.
- Generator.Target: the doc comment promises 81 as the upper bound and lists the numbers 61/52/43/34/25/17. The model follows the code: the clamp's `max` is `NR_SQUARES + 1` = 82, and the `DIFFICULTY` table holds 62/53/44/35/26/17.
- Generator.Requested: names that are properties of every JavaScript object (such as `"constructor"`) make `DIFFICULTY[difficulty]` non-numeric in the source. The model treats every name outside the table as unknown, which defaults to `easy`.
- Search.Search: the `JSON.parse(JSON.stringify(...))` deep copy is a value copy into a fresh array per branch; aliasing between branches is not modelled.
- The IIFE wiring (`root.sudoku`, module globals filled by `initialize`) is replaced by the pure definitions `AllUnits`, `SquareUnits` and `Peers`; `Topology.Initialize` is proved to produce exactly those.
- Candidates.Assign: its "the square is exactly `[val]`" promise is stated under `old(m[sq]) != []`, because on an already-empty square the source also reports success vacuously.
- Ranking.FindRelativedRank: scores are integers; floating-point values, `NaN` and non-numeric entries are not modelled. `Array.isArray` failing on a non-array is folded into the `None` input.
- Ranking.FindRelativedRank: `new Array(len).fill(0)` is modelled as filling with `"0"`, since every slot is overwritten before the result is returned.
- Ranking.Sort: `Array.prototype.sort` is modelled as a stable insertion sort, matching the stability the ECMAScript 2019 specification requires; only its result, not its comparison sequence, is modelled.
- Utility.Shuffle: slots are `Option` values, so an element placed earlier is never overwritten. In the source, `while (shuffled[ti])` treats a falsy element already placed (`0`, `''`, `false`, `null`) as a free slot, and a later element can overwrite it; `_shuffle([0, 5])` with both draws 0 gives `[5, false]`. The model's permutation promise therefore holds for the source only on truthy elements. Both callers pass truthy elements: square labels (sudoku.js:104) and square indices of givens as non-empty string keys (sudoku.js:146).
- Utility.StripDups: the set of seen values stands for the plain object `dupMap`. In the source, `dupMap[e]` turns `e` into a string key and also finds properties every object inherits, so `_strip_dups(['constructor'])` returns `[]` where the model keeps the element. The only caller (sudoku.js:129) passes one-digit strings, for which the two agree.
- Board.BoardGridToString: the grid entries are those `board_string_to_grid` produces (a blank, a parsed number or `NaN`). The source concatenates any cell contents (digit strings, negative or fractional numbers); grids with such cells are not modelled.
- Generator.TrimGivens: `givensIdxs` holds string keys in the source (`for ... in`), turned back into numbers with `parseInt`; the model keeps them as numbers.
- Board.ValidateBoard: JavaScript measures and indexes strings in UTF-16 code units, while a Dafny string is a sequence of Unicode scalar values. A board holding a character outside the Basic Multilingual Plane is one character shorter in the model, so the model can report a bad character where the source reports a wrong size (80 digits followed by U+1F600 has length 82 in the source).
- Generator.Target: the difficulty is an integer. A fractional number such as 20.5 passes `_force_range` unchanged in the source, and the trimming loop `i < nrGivens - difficulty` then leaves 20 givens; the model has no fractional difficulties.
- Concurrency, timing and the browser environment are outside the model.
