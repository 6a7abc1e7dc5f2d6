# Advent of Code 2025 solvers, modelled in Dafny

This project models the puzzle solvers of the repository, one Dafny module per solver. It proves what each solver computes.

- **Factory (`day10/index.ts`).** Machines with indicator lights, buttons and joltage counters. A breadth-first search over button presses finds the fewest presses that reach the target lights (part 1) or the target counters (part 2).
- **Cafeteria (`day5/index.ts`).** Part 1 counts the ingredient IDs that fall in some fresh range. Part 2 counts the IDs the ranges cover, by a sorted sweep that merges overlapping or touching ranges.
- **Playground (`day8/index.ts`).** Junction boxes. The `n` closest pairs become edges of a graph, an iterative depth-first traversal finds the circuits, and part 1 multiplies the three largest circuit sizes.
- **PrintingDepartment (`day4/index.ts`).** A grid of paper rolls.
  - A roll with fewer than four occupied neighbours is marked `x`, in place, in one pass. Part 1 counts the marks.
  - Part 2 clears the marks and repeats passes until one removes nothing.
- **SecretEntrance (`day2/index.ts`).** A dial with positions 0 to 99 starts at 50 and is turned by lines such as `L68`.
  - Part 1 counts the lines that leave the dial on 0.
  - Part 2 counts the clicks that land on 0. `part2` does it with a closed form per line (`calcWraps`), `part2_2` click by click.
- **Prog (`prog.py`).** The Python loop for the same dial puzzle.
- **Lobby (`day3/index.ts`).** A greedy choice of the largest number formed by picking `k` digits, in order, from a bank of batteries.
- **Laboratories (`day7/index.ts`).** A tachyon beam falls from `S` and splitters `^` split it. Part 1 counts the splits.
- **Theater (`day9/index.ts`).** The largest rectangle with two red tiles as opposite corners.
- **Compactor (`day6/index.ts`).** A worksheet of column-wise sums and products.
  - Part 1 reads it by space-separated fields.
  - Blank columns separate the problems; the model covers finding those columns, replacing them, and reading each number down a column of characters.

Four shared modules support them:
- `Common`: Option, Result, sums and reversal.
- `Text`: JavaScript's `split`, `join`, `Number`, `parseInt` and `String` on unsigned decimal text.
- `Sorting`: lodash's stable `sortBy` on an integer key.
- `Search`: paths of button presses, and the invariant of the FIFO breadth-first search.

Model conventions:
- Numbers are unbounded integers.
- Strings are sequences of characters.
- A JavaScript exception (`throw`, a dereference of `undefined`) becomes an `Err` or `None` result where the solver reaches it on some input. Where it would only come from malformed input, it becomes a precondition.
- Where a source function updates state in place, the model does too:
  - `toggleButton` mutates an array;
  - `calculate` marks a two-dimensional array;
  - `traverseCircuit` writes a shared `visited` array;
  - `replaceSeparators` writes a local character array;
  - `part2_2` and the Python script update counters in loops.

  Each such method is proved against a specification function. The properties are proved about that function.

## Model

| member | source | states |
|---|---|---|
| Common.Reverse | day9/index.ts:54 | lodash `reverse`: same length, element `i` is element `n-1-i` of the input |
| Common.SumReverse | day6/index.ts:25-28 | a sum does not depend on the order of its terms taken in reverse |
| Text.Split | day6/index.ts:20 | `split` on one character: at least one piece, and no piece holds the separator |
| Text.JoinSplit | day10/index.ts:21 | joining the pieces of a split with the same separator gives the string back |
| Text.SplitJoin | day10/index.ts:21 | splitting a join of separator-free pieces gives the pieces back |
| Text.SplitLength | day6/index.ts:58 | a split yields exactly one piece more than the separator occurs |
| Text.Chars | day3/index.ts:29 | `split("")`: one one-character string per character, in order |
| Text.Number | day10/index.ts:11 | on text of digits only (and "", which reads as 0): `Number` gives the decimal value; the model gives NaN exactly when some character is not a digit |
| Text.DigitPrefix | day3/index.ts:29 | the longest all-digit prefix: the character after it, if any, is not a digit |
| Text.ParseInt | day3/index.ts:29 | on text without leading blanks, sign or `0x` prefix: `parseInt` is NaN exactly when the text is empty or starts with a non-digit; on all-digit text it is the decimal value |
| Text.DecimalString | day3/index.ts:7 | `String(n)`: non-empty, all digits, and it reads back as `n` |
| Sorting.InsertSorted | day5/index.ts:51 | inserting into a sorted sequence keeps it sorted and adds exactly that element |
| Sorting.SortBy | day5/index.ts:51 | lodash `sortBy`: a permutation of the input, ordered by the key |
| Sorting.SortStable | day8/index.ts:35 | the sort is stable: the elements with one key keep their input order |
| Sorting.InsertStable | day8/index.ts:35 | inserting an element appends it to the elements with its key and leaves the order of the others |
| Sorting.PrefixOfSorted | day8/index.ts:35 | `take` of a sorted list: sorted, part of the list, and no left-out element has a smaller key |
| Factory.IndexOf | day10/index.ts:6 | the first position of the character, or the length when it is absent |
| Factory.RemoveFirst | day10/index.ts:6 | `replace(c, "")` with a string pattern removes only the first occurrence, and nothing when there is none |
| Factory.ParseNumbers | day10/index.ts:15-17 | a delimited comma list parses to one number per piece |
| Factory.NumbersOf | day10/index.ts:11 | `map(Number)` succeeds exactly when every piece is digits, and yields each piece's value |
| Factory.ParseButtons | day10/index.ts:9-13 | every button token parses, one list per token, in order, or the whole parse fails |
| Factory.Middle | day10/index.ts:22 | `initial(tail(parts))`: every token but the first and last |
| Factory.ParseParts | day10/index.ts:19-24 | the first token gives the lights, the last the joltage, the middle tokens the buttons |
| Factory.ParseLineTokens | day10/index.ts:21-22 | parsing a line is parsing its space-separated tokens |
| Factory.ParseData | day10/index.ts:19-24 | one machine per line, and it succeeds exactly when every line parses |
| Factory.FlipFlip | day10/index.ts:26-32 | toggling a light twice restores it |
| Factory.Toggled | day10/index.ts:26-32 | a toggle keeps the length of the state |
| Factory.ToggleButton | day10/index.ts:26-32 | in place: only the given index changes; '#' and '.' swap, any other character and an index out of range are left alone |
| Factory.Press | day10/index.ts:34-40 | pressing a button keeps the number of lights |
| Factory.PressButton | day10/index.ts:34-40 | the loop over a fresh copy yields exactly the pressed state; the input is a value and stays unchanged |
| Factory.PressAt | day10/index.ts:34-40 | light `j` after a press is toggled once per occurrence of `j` in the button |
| Factory.PressTwice | day10/index.ts:26-40 | pressing the same button twice restores the state |
| Factory.PressCommutes | day10/index.ts:26-40 | presses commute |
| Factory.RunPressLength | day10/index.ts:34-40 | a path of presses keeps the number of lights |
| Factory.RunPressAt | day10/index.ts:34-40 | after a path, light `j` is toggled once per press that names `j` |
| Factory.ParityDetermines | day10/index.ts:26-40 | two paths that press each button the same number of times mod 2 reach the same state |
| Factory.AddJoltage | day10/index.ts:42-48 | adding a button keeps the number of counters |
| Factory.AppendJoltage | day10/index.ts:42-48 | the loop over a fresh copy yields exactly the added counters |
| Factory.AddJoltageAt | day10/index.ts:42-48 | counter `j` grows by the number of times `j` occurs in the button; the others stay |
| Factory.CreateInitialState | day10/index.ts:91-93 | `n` lights, all '.' |
| Factory.CreateInitialJoltage | day10/index.ts:87-89 | `n` counters, all 0 |
| Factory.LightsKey | day10/index.ts:58 | `toKey` on lights: the characters at even positions, separated by commas |
| Factory.LightsKeyInjective | day10/index.ts:58 | distinct light states have distinct keys, so the visited set of keys is a set of states |
| Factory.Decimals | day10/index.ts:102 | `map(j => j.toString())`: one decimal string per counter |
| Factory.DecimalStringInjective | day10/index.ts:102 | distinct numbers have distinct decimal strings |
| Factory.NoCommaInDecimal | day10/index.ts:102 | a decimal string holds no comma |
| Factory.JoltageKeyInjective | day10/index.ts:102 | distinct counter vectors have distinct keys |
| Factory.NearIsFinite | day10/index.ts:64-84 | the states within reach of the start form a finite set, which bounds the search |
| Factory.PressNear | day10/index.ts:78-83 | a press keeps a state within that finite set |
| Factory.PressAll | day10/index.ts:78-83 | the loop over the buttons enqueues one successor per button, in button order, one level deeper |
| Factory.ExpandNear | day10/index.ts:78-83 | the queue after one expansion still holds only states in the finite set |
| Factory.Process | day10/index.ts:60-85 | the search finds a depth exactly when the target is reachable; the depth is the fewest presses; start equal to target gives 0 |
| Factory.AppendAll | day10/index.ts:114-119 | one successor per button, in order, one level deeper |
| Factory.ExpandLength | day10/index.ts:114-119 | successors keep the number of counters |
| Factory.ProcessJoltage | day10/index.ts:95-121 | with a fuel bound: a found depth is the fewest presses, and a drained queue means the target is unreachable |
| Factory.TotalLightPresses | day10/index.ts:125-132 | the sum of each machine's fewest light presses, defined exactly when every machine is solvable |
| Factory.Part1 | day10/index.ts:123-133 | `part1`: an error when parsing fails or a machine is unsolvable, else the sum of the fewest presses per machine |
| Factory.TotalJoltagePresses | day10/index.ts:137-144 | the sum of the fewest counter presses, or a verdict of unreachability |
| Factory.Part2 | day10/index.ts:135-145 | `part2`: the sum of the fewest counter presses; "unreachable" only when some machine cannot reach its target |
| Search.MinimalDepthUnique | day10/index.ts:74-75 | the fewest number of presses is unique |
| Search.MinimalDepthReachable | day10/index.ts:74-75 | a minimal depth is reached by some path |
| Search.StartAtDepthZero | day10/index.ts:61 | the start itself is at minimal depth 0 |
| Search.RunSnoc | day10/index.ts:78-83 | a path extended by one button is one more press |
| Search.Successors | day10/index.ts:78-83 | the entries enqueued for a state: one per button, in order, at the given depth |
| Search.InvInit | day10/index.ts:61-62 | the queue holding only the start at depth 0, with nothing visited, meets the search invariant |
| Search.InvLevelUp | day10/index.ts:65 | dequeuing the first entry of the next level keeps the invariant |
| Search.NextLevelQueue | day10/index.ts:65 | when the next entry is one level deeper, the queue holds no entry of the current level and all of the next |
| Search.CompleteLevelUp | day10/index.ts:65 | the states within the next depth are visited or queued once the current level is done |
| Search.InvSkip | day10/index.ts:68-70 | skipping an already visited state keeps the invariant |
| Search.InvExpand | day10/index.ts:72-83 | visiting a non-target state and enqueuing its successors keeps the invariant |
| Search.ExpandLayered | day10/index.ts:78-83 | the queue stays ordered by depth, at most one level apart |
| Search.ExpandSound | day10/index.ts:78-83 | every queued entry is reachable in exactly its depth |
| Search.ExpandExpanded | day10/index.ts:72-83 | every successor of a visited state is visited or queued |
| Search.ExpandComplete | day10/index.ts:72-83 | every state reachable in at most the current depth is visited or queued |
| Search.ClosedUnderPresses | day10/index.ts:64-65 | once the queue is empty, every state reachable from the start was visited |
| Search.DrainedIsClosed | day10/index.ts:64-65 | an empty queue leaves the start visited and the visited states closed under presses |
| Search.RunStaysIn | day10/index.ts:64-65 | a path of presses from a state of a closed set stays in the set |
| Search.DrainedMeansUnreachable | day10/index.ts:64-65 | an empty queue before the target is found means the target is unreachable |
| Search.FoundIsMinimal | day10/index.ts:74-75 | the depth at which the target is dequeued is the fewest presses |
| Search.KeysMember | day10/index.ts:66-68 | with an injective key, the key is visited exactly when the state is |
| Search.KeysAdd | day10/index.ts:72 | visiting a state adds exactly its key |
| Search.Advance | day10/index.ts:65 | the invariant holds at the depth of the entry about to be dequeued |
| Cafeteria.Containing | day5/index.ts:11-13 | the `filter` of `inAnyRange` keeps exactly the ranges that contain the item |
| Cafeteria.InAnyRangeExists | day5/index.ts:11-17 | `inAnyRange` holds exactly when some range contains the item, both ends inclusive |
| Cafeteria.Part1Counts | day5/index.ts:5-9 | `part1` is the number of ingredient positions whose ID lies in some range |
| Cafeteria.CoveredMember | day5/index.ts:50-59 | an ID is covered exactly when some range contains it |
| Cafeteria.CoveredIsAnyRange | day5/index.ts:11-17 | covered IDs are exactly the IDs `inAnyRange` accepts |
| Cafeteria.Extend | day5/index.ts:39-42 | `extend` keeps the count and the low end and raises the high end to the maximum, never lowering it |
| Cafeteria.CloseAndStart | day5/index.ts:44-48 | `closeAndStart` adds the width of the closed interval and starts the new one |
| Cafeteria.CountUnionRanges | day5/index.ts:50-59 | no answer exactly for an empty list of ranges, where the source dereferences `sorted[0]` |
| Cafeteria.Interval | day5/index.ts:45 | the IDs from `lo` to `hi` inclusive, `hi - lo + 1` of them |
| Cafeteria.MergeStep | day5/index.ts:39-42 | merging an overlapping or touching range into the current one covers the union of the two |
| Cafeteria.CloseStep | day5/index.ts:44-48 | closing the current range keeps the counted part below the next range, and `count` its size |
| Cafeteria.SweepStep | day5/index.ts:52 | one step of the fold keeps: processed union = counted part below `currentLow` plus `[currentLow, currentHigh]` |
| Cafeteria.SweepInvariant | day5/index.ts:50-56 | after the first `k` sorted ranges, that union equation holds and the counted part has `count` IDs |
| Cafeteria.SweepUnfold | day5/index.ts:52 | one more sorted range is one more step of the fold and adds its IDs to those covered |
| Cafeteria.SortedWellFormed | day5/index.ts:51 | sorting keeps every range's low end at most its high end |
| Cafeteria.SweepCovers | day5/index.ts:50-58 | on sorted ranges the fold's final count plus the last current range is the number of covered IDs |
| Cafeteria.CoveredPermutation | day5/index.ts:51 | sorting the ranges does not change the IDs they cover |
| Cafeteria.DisjointCount | day5/index.ts:58 | the final `count + (currentHigh - currentLow + 1)` is the size of the union |
| Cafeteria.CountUnionRangesCorrect | day5/index.ts:50-59 | for a non-empty list of ranges with low ≤ high, `countUnionRanges` is the number of IDs in their union |
| Playground.SquaredDistance | day8/index.ts:17-22 | non-negative, and zero exactly for equal points (it orders pairs as `distance` does) |
| Playground.Row | day8/index.ts:25-30 | the pairs of box `i` with every later box `i+1+j`, with their distances |
| Playground.OccurrencesInRow | day8/index.ts:26-30 | a prefix of row `i` holds the pair `(i, b)` once when `b` is in it, otherwise not |
| Playground.OccurrencesInRows | day8/index.ts:24-32 | the rows from `i` on hold each pair `i ≤ a < b < n` exactly once |
| Playground.AllPairsOnce | day8/index.ts:24-32 | `allPairs` yields each index pair `a < b` exactly once, and no other pair |
| Playground.RowsFromLength | day8/index.ts:24-32 | the rows from `i` on hold `(n-i)(n-i-1)/2` pairs |
| Playground.AllPairsLength | day8/index.ts:24-32 | `allPairs` yields `n(n-1)/2` pairs |
| Playground.RowsFromPairs | day8/index.ts:24-32 | every pair from row `i` on has `i ≤ a < b < n` and its distance |
| Playground.AllPairsWellFormed | day8/index.ts:24-32 | every pair has `a < b < n` and the distance of its two boxes |
| Playground.ClosestPairs | day8/index.ts:34-36 | the first `min(n, pairs)` pairs in distance order, drawn from `allPairs`, none farther than any left out |
| Playground.ClosestPairsIn | day8/index.ts:34-36 | the chosen pairs name boxes below `n` |
| Playground.Link | day8/index.ts:41-44 | adding a pair keeps the number of vertices |
| Playground.Adjacency | day8/index.ts:38-48 | the reduce yields `n` adjacency lists |
| Playground.LinkNeighbours | day8/index.ts:42-43 | a pair `(a, b)` puts `b` among the neighbours of `a` and `a` among those of `b`, and changes nothing else |
| Playground.AdjacencyNeighbours | day8/index.ts:38-48 | `v` is a neighbour of `u` exactly when some pair joins them |
| Playground.AdjacencyUndirected | day8/index.ts:38-48 | the graph's vertices are in range and its edges go both ways |
| Playground.BuildGraph | day8/index.ts:38-48 | the loop that pushes both ends of each pair builds exactly the adjacency lists |
| Playground.PopHolds | day8/index.ts:56 | popping the stack keeps the bookkeeping of popped and marked vertices |
| Playground.PushHolds | day8/index.ts:59-62 | a vertex is marked before it is pushed, so each vertex enters the stack once |
| Playground.TraversalDone | day8/index.ts:55-65 | when the stack is empty, the newly marked vertices are those popped, all connected to the start, with every neighbour marked |
| Playground.MarkNeighbours | day8/index.ts:58-63 | marking and pushing the unmarked neighbours of `v` marks every neighbour and unmarks nothing |
| Playground.PopAndMark | day8/index.ts:55-63 | one pass of the traversal's loop pops one more vertex, at most `n` in all, and keeps the bookkeeping of marked vertices and walks |
| Playground.TraverseCircuit | day8/index.ts:50-66 | 0 and no change when the start is visited; otherwise it marks the start and only vertices connected to it, every neighbour of a marked vertex ends marked, and the size is the number newly marked (at most `n`) |
| Playground.WalkStaysMarked | day8/index.ts:50-66 | on an undirected graph, every vertex of a walk from the start is newly marked |
| Playground.OutsideClosed | day8/index.ts:50-66 | a neighbour of an unvisited vertex is unvisited while the visited set is closed |
| Playground.TraversalIsComponent | day8/index.ts:50-66 | the vertices one traversal marks are exactly the start's connected component |
| Playground.AddCircuit | day8/index.ts:72-77 | one more traversal from an unvisited vertex adds one circuit and its size to the invariant of `circuitSizes` |
| Playground.SizesDone | day8/index.ts:68-80 | once all vertices are visited, the sizes are those of the circuits and they sum to `n` |
| Playground.CircuitSizes | day8/index.ts:68-80 | one positive size per connected component, with distinct roots in distinct components, covering every vertex, summing to `n` |
| Playground.VisitFrom | day8/index.ts:71-78 | one pass of `circuitSizes`' loop keeps its invariant and leaves the vertex visited |
| Playground.Descending | day8/index.ts:86 | `sort((a, b) => b - a)`: a permutation in non-increasing order |
| Playground.TopThree | day8/index.ts:86-87 | the product of the three largest sizes exists exactly when there are three circuits |
| Playground.TopThreeLargest | day8/index.ts:86-87 | the product uses three of the sizes and no other size exceeds any of the three |
| Playground.Part1 | day8/index.ts:82-88 | `part1` is the product of the three largest circuit sizes of the graph of the `n` closest pairs |
| PrintingDepartment.SurroundingPoints | day4/index.ts:11-26 | eight distinct points |
| PrintingDepartment.SurroundingExactly | day4/index.ts:11-26 | exactly the eight neighbours, never the centre |
| PrintingDepartment.InBoundsOnSquare | day4/index.ts:22-24 | on a square grid the written bounds check is the right one |
| PrintingDepartment.InBoundsWrongOnWideGrid | day4/index.ts:22-24 | on a 1×2 grid the written check accepts row 1, which does not exist, and rejects column 1, which does |
| PrintingDepartment.CountRolls | day4/index.ts:28-34 | between 0 and the number of points; 0 exactly when none is an occupied in-grid cell, all exactly when all are |
| PrintingDepartment.CountRollsIsOccupied | day4/index.ts:28-34 | the count is the number of listed points that are in the grid and hold '@' or 'x' |
| PrintingDepartment.CountRollsSameOccupancy | day4/index.ts:5-7 | two grids occupied in the same cells count the same, so marking '@' as 'x' does not change any count |
| PrintingDepartment.Pass | day4/index.ts:36-52 | a pass keeps the dimensions |
| PrintingDepartment.PassAt | day4/index.ts:41-47 | a cell becomes 'x' exactly when it is occupied with fewer than 4 occupied neighbours; every other cell stays |
| PrintingDepartment.PassKeepsOccupancy | day4/index.ts:45 | a pass changes no cell's occupancy |
| PrintingDepartment.NewGrid | day4/index.ts:59 | a fresh two-dimensional array holding the rows |
| PrintingDepartment.PartialPassCounts | day4/index.ts:36-50 | a grid part way through a pass counts neighbours as the grid before the pass did, whatever the scan order |
| PrintingDepartment.Decide | day4/index.ts:40-44 | the in-place decision equals the decision against the grid as the pass found it |
| PrintingDepartment.CalculateRow | day4/index.ts:39-49 | one row of the scan marks that row as the pass does and adds its removable cells to `total` |
| PrintingDepartment.MarkCell | day4/index.ts:45 | writing 'x' moves the scan one cell on |
| PrintingDepartment.Calculate | day4/index.ts:36-52 | in place: the grid becomes the pass of the old grid, and `total` is the number of removable cells |
| PrintingDepartment.ReplaceInGrid | day4/index.ts:54-56 | every cell equal to `search` becomes `replace`; every other cell and every row length stays |
| PrintingDepartment.ReplaceInGridClears | day4/index.ts:54-56 | afterwards no cell holds `search` |
| PrintingDepartment.Part1 | day4/index.ts:58-61 | `part1` is the number of removable rolls |
| PrintingDepartment.Round | day4/index.ts:69-72 | a pass followed by clearing the marks keeps the dimensions and leaves no mark |
| PrintingDepartment.NoneRemovable | day4/index.ts:73 | the count is 0 exactly when no cell is removable |
| PrintingDepartment.RoundCount | day4/index.ts:68-72 | a round removes exactly the counted rolls from the occupied cells |
| PrintingDepartment.RoundStable | day4/index.ts:68-73 | a round that removes nothing leaves the grid unchanged |
| PrintingDepartment.Settled | day4/index.ts:68-73 | the grid `part2` ends with has no marks |
| PrintingDepartment.RemovalRoundsCount | day4/index.ts:63-76 | `part2` ends at a grid from which nothing can be removed, and its total is the number of rolls that went |
| PrintingDepartment.Part2 | day4/index.ts:63-76 | the do-while loop returns the total of the rounds, and it ends |
| SecretEntrance.Value | day2/index.ts:67 | `parseInt(tail(line).join(""))` is the number after the direction |
| SecretEntrance.StepZerosRight | day2/index.ts:24-30 | clicks to the right that land on 0: a closed form in whole hundreds |
| SecretEntrance.StepZerosLeft | day2/index.ts:15-22 | clicks to the left that land on 0: a closed form in whole hundreds |
| SecretEntrance.StepZerosCongruent | day2/index.ts:15-30 | the clicks that land on 0 depend only on the position modulo 100 |
| SecretEntrance.TurnDial | day2/index.ts:66-76 | an error exactly for a direction other than 'L' or 'R'; 'L' subtracts the value, 'R' adds it |
| SecretEntrance.TurnDialMoves | day2/index.ts:66-76 | `turnDial` moves the unbounded position by the signed value |
| SecretEntrance.JsRem | day2/index.ts:17 | JavaScript `%` by 100: strictly between -100 and 100, with the sign of the dividend, congruent to it |
| SecretEntrance.Wrap | day2/index.ts:44 | `((next % 100) + 100) % 100` is the non-negative remainder |
| SecretEntrance.WrapStep | day2/index.ts:57-58 | turning from the remainder of the unbounded position and wrapping gives the remainder of the moved position |
| SecretEntrance.Part1Fold | day2/index.ts:53-64 | the fold succeeds exactly when every line turns 'L' or 'R' |
| SecretEntrance.Part1FoldLast | day2/index.ts:56-59 | one more line of `part1`'s reduce: the count grows exactly when the wrapped dial is 0 |
| SecretEntrance.Part1 | day2/index.ts:53-64 | `part1` succeeds exactly when every line turns 'L' or 'R' |
| SecretEntrance.Part1FoldCounts | day2/index.ts:53-64 | the fold yields the lines that end on 0 and the remainder of the unbounded position |
| SecretEntrance.Part1Counts | day2/index.ts:53-64 | `part1` counts the lines after which the unbounded position is a multiple of 100 |
| SecretEntrance.CalcWraps | day2/index.ts:78-95 | as written: an error exactly for other directions; 'R' gives 0 exactly when the value is at most `100 - dial`, 'L' exactly when it is below `dial` |
| SecretEntrance.CalcWrapsVsClicks | day2/index.ts:78-95 | as written, `calcWraps` is the number of clicks that land on 0, plus one for 'L' from 0, minus one for 'R' ending exactly on 100 |
| SecretEntrance.CalcWrapsBoundaryCases | day2/index.ts:78-95 | "R50" from 50 gives 0 but one click lands on 0; "L5" from 0 gives 1 but none does |
| SecretEntrance.Wraps | day2/index.ts:78-95 | corrected: an error exactly for other directions |
| SecretEntrance.WrapsCountsClicks | day2/index.ts:78-95 | corrected: the number of clicks of the turn that land on 0 |
| SecretEntrance.RightZeros | day2/index.ts:82-86 | turning right from `dial` in [0, 100), `(dial + value) / 100` clicks land on 0 |
| SecretEntrance.LeftZeros | day2/index.ts:87-91 | turning left from `dial`: `value / 100` from 0, else one at `dial` clicks and one per further hundred |
| SecretEntrance.Part2Fold | day2/index.ts:36-51 | the fold succeeds exactly when every line turns 'L' or 'R' |
| SecretEntrance.Part2 | day2/index.ts:36-51 | `part2` succeeds exactly when every line turns 'L' or 'R' |
| SecretEntrance.Part2MissesBoundary | day2/index.ts:36-51 | `part2` on ["R50"] answers 0 although the dial passes 0 once |
| SecretEntrance.Part2FixedFold | day2/index.ts:36-51 | corrected fold: succeeds exactly on 'L'/'R' lines, with the dial in [0, 100) |
| SecretEntrance.Part2FixedFoldLast | day2/index.ts:39-46 | one more line of the corrected reduce: the count grows by the corrected wraps, the dial is the wrapped turn |
| SecretEntrance.Part2Fixed | day2/index.ts:36-51 | corrected `part2` succeeds exactly on 'L'/'R' lines |
| SecretEntrance.Part2FixedFoldCounts | day2/index.ts:36-51 | the corrected fold yields the clicks that land on 0 and the remainder of the position |
| SecretEntrance.FixedStep | day2/index.ts:40-46 | one corrected step counts the clicks of the line and moves the dial to the remainder of the new position |
| SecretEntrance.Part2FixedCounts | day2/index.ts:36-51 | the corrected `part2` is the number of clicks that land on 0 |
| SecretEntrance.Turn | day2/index.ts:15-30 | one line of `part2_2`: the dial stays in (-100, 100), congruent to the unbounded position, and the count grows by the clicks that land on 0 |
| SecretEntrance.ClickStep | day2/index.ts:17-21 | one click keeps the dial in (-100, 100) and congruent to the unbounded position, and it is 0 exactly when that click lands on a multiple of 100 |
| SecretEntrance.TurnLine | day2/index.ts:12-30 | one line: 'L' and 'R' turn the dial click by click, any other direction leaves dial and count alone |
| SecretEntrance.LineStep | day2/index.ts:11-31 | one more line moves the unbounded position by the line and adds its clicks that land on 0 |
| SecretEntrance.Part2_2 | day2/index.ts:7-34 | `part2_2` counts the clicks that land on 0, other directions skipped |
| Prog.PyDirection | prog.py:16-19 | 'L' turns left, any other character right |
| Prog.Clicks1 | prog.py:15-21 | the inner loop leaves `p` at the remainder of the moved position and adds the clicks that land on 0 to `p2` |
| Prog.RunLine | prog.py:12-23 | one pass of the outer loop: `p`, `p1` and `p2` follow the unbounded position |
| Prog.RunStep | prog.py:11-23 | one more line moves the unbounded position and adds its end and its clicks on 0 to the reference counts |
| Prog.Run | prog.py:11-23 | the final `p` is the remainder of 50 plus the signed sum; `p1` counts the lines that end on 0; `p2` the clicks that land on 0 |
| Prog.SameDirections | prog.py:16-19 | two readings of the directions that agree on every line give the same counts |
| Prog.SameNet | prog.py:16-19 | agreeing readings of the directions give the same unbounded position |
| Prog.SameUnitZeros | prog.py:16-21 | agreeing readings give the same clicks on 0 |
| Prog.SameLineZeros | prog.py:16-23 | agreeing readings give the same lines ending on 0 |
| Prog.PythonMatchesTypeScript | prog.py:11-23 | on 'L'/'R' lines the script's `p2` equals the count of `part2_2` and its `p1` the answer of `part1` |
| Prog.OtherDirectionTurnsRight | prog.py:16-19 | on "X50" the script counts one click on 0 and `part2_2` counts none |
| Lobby.ParseLineToNumbers | day3/index.ts:28-30 | one digit value per character |
| Lobby.ParseEachCharacter | day3/index.ts:28-30 | each value is `parseInt` of its one-character string |
| Lobby.MaxBy | day3/index.ts:10 | `maxBy`: an element that no element exceeds |
| Lobby.IndexOf | day3/index.ts:11 | `indexOf`: the first position of the element |
| Lobby.DigitString | day3/index.ts:13 | `String` of a digit is that one character, and it parses back to the digit |
| Lobby.FindHighestJoltage | day3/index.ts:5-14 | `slots` characters, all digits, whose values are the greedy choice `Greedy` |
| Lobby.FirstIndex | day3/index.ts:9-11 | the next digit is taken where it still leaves `slots - 1` digits after it, holds the largest of those candidates, and is that digit's first occurrence |
| Lobby.ConsGreedy | day3/index.ts:9-13 | the largest candidate in front of the greedy choice from after its first occurrence is the greedy choice |
| Lobby.GreedyIsSubsequence | day3/index.ts:5-14 | the greedy digits are a subsequence of the bank |
| Lobby.ChosenIsSubsequence | day3/index.ts:5-14 | the chosen digits are a subsequence of the bank |
| Lobby.FirstPick | day3/index.ts:9-12 | any choice of `slots` digits starts with at most the greedy head, and if equal, continues after it |
| Lobby.OnePick | day3/index.ts:6-7 | with one slot, no single digit beats `maxBy` |
| Lobby.GreedyIsHighest | day3/index.ts:5-14 | no subsequence of `slots` digits is lexicographically above the greedy digits |
| Lobby.ChosenIsHighest | day3/index.ts:5-14 | the greedy digits are lexicographically at least any subsequence of the same length |
| Lobby.ParsedJoltage | day3/index.ts:22 | `parseInt` of a digit string is the number its digit values form |
| Lobby.HighestJoltage | day3/index.ts:5-22 | `parseInt` of the result is the joltage of its digits, and no choice of `slots` batteries gives more |
| Lobby.OneSlotIsMaximum | day3/index.ts:6-7 | with one slot the joltage is the largest digit |
| Lobby.BankJoltage | day3/index.ts:20-22 | a bank's joltage is at least that of any choice of batteries in order |
| Lobby.CalculateJoltageDataIsHighest | day3/index.ts:16-26 | no choice of batteries per bank totals more than `calculateJoltageData` |
| Lobby.Pick | day3/index.ts:20-22 | the digits chosen in one bank: `batteries` of them, a subsequence of the bank, worth the bank's highest joltage |
| Lobby.Picks | day3/index.ts:16-26 | one pick per bank, in order |
| Lobby.CalculateJoltageDataIsReached | day3/index.ts:16-26 | the solver's picks are a valid choice per bank, and their total is `calculateJoltageData` |
| Lobby.Part1 | day3/index.ts:32-34 | the largest total joltage with two batteries per bank: reached by the solver's own picks, and no choice gives more |
| Lobby.Part2 | day3/index.ts:36-38 | the largest total joltage with twelve batteries per bank: reached by the solver's own picks, and no choice gives more |
| Laboratories.BeamDirectionNext | day7/index.ts:7-11 | the cell below: same column, next row |
| Laboratories.IndexOf | day7/index.ts:18 | -1 exactly when the character is absent, else its first position |
| Laboratories.FindStartFold | day7/index.ts:14-22 | nothing exactly when no row holds the character; else the first row holding it and its first column there |
| Laboratories.FindStart | day7/index.ts:13-29 | the error "Hittade inte start" exactly when no row holds the character; else its first cell row by row |
| Laboratories.ReplaceInGrid | day7/index.ts:31-33 | same shape; only the cell at the point, if it exists, takes the value |
| Laboratories.ShootBeam | day7/index.ts:35-54 | the drawn grid has the shape of the grid it started from |
| Laboratories.ShootBeamDraws | day7/index.ts:35-54 | the beam only draws: every cell keeps its character or becomes '\|' |
| Laboratories.ShootBeamKeepsAbove | day7/index.ts:35-54 | the rows down to the start row are left as they were |
| Laboratories.ShootBeamFalls | day7/index.ts:42-44 | over an empty cell the beam marks it '\|' and goes on from it |
| Laboratories.ShootBeamSplitsAt | day7/index.ts:45-50 | over a splitter: the left beam on the grid marked on the left, then the right beam on its result marked on the right, and one split plus both counts |
| Laboratories.SplitterMarksSides | day7/index.ts:45-49 | after a split both cells beside the splitter hold '\|', whatever they held, a splitter included |
| Laboratories.ShootBeamSplits | day7/index.ts:35-54 | the count is positive exactly when the beam, falling through empty cells, meets a splitter |
| Laboratories.ShootBeamStops | day7/index.ts:38-53 | past the last row checked, or on anything but '.' and '^', nothing is drawn and nothing counted |
| Laboratories.Part1 | day7/index.ts:56-61 | an error exactly when no row holds 'S'; otherwise a positive count exactly when the beam from 'S' meets a splitter |
| Laboratories.SharedBeamCountedTwice | day7/index.ts:45-50 | a manifold with four splitters where two side beams meet above the last one: the count is 5 |
| Laboratories.SplitterBesideOverwritten | day7/index.ts:46-49 | a splitter beside the one the beam meets is overwritten with '\|': two splitters in the way, one split |
| Theater.RectangleAreaBounds | day9/index.ts:18-22 | at least 1 and at least each side length, borders included |
| Theater.RectangleAreaSymmetric | day9/index.ts:18-22 | the area does not depend on which corner comes first |
| Theater.SortTwo | day9/index.ts:34-35 | the two numbers in ascending order |
| Theater.RectangleCorners | day9/index.ts:33-37 | four corners counter-clockwise from the smallest; the x and y bounds are those of the two points |
| Theater.ToPairArea | day9/index.ts:39-45 | the reported area is the number of tiles of the reported rectangle |
| Theater.PairsWith | day9/index.ts:48 | one pair of `p1` with each other point, in order |
| Theater.PairsOf | day9/index.ts:47-49 | empty exactly when there are no first points or no others |
| Theater.PairsOfLength | day9/index.ts:47-49 | one pair per first point and other point |
| Theater.PairsOfHolds | day9/index.ts:47-49 | every first point is paired with every other point |
| Theater.PairsOfFrom | day9/index.ts:47-49 | every pair comes from one first point and one other point |
| Theater.AllPairs | day9/index.ts:47-49 | empty exactly when there are fewer than two points |
| Theater.AllPairsLength | day9/index.ts:47-49 | `n(n-1)` pairs |
| Theater.AllPairsHolds | day9/index.ts:47-49 | every point is paired with every point after the first, itself included |
| Theater.AllPairsOnly | day9/index.ts:47-49 | every pair pairs some point with a point after the first |
| Theater.Part1 | day9/index.ts:51-56 | `undefined` exactly when there are fewer than two points |
| Theater.AtMostLargest | day9/index.ts:51-56 | a pair whose area no pair of `allPairs` exceeds bounds the area between any two of the points, the first point included |
| Theater.Part1IsLargest | day9/index.ts:51-56 | `part1` is the area of some rectangle between two of the points, and no rectangle between any two of them is larger |
| Compactor.Transpose | day6/index.ts:13-15 | as many columns as the last row is long |
| Compactor.TransposeRectangular | day6/index.ts:13-15 | on an R×C grid: C rows of length R, `r[i][j] == grid[j][i]` |
| Compactor.TransposeTwice | day6/index.ts:13-15 | transposing a rectangular grid twice gives it back |
| Compactor.ProductAppend | day6/index.ts:17 | `product` is multiplicative over concatenation |
| Compactor.ProductReverse | day6/index.ts:17 | `product` does not depend on reversing its list |
| Compactor.PerformOperation | day6/index.ts:87-95 | an error ("Fel") exactly when the operation is neither "*" nor "+" |
| Compactor.PerformOperationReverse | day6/index.ts:25-28 | the numbers of a problem may be taken in either order |
| Compactor.NonDash | day6/index.ts:66 | no '-' is left |
| Compactor.WithoutDashes | day6/index.ts:66 | no piece "-" is left |
| Compactor.WithoutDashesChars | day6/index.ts:65-66 | filtering the characters of a string is taking the characters of the filtered string |
| Compactor.GetOperationSymbol | day6/index.ts:64-68 | `getOperation` is one character `c` exactly when the first item without its dashes is `c` |
| Compactor.NonEmpty | day6/index.ts:20 | the kept pieces are non-empty and come from the input |
| Compactor.Fields | day6/index.ts:20 | the fields of a line are non-empty and hold no blank |
| Compactor.FieldGrid | day6/index.ts:20 | one row of fields per line |
| Compactor.ColumnResultIsColumnValue | day6/index.ts:24-28 | the reducer on one transposed row is the column's operator applied to its numbers top to bottom, or "Fel" |
| Compactor.TransposedColumns | day6/index.ts:21 | the rows of the transposed field grid are its columns |
| Compactor.Part1FoldColumns | day6/index.ts:22-31 | the fold over the first `n` columns succeeds exactly when their operators are '*' or '+', and then sums their problems |
| Compactor.Part1 | day6/index.ts:19-32 | `part1` is the sum, over the columns, of each column's operator applied to its numbers; an error exactly when some operator is neither |
| Compactor.MaxLength | day6/index.ts:35 | the length of the longest line, attained by some line |
| Compactor.SeparatorsBelow | day6/index.ts:36-41 | ascending, exactly the columns below `n` in which no line has a digit |
| Compactor.GetSeparatorColumns | day6/index.ts:34-42 | ascending, exactly the columns below the longest length in which no line has a digit, a missing character counting as a blank |
| Compactor.PadEnd | day6/index.ts:47 | `padEnd` to the length with blanks, keeping the characters |
| Compactor.Stamped | day6/index.ts:47-51 | the padded line with `sep` written at each column keeps the longest length |
| Compactor.StampedCells | day6/index.ts:47-51 | each column holds `sep` exactly when it is one of the given columns, otherwise the line's character or a blank |
| Compactor.StampedOccurrences | day6/index.ts:47-51 | a line without `sep`, stamped at distinct columns, holds `sep` exactly once per column |
| Compactor.ReplaceLine | day6/index.ts:47-51 | the writes into the local character array yield the stamped line |
| Compactor.ReplaceSeparators | day6/index.ts:44-53 | one stamped line per input line |
| Compactor.SeparatedFields | day6/index.ts:55-58 | when no line holds 'x', every replaced line splits into one field more than there are separator columns, so the grid handed to `transpose` is rectangular |
| Compactor.TransposeAndArrangeNumbers | day6/index.ts:70-79 | one number (or NaN) per transposed column |
| Compactor.ConcatChars | day6/index.ts:76 | `join("")` of the characters of a string gives the string |
| Compactor.NonDashReverse | day6/index.ts:74-75 | removing '-' and reversing commute |
| Compactor.ArrangedColumn | day6/index.ts:72-78 | a column read bottom up, without '-', reversed and joined, is the column's digits top down |
| Compactor.TransposedColumnsUp | day6/index.ts:81-85 | reversed as `part2` hands them over, the numbers transpose into their character columns from the bottom up |
| Compactor.ColumnUp | day6/index.ts:81-85 | a transposed column built from the reversed numbers is the column of characters read from the bottom up |
| Compactor.ArrangedNumbersReadDown | day6/index.ts:70-85 | each number of a problem is `parseInt` of the digits of one character column read top down, '-' padding skipped |

## Left out

- Console output, the `input`/`example` data modules, and `readFile` (`day6/index.ts:7-11`) are I/O. The script's `sys.stdin` reading, `strip` and `print` (`prog.py:5, 25-26`) are I/O too. The models take the lines as a parameter.
- JavaScript number precision is not modelled. Numbers are unbounded: products in the worksheet can exceed 2^53 in the source.
- `Math.sqrt` in `distance` (`day8/index.ts:17-22`) is floating point. Pairs are ordered by the integer squared distance, which orders them the same way.
- day8 `parseData` and `part2` are left out. `part2` (`day8/index.ts:93-115`) loops on `(i += 1)`, which never ends the loop, and works by logging.
- day9 `parsePoints` is input parsing, and `part2` returns a constant: both are left out. `Theater.Part1` takes the points.
- day5 `getRanges` is input parsing of `"low-high"` lines and is left out. `Cafeteria.Part1` and `Cafeteria.CountUnionRanges` take the ranges and IDs.
- Text.Number: models `Number` on text of digits only. JavaScript also reads text with surrounding blanks (" 5"), a sign, a decimal point ("1.5"), an exponent ("1e3") or a hex prefix ("0x1F") as a number, where the model gives NaN. The pieces the day10 parser feeds it are digit pieces.
- Text.ParseInt: models `parseInt` without a radix on text that has no leading blanks, no sign and no `0x` prefix. JavaScript skips leading blanks (" 5" is 5), takes a sign ("+5" is 5) and reads "0x1F" as hexadecimal 31, where the model gives NaN, NaN and 0. The text it parses in day2, day3 and day6 is digits.
- Factory.Process: a target that cannot be reached makes the source dequeue from an empty queue and crash. The model answers `Unreachable` instead.
- Factory.ProcessJoltage: the counter states are unbounded, so termination and completeness are not modelled. A `fuel` bound ends the search with `OutOfFuel`. A found depth is proved minimal and a drained queue proved unreachable.
- Factory.TotalJoltagePresses: runs `Factory.ProcessJoltage` on each machine, so it has the same `fuel` bound. An `OutOfFuel` machine gives an error, and completeness is not modelled.
- Factory.Part2: takes the `fuel` bound and passes it to `Factory.TotalJoltagePresses`, with the same limits.
- Factory.AppendJoltage: requires every button index to name a counter. An index out of range would write NaN beyond the vector in the source.
- Factory.ParseNumbers: a piece that is not a number (NaN in the source) makes the parse an error rather than a NaN entry.
- Playground.CircuitSizes: requires an undirected graph, which is what `buildGraph` builds. On a directed graph the traversal's sizes are not components.
- Playground.Part1: fewer than three circuits give `None`, where the source multiplies `undefined` into NaN.
- PrintingDepartment.CountRolls: counts with the corrected bounds check, not `inBounds` as written (`day4/index.ts:22-24, 32`). It agrees with `countRolls` only on square grids (see Findings).
- PrintingDepartment.Calculate: the grid is a rectangular two-dimensional array, with neighbours found by the corrected bounds check (see Findings).
- PrintingDepartment.Part1: takes the grid already split into characters, rectangular. It counts neighbours with the corrected bounds check, so it agrees with the source only on square grids. On a grid with more rows than columns the source never looks at the rows past the width; on one with more columns than rows it can index a missing row and throw (when a roll in the last row has a neighbour in a column at or past the height).
- PrintingDepartment.Part2: uses the corrected bounds check like `PrintingDepartment.Part1`, and differs from the source on non-square grids in the same way.
- SecretEntrance.Part2_2: requires each line to be a direction followed by digits. Signs, blanks and other non-digit text that `parseInt` reads differently are not modelled.
- SecretEntrance.TurnDial: has the same requirement on its line as `SecretEntrance.Part2_2`.
- SecretEntrance.Part1: has the same requirement on every line as `SecretEntrance.Part2_2`.
- SecretEntrance.CalcWraps: has the same requirement on its line as `SecretEntrance.Part2_2`.
- SecretEntrance.Wraps: has the same requirement on its line as `SecretEntrance.Part2_2`.
- SecretEntrance.Part2: has the same requirement on every line as `SecretEntrance.Part2_2`.
- SecretEntrance.Part2Fixed: has the same requirement on every line as `SecretEntrance.Part2_2`.
- Prog.Run: requires each line to be a direction followed by digits. Python's `int()` acceptance of signs, blanks and underscores is not modelled.
- Lobby.FindHighestJoltage: requires a bank of digits with at least `slots` batteries. On other banks the source produces NaN or "undefined" text.
- Laboratories.ShootBeam: requires more rows than columns (`Tall`). The row guard at `day7/index.ts:38` compares with the length of the first row, not the number of rows. So the source crashes only when a beam falls past the last row while still inside that guard: it then reads `grid[y][x]` from a row that does not exist. `Tall` is a simpler condition under which this cannot happen. It also excludes other grids that the source handles without a crash, because every beam on them stops above the last row, such as `[".S", ".|"]`, where `part1` answers 0.
- Laboratories.Part1: on a count, states in general only when it is positive (a splitter is reached); the exact number of splits is not characterised. Two effects of `day7/index.ts:46-49` keep it from being the number of splitters reached. A side beam starts from its cell without looking at what is there, so a splitter below two side beams that meet is counted once per beam (`Laboratories.SharedBeamCountedTwice`). And the side writes turn a splitter right beside a firing one into '|', so it never fires (`Laboratories.SplitterMarksSides`, `Laboratories.SplitterBesideOverwritten`).
- Compactor.Part1: requires a worksheet whose lines all have as many fields as the first, with numbers above the last line.
- Compactor.GetSeparatorColumns: requires at least one line. With none, the source's `Array(-Infinity)` throws.
- Compactor.ReplaceSeparators: requires every column to be below the longest line's length, which `getSeparatorColumns` guarantees.
- `getTransposedGrid` and `part2` of day6 (`day6/index.ts:55-62, 97-109`) are not modelled as functions. Their parts are modelled and connected by `Compactor.SeparatedFields` and `Compactor.ArrangedNumbersReadDown`.

## Findings

| source | as written | input that shows it | evidently intended | confidence | as-written member | corrected member |
|---|---|---|---|---|---|---|
| day4/index.ts:22-24 | `inBounds` compares the row index `x` with the width and the column index `y` with the height | a grid of one row and two columns: cell (1, 0) passes the check although row 1 does not exist, and cell (0, 1) fails although it exists | row below the height, column below the width | not executed | PrintingDepartment.InBoundsWrongOnWideGrid | PrintingDepartment.InBoundsOnSquare |
| day2/index.ts:78-95 | `calcWraps` uses `value > 100 - dial` for 'R' and `value >= dial` for 'L' | "R50" from 50 gives 0 although the 50th click lands on 0; "L5" from 0 gives 1 although no click lands on 0 | the number of clicks of the turn that land on 0, as `part2_2` counts them | not executed | SecretEntrance.CalcWrapsBoundaryCases | SecretEntrance.WrapsCountsClicks |
