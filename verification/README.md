# Advent of Code 2024 solvers, modelled in Dafny

This project models the puzzle solvers of the frhel/AOC-2024 repository.
Each solver reads a puzzle input as text, parses it and computes two answers.

- Day 1 has two solvers: one in JavaScript, one in Rust.
- Days 2, 3, 5, 6, 7, 8, 9, 10, 11, 12 and 14 each have a JavaScript solver.

There is one Dafny module per source file:

| module | source | puzzle |
|---|---|---|
| `ListsJs`, `ListDistance` | `day_1/solution.js` | distance and similarity of two location lists |
| `ListsRust`, `ListDistance` | `rust/day_1/src/main.rs` | the same, with `i32` arithmetic and panics |
| `ReportSafety` | `day_2/solution.js` | safe reports, with and without one level removed |
| `MulInstructions` | `day_3/index.js` | `mul(a,b)` instructions, with `do()`/`don't()` switches |
| `PageOrder` | `day_5/solution.js` | page-ordering rules, checking and reordering updates |
| `GuardWalk` | `day_6/simulation.js` | the guard's walk, and the obstacle placements that trap it in a loop |
| `Equations`, `OperatorSearch` | `day_7/solution.js` | which operators make an equation's test value |
| `Equations`, `OperatorChunk` | `day_7/solve_chunk.js` | the worker that searches one chunk of equations |
| `Antinodes` | `day_8/solution.js` | antenna antinodes (pairs, then whole lines) |
| `DiskCompaction` | `day_9/solution.js` | disk compaction by blocks, then by whole files |
| `TrailSearch` | `day_10/solution.js` | trailhead scores and ratings on a height map |
| `StoneBlink` | `day_11/solution.js` | counting stones after repeated blinks, memoised |
| `Regions` | `day_12/solution.js` | garden regions: area, perimeter and number of sides |
| `RobotQuadrants` | `day_14/solution.js` | robots on a wrapping grid, counted by quadrant |

Shared modules:

- `Wrappers`: `Option` and `Result`.
- `Decimal`: decimal digits and digit strings.
- `Text`: the JavaScript string operations the solvers use: `split`, `join`, `trim`, `indexOf` and `Number()` on a string.
- `Plane`: grid cells and the numeric cell keys the solvers put in sets.
- `Sorting`: the stable sort by a numeric key that `Array.prototype.sort` performs.

Modelling conventions:

- JavaScript `NaN` is modelled as `None`, and `Number()` of a string as `Text.Number`.
- Integers are unbounded, except where the source's width matters. Rust `i32` overflow is one such place.
- Each solver's loops become recursive functions, or methods with loop invariants.
- Where the puzzle or the code suggests one, an operation is paired with an independent reference definition, or with an inverse, and lemmas connect the two. The rows below say what each member states.

## Model

| member | source | states |
|---|---|---|
| Regions.ParseInput | day_12/solution.js:156-161 | there is at least one row, no row holds a newline, and the rows joined by newlines give back the trimmed input |
| Regions.Visit | day_12/solution.js:62-71 | the perimeter entries recorded for a cell are exactly its sides that face out of the grid or onto another label; every same-label neighbour is queued; every queued cell is in bounds with the cell's label; no entry is recorded twice |
| Regions.SeenAsNumbers | day_12/solution.js:55-57 | on a grid at most 10000 wide, `seen.has(x + y * 10000)` holds exactly for the cells the model's `seen` holds |
| Plane.KeyInjective | day_12/solution.js:55-57 | on cells whose column lies below the scale, two cells share a number `x + y * scale` exactly when they are the same cell |
| Plane.KeyCollides | day_12/solution.js:55-57 | on a grid as wide as the scale, cells (scale, 0) and (0, 1) share a number |
| Plane.KeysMember | day_12/solution.js:55-57 | on such cells, a cell's number is in the set of numbers exactly when the cell is in the set of cells |
| Plane.KeysCard | day_10/solution.js:55 | on such cells, the set of numbers is as large as the set of cells |
| Regions.FloodFill | day_12/solution.js:49-72 | the cells a fill adds are disjoint from the cells seen before and include the start unless it was already seen. Each is reachable from the start through same-label neighbours, and they are closed under same-label neighbours. The area equals their number, and the perimeter list holds exactly their boundary sides, each once |
| Regions.FillAdd | day_12/solution.js:53-71 | popping an unseen cell adds it to the region with its boundary sides and keeps the fill's invariant (every same-label neighbour of the region is seen, in the region or still queued) |
| Regions.CloseRegion | day_12/solution.js:52-72 | once the queue is empty the region is closed under same-label neighbours, and so is its union with the cells seen before |
| Regions.WalkBack | day_12/solution.js:62-71 | a walk through same-label neighbours, undone step by step, is such a walk back to its start, so reachability is symmetric |
| Regions.ComponentOf | day_12/solution.js:49-79 | a set closed under same-label neighbours whose cells are all reachable from one of them is a whole component: from each of its cells exactly its cells can be reached |
| Regions.EdgeEachDirection | day_12/solution.js:113-128 | a nonempty closed region has a perimeter entry facing each of the four directions, so the group read at line 119 is never empty |
| Regions.FindRegions | day_12/solution.js:46-81 | every stored region is a whole same-label connected component, with its exact perimeter. The regions are pairwise disjoint and cover the grid, and their areas add up to rows times columns |
| Regions.SolvePart1 | day_12/solution.js:40-96 | the price is the sum of area times perimeter length over the partition of the grid into its same-label connected components |
| Regions.Group | day_12/solution.js:113-115 | filtering the perimeter by direction keeps exactly the entries facing that direction |
| Regions.GroupSizes | day_12/solution.js:113-115 | the four direction groups split the perimeter: their sizes add up to its length |
| Regions.ArrangeOrder | day_12/solution.js:117-125 | the two stable sorts permute the group. An up/down group ends up ordered by row and then by column, a left/right group by column and then by row |
| Regions.CountRuns | day_12/solution.js:127-142 | on edges facing one way in the sorted order, the count is the number of edges with no same-facing edge one step before them, that is one per side; it lies between 1 and the size of the group |
| Regions.RunsCount | day_12/solution.js:127-142 | on sorted edges facing one way, the first edge and each edge that does not continue its predecessor's side are exactly the edges that begin a side |
| Regions.ArrangedAscending | day_12/solution.js:117-125 | on duplicate-free edges the sorted group holds exactly the edges facing its direction, in strictly ascending order |
| Regions.CountGroup | day_12/solution.js:116-143 | on a region's duplicate-free edges, the count for a direction is the number of edges facing it that begin a side; it lies between 1 and the size of the group |
| Regions.CountSides | day_12/solution.js:110-143 | on a region's duplicate-free edges the count is the number of sides (edges with no same-facing edge one step before them), and it lies between 4 and the perimeter length |
| Regions.SidesSplit | day_12/solution.js:110-143 | the four direction counts add up to the number of sides: each side faces exactly one way |
| Regions.SidesRange | day_12/solution.js:110-143 | a region with duplicate-free edges facing all four ways has at least four sides and at most one per perimeter entry |
| Regions.SolvePart2 | day_12/solution.js:102-149 | over part 1's regions the price is the sum of area times number of sides, and it never exceeds part 1's price |
| TrailSearch.Height | day_10/solution.js:149 | the height of a character lies in -1..9, and it is -1 exactly when `Number` of the character is NaN |
| TrailSearch.ParseInput | day_10/solution.js:147-151 | there is one row per line of the trimmed input, each row as long as its line, and each cell holds the height of its character |
| TrailSearch.Steps | day_10/solution.js:60-68 | after a pop, at most four entries are pushed, all one higher and all holding their value on the map |
| TrailSearch.StepsMembers | day_10/solution.js:60-68 | the pushed entries are exactly the in-bounds orthogonal neighbours whose height is one more |
| TrailSearch.EndsAreNines | day_10/solution.js:54-56 | every cell the search records is a height-9 cell |
| TrailSearch.EndsAtMostPaths | day_10/solution.js:54-56 | the number of distinct height-9 cells reached (part 1) is at most the number of step sequences reaching them (part 2) |
| TrailSearch.ScoreStep | day_10/solution.js:50-68 | one pass of the part-1 loop keeps found ∪ (the ends of the stack) unchanged and makes the stack weigh less, so the search ends |
| TrailSearch.Score | day_10/solution.js:47-69 | the search from a trailhead finds exactly the height-9 cells reachable by steps of +1 |
| TrailSearch.RatingStep | day_10/solution.js:97-115 | one pass of the part-2 loop keeps count + (the trails of the stack) unchanged and makes the stack weigh less |
| TrailSearch.Rating | day_10/solution.js:95-116 | the search from a trailhead counts exactly the step sequences from it to a height-9 cell |
| TrailSearch.FindTrailheads | day_10/solution.js:130-140 | the trailheads are exactly the height-0 cells, each once, in row-major order |
| TrailSearch.SolvePart1 | day_10/solution.js:35-77 | the answer is the sum of the trailheads' scores, and it is at most part 2's answer |
| TrailSearch.SolvePart2 | day_10/solution.js:83-123 | the answer is the sum of the trailheads' ratings |
| TrailSearch.ScoreAtMostNines | day_10/solution.js:54-56 | a trailhead's score is at most the number of height-9 cells of the map |
| TrailSearch.ScoreAsNumbers | day_10/solution.js:55 | on a map at most 1000 wide, the set of numbers `x + y * 1000` is as large as the set of ends, so its size is the score |
| TrailSearch.TrailValues | day_10/solution.js:64 | along a trail the value rises by exactly one per step |
| TrailSearch.TrailLength | day_10/solution.js:21-23 | on a parsed map, a trail from a trailhead has at most ten cells |
| TrailSearch.EndsAreTrailEnds | day_10/solution.js:47-71 | a cell counts toward a trailhead's score exactly when some trail leads from the trailhead to that cell at height 9 |
| DiskCompaction.ParseInput | day_9/solution.js:221-226 | one entry per input character, each `None` (NaN) or a digit value 0..9 |
| DiskCompaction.ParseInputIsNumber | day_9/solution.js:223 | each entry is `Number` of its one-character string |
| DiskCompaction.Copies | day_9/solution.js:203-208 | the loop `j < data[i]` runs the digit's value times for a positive digit, and never for zero or NaN |
| DiskCompaction.ExpandData | day_9/solution.js:197-214 | the expanded disk is the layout the map describes: even digits give file cells with ids counting up, odd digits give free cells |
| DiskCompaction.LayoutShape | day_9/solution.js:197-214 | on the expanded disk, file ids never decrease from left to right and each file's cells form one stretch |
| DiskCompaction.LayoutIds | day_9/solution.js:201-211 | file x gets exactly as many cells as digit 2x asks for |
| DiskCompaction.MoveLeft | day_9/solution.js:59-62 | moving a file cell into a free cell further left keeps the multiset of ids and never raises the checksum |
| DiskCompaction.ChecksumOf | day_9/solution.js:67-70 | the checksum loop computes Σ position × id over the file cells |
| DiskCompaction.ScanFromBack | day_9/solution.js:48-63 | the right-pointer scan for one free cell keeps every id and never raises the checksum. What is left of the reference block compaction from the new pointers equals what was left from the old ones, and the new right pointer sits on a file cell. When the right pointer starts on a free cell or not right of i, nothing changes |
| DiskCompaction.CompactBlocks | day_9/solution.js:30-64 | on a disk that does not end in a free cell the result is the reference compaction `BlockCompact`, which moves file cells from the right into the leftmost free cells. A disk that ends in a free cell is left as it is. The length and ids are kept, and the checksum never rises |
| DiskCompaction.BlockCompactShape | day_9/solution.js:40-64 | the reference compaction leaves no free cell before a file cell, keeps the multiset of ids and never raises the checksum |
| DiskCompaction.FillFreeTail | day_9/solution.js:48-53 | free cells at the right end are skipped: the reference compaction of the rest is the same |
| DiskCompaction.FreeRuns | day_9/solution.js:154-165 | the free list holds maximal free runs, ordered right to left, and every free cell lies in one of them |
| DiskCompaction.CollectRun | day_9/solution.js:160-163 | the inner scan stops at the first non-free cell below a free cell, or at -1 |
| DiskCompaction.FileBlocks | day_9/solution.js:167-193 | the file list holds maximal file stretches left to right. A file cell is left off exactly when its file starts in the disk's last cell |
| DiskCompaction.CollectBlock | day_9/solution.js:185-188 | the inner scan stops at the first cell after start that holds a different block |
| DiskCompaction.Fit | day_9/solution.js:100-124 | a chosen run starts no later than the file and is at least as long as it |
| DiskCompaction.FitIsLeftmost | day_9/solution.js:100-124 | the chosen run lies wholly left of the file and every run left of it is too short; when none is chosen, every run wholly left of the file is too short |
| DiskCompaction.ShiftKeeps | day_9/solution.js:114-119 | moving a file cell by cell into free cells to its left keeps every id and never raises the checksum |
| DiskCompaction.PlaceKeepsShape | day_9/solution.js:90-128 | after one file's turn, the free list and file list still describe the disk, every id is kept and the checksum has not grown |
| DiskCompaction.MoveWholeFiles | day_9/solution.js:88-129 | an empty file list leaves the disk unchanged; popping a file while the free list is empty fails with a TypeError, the only failure |
| DiskCompaction.MoveWholeFilesKeeps | day_9/solution.js:88-129 | a successful whole-file compaction keeps the disk's length and ids and never raises the checksum |
| DiskCompaction.CopyFile | day_9/solution.js:114-119 | the copy loop writes the file into the low end of the run and frees its old cells |
| DiskCompaction.PlaceFile | day_9/solution.js:95-128 | the run search with its stack of inspected runs leaves the disk and free list that `Fit` and `Place` describe |
| DiskCompaction.PushBack | day_9/solution.js:126-128 | moving the stack back onto the free list restores the inspected runs in their original order |
| DiskCompaction.MoveFiles | day_9/solution.js:88-129 | the outer loop of part 2 computes `MoveWholeFiles` |
| DiskCompaction.EarlyExitIsSafe | day_9/solution.js:93 | the early `break compact` loses nothing: whenever the loop finishes, the disk is what giving every listed file its turn produces |
| DiskCompaction.StaysPut | day_9/solution.js:93 | files that start left of the leftmost free run's top cell do not move |
| DiskCompaction.SolvePart1 | day_9/solution.js:17-73 | part 1's answer is the checksum of the reference compaction of the laid-out disk, or of the disk itself when it ends in a free cell; it never exceeds the uncompacted checksum |
| DiskCompaction.SolvePart2 | day_9/solution.js:79-138 | a successful answer is the checksum of the reference whole-file compaction `Compact` run from a free list and a file list that describe the laid-out disk, and never exceeds the uncompacted checksum. The only failure is a TypeError, on every disk of two or more cells with no free cell |
| DiskCompaction.NoGapLayout | day_9/solution.js:197-214 | the map "101" lays out the disk `0 1` with no free cell |
| Equations.Drop | day_7/solution.js:136 | `slice(2)` gives the numbers after the first two, or nothing past the end |
| Equations.Handle | day_7/solution.js:181-200 | `handleRecursion` returns -1 (pruned), 0, or the test value itself |
| Equations.Branches | day_7/solution.js:155-168 | `startNewRecursionBranches` returns 0 or the test value; the worker's variant (`recurseSolution`) never returns -1 |
| Equations.SolvableHits | day_7/solution.js:155-200 | every equation that some choice of operators over all its numbers solves is reported as solved |
| Equations.HitsMoreOps | day_7/solution.js:19-63 | offering more operators (part 2's `+ * \|\|` over part 1's `+ *`) loses no success |
| Equations.NoHitAbove | day_7/solution.js:187 | once the running value exceeds the test, growing operators over positive numbers never reach it again, which justifies the pruning |
| Equations.HandleExact | day_7/solution.js:181-200 | with growing operators, positive numbers and a non-negative test, one operator's branch reports the test exactly when applying that operator first reaches it |
| Equations.BranchesExact | day_7/solution.js:155-200 | the whole search reports the test exactly when some choice of operators reaches it after one or more of the numbers; both ways of treating a pruned branch agree |
| Equations.ScoreExact | day_7/solution.js:136 | on an admissible equation (well formed, or with no numbers, like the empty last line), the search's result is the test value when some choice of operators reaches it, and 0 otherwise |
| Equations.BlankFrom | day_7/solution.js:136 | with no numbers both operands are undefined, every operator gives NaN, and the search returns 0 |
| Equations.ScoresExact | day_7/solution.js:134-141 | over a list of admissible equations, the scores are those reference values, position by position |
| Equations.ZerosMember | day_7/solution.js:140 | an equation is among the rejects exactly when it occurs in the input and scores 0 |
| Equations.RunAppend | day_7/solution.js:130-144 | a pass over two concatenated lists sums their answers and concatenates their rejects |
| Equations.RunExact | day_7/solution.js:130-144 | over admissible equations, part 1's answer is the sum of the reachable test values. An equation is rejected exactly when it is unreachable or its test is 0, so a line with no numbers is always rejected |
| Equations.TwoPassOne | day_7/solution.js:59-79 | for one equation, part 1's score plus (only if that was 0) part 2's score is its test value when `+ * \|\|` reach it |
| Equations.TwoPass | day_7/solution.js:30-79 | over admissible equations, part 1's answer plus part 2's answer over part 1's rejects is the sum of the test values reachable with `+ * \|\|` |
| Equations.HitsAgree | day_7/solution.js:209-224 | two operator dispatches that agree on non-negative left and positive right operands report the same successes |
| Equations.HitValuesAgree | day_7/solution.js:209-224 | two such dispatches give the same reference value to every equation |
| OperatorSearch.ParseLine | day_7/solution.js:235 | a line gives one number per space-separated word after the first |
| OperatorSearch.ParseInput | day_7/solution.js:233-237 | one equation per line of the input, each the parse of its line |
| OperatorSearch.ParseLineOfText | day_7/solution.js:235 | a line written as `T: a b c` parses back to test T and numbers a, b, c |
| OperatorSearch.ParseInputOfLines | day_7/solution.js:235 | lines joined by line breaks parse line by line |
| OperatorSearch.TrailingNewline | day_7/solution.js:233-237 | a final line break adds exactly one equation: test `Number("")`, which is 0, and no numbers |
| OperatorSearch.PuzzleInputAdmissible | day_7/solution.js:233-237 | a puzzle input, with or without its final line break, parses to admissible equations only |
| OperatorSearch.Shifts | day_7/solution.js:218-222 | the loop multiplies by 10 once per decimal digit of a right side ≥ 1, and never for a right side below 1 |
| OperatorSearch.StillLarge | day_7/solution.js:219-221 | after k divisions by 10, `temp` is still at least 1 exactly while k is below the digit count |
| OperatorSearch.ConcatLoop | day_7/solution.js:217-224 | `concatNums` with exact rational `temp` returns left × 10^(digits of right) + right for right ≥ 1, and left + right otherwise |
| OperatorSearch.PerformOperation | day_7/solution.js:209-215 | each operator's outcome: sum, product, concatenation (NaN in, NaN out), and 0 for an unknown operator |
| OperatorSearch.PerformGrows | day_7/solution.js:209-224 | `+`, `*` and `concatNums` never fall below their left side on a positive right side |
| OperatorSearch.ConcatVariants | day_7/solution.js:213-224 | the main file's `\|\|` and the worker's agree on a positive right side; on a right side of 0 the main file gives l and the worker gives l × 10 |
| OperatorSearch.DispatchesAgree | day_7/solution.js:209-224 | the two dispatches agree wherever the search uses them on puzzle input |
| OperatorSearch.Solve | day_7/solution.js:130-144 | `solve` returns the pass's answer and its rejects |
| OperatorSearch.SequentialParts | day_7/solution.js:40-79 | without workers, on admissible equations (so on any puzzle input, final line break or not), part 1 is the sum of the tests reachable with `+ *`, and the printed part 2 is the sum of those reachable with `+ * \|\|` |
| OperatorSearch.ChunkSize | day_7/solution.js:92 | five chunks of `ceil(n / 5)` cover n items, with fewer than five to spare |
| OperatorSearch.ChunksCover | day_7/solution.js:92-100 | the slices `launchWorkers` hands out are at most a chunk long and together are the data; there are five of them, or none for empty data |
| OperatorSearch.WorkersFlatten | day_7/solution.js:104-109 | summing the workers' answers and concatenating their rejects is searching the concatenation of their slices |
| OperatorSearch.ChunkedRun | day_7/solution.js:86-123 | searching the five slices is searching the whole data |
| OperatorSearch.PartsTotal | day_7/solution.js:40-79 | with workers, on admissible equations, part 1 is the sum of the tests reachable with `+ *` and the printed part 2 is the sum of those reachable with `+ * \|\|`; the worker's and the main file's `\|\|` give the same part 2 |
| OperatorChunk.CatValue | day_7/solve_chunk.js:57 | the worker's `\|\|` on non-negative operands shifts the left one by the number of digits of the right one |
| OperatorChunk.PerformGrows | day_7/solve_chunk.js:53-59 | the worker's operators never fall below their left side on a positive right side |
| OperatorChunk.ExecuteChunk | day_7/solve_chunk.js:12-23 | the worker's pass computes the sum of its scores and, in part 1, the zero-scoring equations in order |
| OperatorChunk.PrefixSuccess | day_7/solve_chunk.js:38-51 | test 3 with numbers 1 2 5 is reported solved after `1 + 2`, although no choice of operators over all three numbers gives 3 |
| StoneBlink.ParseInput | day_11/solution.js:107-111 | one stone per space-separated word, each `Number` of its word |
| StoneBlink.ParseInputOfStones | day_11/solution.js:109 | stones written in decimal and joined by single spaces parse back to themselves |
| StoneBlink.HalvesAreText | day_11/solution.js:85-87 | the two halves used for a split are the values `parseInt` reads from the two halves of the stone's decimal text |
| StoneBlink.HalvesJoin | day_11/solution.js:85-89 | the left half shifted by the right half's width plus the right half gives back the stone |
| StoneBlink.Children | day_11/solution.js:81-92 | a blink turns 0 into 1, splits a stone with an even number of digits in two, and multiplies any other stone by 2024 |
| StoneBlink.ChildrenJoin | day_11/solution.js:85-89 | a stone that splits is its two children written side by side |
| StoneBlink.Blink | day_11/solution.js:71-100 | every count is at least 1 |
| StoneBlink.BlinkChildren | day_11/solution.js:81-92 | the count after one more blink is the sum of the counts of the stone's children |
| StoneBlink.SumBlinkAll | day_11/solution.js:41-43 | counting the row after one blink with n blinks left is counting the row with n + 1 |
| StoneBlink.SumBlinksZero | day_11/solution.js:93-96 | with no blinks left each stone counts once |
| StoneBlink.SumBlinksCountsStones | day_11/solution.js:37-62 | the sum of the counts is the length of the row of stones that n blinks produce |
| StoneBlink.BlinkCountsStones | day_11/solution.js:71-100 | `blink(stone, n)` is the number of stones one stone becomes after n blinks |
| StoneBlink.BlinkMonotone | day_11/solution.js:71-100 | more blinks never leave fewer stones |
| StoneBlink.SumBlinksMonotone | day_11/solution.js:37-62 | a row's count never shrinks with more blinks, so part 1 is at most part 2 |
| StoneBlink.KeyHead | day_11/solution.js:73 | in a key `${stone}-${blinks}`, the first dash comes right after the stone's digits |
| StoneBlink.MemoKeyInjective | day_11/solution.js:73 | distinct stones or blink counts get distinct memo keys |
| StoneBlink.BlinkMemo | day_11/solution.js:71-100 | with a correct memo, `blink` returns the count without the memo, and leaves a correct memo that keeps every entry it had |
| StoneBlink.SumWithMemo | day_11/solution.js:41-59 | the loop over the stones sums their counts and keeps the memo correct |
| StoneBlink.SolveParts | day_11/solution.js:23-62 | with one memo shared by both parts, the answers are the lengths of the rows after 25 and 75 blinks, and part 1 is at most part 2 |
| StoneBlink.AsWrittenThrows | day_11/solution.js:84 | as written, every stone throws a ReferenceError once two blinks are left, as does every non-zero stone with one blink left; where it does not throw it agrees with the corrected count |
| GuardWalk.IterateAdd | day_6/simulation.js:45-71 | a + b steps of the rules are a steps followed by b steps |
| GuardWalk.RepeatNeverLeaves | day_6/simulation.js:65-70 | a guard that comes back to a state it was in never walks off the grid |
| GuardWalk.RecordShrinks | day_6/simulation.js:61 | recording a new state brings the loop closer to its end: fewer states remain unrecorded |
| GuardWalk.WalkTrace | day_6/simulation.js:45-71 | from any point of the walk, the loop's result is explained by the rules: false only when the guard walks off, true when it comes back to a state, and never ending only when it is boxed in |
| GuardWalk.WalkTurns | day_6/simulation.js:52-55 | in front of an obstacle the guard turns right in place; a fourth turn in a row means it turns forever |
| GuardWalk.WalkSteps | day_6/simulation.js:57-70 | with a free cell ahead, the guard steps and reports a loop exactly when that position and facing were recorded before |
| GuardWalk.SpinRepeats | day_6/simulation.js:52-55 | a guard turning four times in a row returns to a state it was in and stands boxed in |
| GuardWalk.FourSides | day_6/simulation.js:52-55 | obstacles in the four facings reached by turning are obstacles on all four sides |
| GuardWalk.Simulation | day_6/simulation.js:40-72 | `runSimulation` returns false exactly when the guard, started facing up, walks off the grid; when it never returns, the guard stands boxed in |
| GuardWalk.Place | day_6/simulation.js:24-29 | writing a symbol into one cell keeps the grid's shape |
| GuardWalk.Pool | day_6/simulation.js:17-32 | the pool counts at most one loop per point |
| GuardWalk.PoolCounts | day_6/simulation.js:17-32 | on a grid of `.`, `#` and `^`, the pool counts exactly the candidate points whose obstacle keeps the guard on the grid, unless some candidate boxes the guard in, in which case it never returns |
| PageOrder.Values | day_5/solution.js:149-151 | one value per piece, each `Number` of the piece |
| PageOrder.Pages | day_5/solution.js:149-151 | one list of values per line, each the line split on the separator and read as numbers |
| PageOrder.ParseInput | day_5/solution.js:144-155 | the rules are the lines before the first blank line and the chapters the lines after it; without a blank line `slice(0, -1)` makes every line but the last a rule, and every line is read as a chapter |
| PageOrder.ParseInputOfText | day_5/solution.js:144-155 | rules `a\|b`, a blank line and comma-separated chapters parse back to those rules and chapters |
| PageOrder.IndexOf | day_5/solution.js:121-126 | `indexOf` gives -1 exactly for NaN or an absent page, and otherwise the first position holding the page |
| PageOrder.CheckRulesCorrect | day_5/solution.js:113-137 | the loop with its memo of missing pages answers exactly whether no rule is broken (both pages present and out of order) |
| PageOrder.IsChapterCorrect | day_5/solution.js:113-137 | `isChapterCorrect` holds exactly when the chapter breaks no rule |
| PageOrder.Middle | day_5/solution.js:39-80 | an odd-length chapter's middle entry is one of its pages; an even-length chapter gives undefined |
| PageOrder.Plus | day_5/solution.js:39-80 | `answer +=` gives a number exactly when both sides are numbers, and then their sum |
| PageOrder.Part1Memo | day_5/solution.js:31-135 | after part 1, the shared memo holds exactly the keys of the correct chapters |
| PageOrder.Consolidate | day_5/solution.js:91-105 | each left page maps to the right pages of its rules, in rule order; a page with no rule is absent |
| PageOrder.Swap | day_5/solution.js:75-77 | a swap exchanges two positions and keeps the chapter's pages |
| PageOrder.SwapFrom | day_5/solution.js:70-78 | the inner loop keeps the chapter's pages. It fails with a TypeError, and only when some page of the chapter has no rule, because `includes` is then called on undefined |
| PageOrder.ReorderFrom | day_5/solution.js:64-79 | the outer loop keeps the chapter's pages, and fails only as the inner loop does |
| PageOrder.Reorder | day_5/solution.js:64-79 | reordering a chapter permutes its pages. It fails with a TypeError only if some page has no rule, and succeeds when every page has one |
| PageOrder.CorrectUnchanged | day_5/solution.js:64-79 | a correct chapter of distinct pages is left as it is |
| PageOrder.KeyInjective | day_5/solution.js:63-135 | when all pages have the same number of digits, the key `chapter.join('')` tells chapters apart |
| PageOrder.KeyCollision | day_5/solution.js:63-135 | the chapters 12,3,5 and 1,23,5 share the key "1235" |
| PageOrder.Part2AsIntended | day_5/solution.js:51-84 | when no two chapters share a key, part 2 as written reorders and counts exactly the chapters part 1 found incorrect |
| PageOrder.SkippedChapter | day_5/solution.js:63 | with the rule 23\|1 and the chapters 12,3,5 and 1,23,5, part 2 as written skips the incorrect second chapter and answers 0; as intended it answers 1 |
| PageOrder.PartsPartition | day_5/solution.js:31-84 | with corrected part 2, every chapter of distinct pages is counted by exactly one part: the answers add up to the middle pages of all chapters once reordered |
| PageOrder.Solve | day_5/solution.js:19-23 | part 1 is the sum of the correct chapters' middle pages. Both answers together count every chapter of distinct pages once, and part 2 is what the script computes whenever no two chapters share a key |
| ReportSafety.ParseInput | day_2/solution.js:45-47 | one report per line, with one level per space-separated word of the line |
| ReportSafety.Levels | day_2/solution.js:47 | each level is `Number` of its word |
| ReportSafety.ParseInputOfReports | day_2/solution.js:45-47 | reports written one per line with single spaces parse back to their levels |
| ReportSafety.TrailingNewline | day_2/solution.js:45-147 | a final newline adds the report `[0]`, which is safe, so both answers grow by one |
| ReportSafety.BlankLine | day_2/solution.js:47 | an empty line reads as the single level 0 |
| ReportSafety.Dir | day_2/solution.js:59-61 | `get_dir` gives 1 exactly when both values are numbers and the current one is greater, and -1 otherwise (including NaN) |
| ReportSafety.CheckReportLoop | day_2/solution.js:68-98 | the loop returns true exactly when every step differs by 1 to 3 and goes in the first step's direction |
| ReportSafety.CheckReportGradual | day_2/solution.js:15-98 | on numeric levels, `check_report` holds exactly when the levels all rise, or all fall, by 1 to 3 per step |
| ReportSafety.SafeMonotone | day_2/solution.js:68-98 | a safe report of numbers is strictly increasing or strictly decreasing, following its first step |
| ReportSafety.Remove | day_2/solution.js:112-113 | removing position i shifts the later levels down by one and keeps the earlier ones |
| ReportSafety.RemovalsFrom | day_2/solution.js:111-117 | the loop finds a safe report exactly when removing some one level from position i on gives a safe report |
| ReportSafety.CheckPermutations | day_2/solution.js:100-121 | `check_permutations` holds exactly when the report is safe as it is or after removing some one level |
| ReportSafety.CountSafe | day_2/solution.js:131-133 | part 1 counts at most every report, and counts all of them exactly when all are safe |
| ReportSafety.CountTolerated | day_2/solution.js:145-147 | part 2 counts at most every report, and counts all of them exactly when all are safe with the dampener |
| ReportSafety.SafeAtMostTolerated | day_2/solution.js:131-147 | the dampener only adds reports: part 1 never exceeds part 2 |
| ReportSafety.Solve | day_2/solution.js:45-147 | part 1 is at most part 2, which is at most the number of lines |
| Antinodes.CellAt | day_8/solution.js:139 | a cell is read exactly when its row exists and the row is long enough |
| Antinodes.Cells | day_8/solution.js:144-151 | the visited cells hold exactly the grid's non-`.` cells, in reading order |
| Antinodes.PositionsOf | day_8/solution.js:148 | the positions listed for a frequency are exactly its antennas, in reading order |
| Antinodes.Get | day_8/solution.js:148 | `Map.get` is `undefined` exactly for a key never set, and otherwise gives that key's entry |
| Antinodes.Put | day_8/solution.js:148 | `Map.set` keeps keys distinct, gives the key the new value, leaves every other key alone, appends a new key and keeps the size for an old one |
| Antinodes.Group | day_8/solution.js:141-151 | the map built by `parseInput` has distinct keys and gives every frequency exactly its antennas in reading order |
| Antinodes.GroupEntries | day_8/solution.js:141-151 | every entry of that map is non-empty and lists exactly the antennas of its key |
| Antinodes.SubSub | day_8/solution.js:123-126 | subtracting the stored vector from the antenna gives back the other antenna |
| Antinodes.RowPaths | day_8/solution.js:119-127 | the inner loop yields one entry per other antenna, skipping the antenna itself |
| Antinodes.PairsFrom | day_8/solution.js:118-128 | the outer loops yield n - 1 entries per antenna, exactly the ordered pairs of distinct indices |
| Antinodes.GeneratePaths | day_8/solution.js:110-131 | `generatePaths` lists exactly the ordered pairs of antennas of one frequency |
| Antinodes.GridPathsArePairs | day_8/solution.js:110-153 | an entry from a to b exists exactly when a and b are distinct antennas of one frequency |
| Antinodes.PathIsPair | day_8/solution.js:110-131 | every entry starts on an antenna and has a nonzero vector |
| Antinodes.Part1 | day_8/solution.js:33-57 | part 1 counts each in-bounds cell that some entry's first antinode hits and that the input does not mark `#`, once |
| Antinodes.Part1Antinodes | day_8/solution.js:33-153 | part 1 counts exactly the in-bounds cells at 2a - b for two antennas a, b of one frequency, minus input `#` cells |
| Antinodes.Walk | day_8/solution.js:92-103 | the inner walk marks exactly the cells passed while in bounds that were not `#` |
| Antinodes.Visit | day_8/solution.js:76-103 | one popped entry marks its antenna and every in-bounds cell of its walk |
| Antinodes.Part2 | day_8/solution.js:65-107 | part 2 counts exactly the non-`#` cells some entry covers, each once, whatever the pop order |
| Antinodes.Part1WithinPart2 | day_8/solution.js:33-107 | every cell part 1 counts, part 2 counts too, so part 1 never exceeds part 2 |
| Antinodes.CoversLine | day_8/solution.js:92-103 | on a grid with no row wider than the first, an entry covers exactly the in-bounds cells a whole number of vector steps from its antenna |
| Antinodes.Part2Antinodes | day_8/solution.js:65-153 | on a grid with no row wider than the first, part 2 counts exactly the in-bounds non-`#` cells in line with two antennas of one frequency, a whole number of steps from one of them |
| Antinodes.TrailingRowBounded | day_8/solution.js:139 | a final line break adds one empty row and no cell, and no row is then wider than the first, so part 2's statement covers that grid |
| Antinodes.Solve | day_8/solution.js:17-24 | part 1 never exceeds part 2 |
| RobotQuadrants.WrapAround | day_14/solution.js:107-115 | for a position at most one floor width off, the single correction is the remainder modulo the bound |
| RobotQuadrants.QuadrantsAgree | day_14/solution.js:44-175 | with `quad_defs` the quadrant numbers are the puzzle's: -1 exactly on the middle column 50 or the middle row 51 |
| RobotQuadrants.BuildMap | day_14/solution.js:182-192 | the map has one row more than `bounds_y` and one column more than `bounds_x` |
| RobotQuadrants.SetMapQuadrants | day_14/solution.js:140-148 | every cell of the map is replaced by the quadrant of its own coordinates |
| RobotQuadrants.QuadMapCovers | day_14/solution.js:37-53 | every cell of the floor has a map entry holding its puzzle quadrant, between -1 and 3 |
| RobotQuadrants.Count | day_14/solution.js:132-136 | a tally never exceeds the number of robots |
| RobotQuadrants.Move | day_14/solution.js:64-115 | a move keeps a robot on the floor, keeps its velocity and puts it at position plus velocity modulo the floor size |
| RobotQuadrants.SetQuad | day_14/solution.js:123-138 | `setQuad` records the robot's cell quadrant and changes each tally by the change in the robots recorded there |
| RobotQuadrants.FirstUpdate | day_14/solution.js:132 | a robot with no quadrant yet takes nothing away from any tally |
| RobotQuadrants.Tick | day_14/solution.js:62-72 | one second moves and records every robot, and each tally changes by the change in its recorded robots |
| RobotQuadrants.Seconds | day_14/solution.js:57-72 | after n seconds every robot stands n velocity steps further, modulo the floor, and its recorded quadrant is its cell's |
| RobotQuadrants.TallyQuadrants | day_14/solution.js:48-72 | after n >= 1 seconds from freshly parsed robots, each tally is the number of robots in that puzzle quadrant |
| RobotQuadrants.Part1Quadrants | day_14/solution.js:74-77 | part 1 is the product of the numbers of robots in the four quadrants after 100 seconds |
| MulInstructions.DigitRun | day_3/index.js:77 | the run taken for `[0-9]+` is all digits and stops at the first non-digit or the end |
| MulInstructions.MulAt | day_3/index.js:77-84 | a `mul(a,b)` match spans at least eight characters |
| MulInstructions.MatchAt | day_3/index.js:77 | a match is never empty and starts with `m` or `d` |
| MulInstructions.ParseInput | day_3/index.js:76-86 | `parseInput` throws a TypeError exactly when the text holds no instruction, and otherwise gives the matches in order |
| MulInstructions.MatchText | day_3/index.js:77-84 | a written instruction is matched at the start of any text, as itself, whatever follows it |
| MulInstructions.ScanRender | day_3/index.js:76-86 | scanning instructions written one after another gives them back |
| MulInstructions.ScanSkips | day_3/index.js:77-78 | a character that cannot start an instruction is passed over |
| MulInstructions.ScanNothing | day_3/index.js:77-78 | text without an `m` or a `d` holds no instruction |
| MulInstructions.Part1Total | day_3/index.js:41-50 | part 1 is the sum of the products of all `mul` instructions |
| MulInstructions.Part2Enabled | day_3/index.js:29-68 | part 2 is the sum of the products that no `don't()` has switched off since the latest `do()` |
| MulInstructions.EnabledAtMostTotal | day_3/index.js:41-68 | switching products off never adds, so part 2 is at most part 1 |
| MulInstructions.NoDontSame | day_3/index.js:41-68 | without `don't()` both parts agree |
| MulInstructions.SwitchedOff | day_3/index.js:60-66 | after a `don't()` with no `do()` behind it nothing more counts |
| MulInstructions.Solve | day_3/index.js:29-86 | no answer exactly when the text holds no instruction; otherwise part 1 is the total, part 2 the enabled total, and part 2 is at most part 1 |
| MulInstructions.Example | day_3/index.js:41-86 | the instructions of the puzzle's example give 161 and 48 |
| ListDistance.DistanceSymmetric | day_1/solution.js:30-32 | the total distance is the same with the lists swapped |
| ListDistance.DistancePrefix | day_1/solution.js:30-32 | the first j pairs are never farther apart than all of them |
| ListDistance.DistanceStep | day_1/solution.js:31 | each further pair adds the absolute difference of its two ids |
| ListDistance.DistanceZero | day_1/solution.js:30-32 | two lists are at distance 0 exactly when they are equal |
| ListDistance.SortSettles | day_1/solution.js:19-20 | two lists holding the same ids the same number of times sort to the same list |
| ListDistance.SortedDistanceOrderFree | day_1/solution.js:19-32 | the total distance does not depend on the order the ids come in |
| ListDistance.SortedDistanceSymmetric | day_1/solution.js:19-32 | the total distance of the sorted lists is the same with the columns swapped |
| ListDistance.SortedDistanceZero | day_1/solution.js:19-32 | the total distance is 0 exactly when both columns hold the same ids, each as often |
| ListsJs.NonEmpty | day_1/solution.js:17 | the filter keeps no empty word and changes nothing when no piece is empty |
| ListsJs.Rows | day_1/solution.js:9-17 | one row of words per line of the input |
| ListsJs.ParseInput | day_1/solution.js:9-20 | both columns have exactly one entry per line |
| ListsJs.ParseRender | day_1/solution.js:9-20 | lines of two words separated by three spaces are read back as those words, in order, in both columns |
| ListsJs.TrailingNewline | day_1/solution.js:9-20 | a final line break adds an empty line, so both columns end in `undefined` |
| ListsJs.SortColumn | day_1/solution.js:19-20 | sorting a numeric column keeps its words as a multiset, orders them by value and puts every `undefined` last |
| ListsJs.SortFull | day_1/solution.js:19-20 | a column without `undefined` sorts to its words ordered by value |
| ListsJs.Part1Distance | day_1/solution.js:30-32 | the part 1 loop over numbers sums the absolute differences of the pairs so far |
| ListsJs.Part1Sorted | day_1/solution.js:19-32 | on full numeric columns part 1 is the total distance of the sorted ids |
| ListsJs.Part1Zero | day_1/solution.js:19-32 | part 1 is 0 when both full columns hold the same numbers, each as often |
| ListsJs.Part1OrderFree | day_1/solution.js:19-32 | part 1 does not depend on the order of the input lines |
| ListsJs.UndefinedIsNaN | day_1/solution.js:19-32 | a line without a left id makes part 1 NaN |
| ListsJs.MatchesCount | day_1/solution.js:39-43 | the inner loop adds the left number once for every right entry equal to the left word |
| ListsJs.Part2IgnoresTail | day_1/solution.js:39 | the inner loop stops at the length of the left column and never looks further right |
| ListsJs.Part2Similarity | day_1/solution.js:37-45 | on full columns part 2 adds every left word's number once for every right word that is the same text |
| ListsJs.SimilarityCounts | day_1/solution.js:37-45 | each left word adds its number times its number of occurrences on the right, and words absent on the right add nothing |
| ListsJs.SimilaritySorted | day_1/solution.js:19-45 | sorting the columns does not change the part 2 score |
| ListsJs.RawText | day_1/solution.js:40-41 | words are compared as text: `3` and `03` name the same number but do not pair up |
| ListsJs.Solve | day_1/solution.js:9-46 | on full numeric columns part 1 is the sorted distance and part 2 the similarity score. A missing left id makes part 1 NaN, and a missing id in both columns (a final line break) makes part 2 NaN too |
| ListsJs.BothUndefinedIsNaN | day_1/solution.js:37-45 | when both columns miss an entry, both sort an `undefined` last, `undefined === undefined` holds, and `Number(undefined)` makes part 2 NaN |
| ListsRust.ParseI32 | rust/day_1/src/main.rs:17 | `parse::<i32>` accepts only an optional sign and digits whose value fits in `i32` |
| ListsRust.ParseRejectsBlank | rust/day_1/src/main.rs:17 | the empty text and text with a space are not numbers, so `unwrap` panics |
| ListsRust.ParseIntText | rust/day_1/src/main.rs:17 | every `i32` written out in decimal parses back to itself |
| ListsRust.FindSep | rust/day_1/src/main.rs:16 | the separator found really sits at the position reported |
| ListsRust.JoinSplitStr | rust/day_1/src/main.rs:10-16 | joining the pieces of a split with the separator gives back the text |
| ListsRust.SplitPair | rust/day_1/src/main.rs:16 | two numbers around three spaces split into exactly those two pieces |
| ListsRust.ParseAllFails | rust/day_1/src/main.rs:16-18 | parsing the pieces fails exactly when some piece is not an `i32` |
| ListsRust.ReadLine | rust/day_1/src/main.rs:14-24 | a line that is read gives two `i32` values |
| ListsRust.ReadLines | rust/day_1/src/main.rs:14-24 | reading succeeds with one pair per line, each the reading of its own line |
| ListsRust.ReadRender | rust/day_1/src/main.rs:10-24 | lines of two `i32` values separated by three spaces are read back as those pairs |
| ListsRust.ReadLinesFail | rust/day_1/src/main.rs:14-24 | one bad line anywhere stops the program |
| ListsRust.TrailingNewline | rust/day_1/src/main.rs:10-17 | a final line break leaves an empty line, which `parse` rejects, so the program panics |
| ListsRust.Part1Value | rust/day_1/src/main.rs:52-70 | `part1` is the sorted total distance, or an overflow panic exactly when that distance exceeds `i32::MAX` |
| ListsRust.Part1Symmetric | rust/day_1/src/main.rs:52-70 | `part1` gives the same with its arguments swapped |
| ListsRust.Part1OrderFree | rust/day_1/src/main.rs:52-70 | `part1` depends only on which numbers each vector holds, each how often |
| ListsRust.Part1Short | rust/day_1/src/main.rs:61-63 | a right vector shorter than the left one panics |
| ListsRust.Tally | rust/day_1/src/main.rs:12-21 | the hash map holds exactly the right values, each with its number of occurrences |
| ListsRust.LookupTally | rust/day_1/src/main.rs:81 | `get(&num).unwrap_or(&0)` is the number of times num occurs on the right, 0 when it is absent |
| ListsRust.TallyOrderFree | rust/day_1/src/main.rs:20-21 | the map does not depend on the order of the right values |
| ListsRust.Part2Value | rust/day_1/src/main.rs:75-86 | `part2` is the score when no product or running sum leaves `i32`, and an overflow panic otherwise |
| ListsRust.SmallFits | rust/day_1/src/main.rs:80-82 | when the terms taken positive add up to at most `i32::MAX`, nothing overflows and the score lies within that bound |
| ListsRust.ScoreOfTally | rust/day_1/src/main.rs:20-82 | with the map of counts the score adds, for every left number, the number times its occurrences on the right |
| ListsRust.Solve | rust/day_1/src/main.rs:6-47 | `main` fails with the reading's panic when reading fails, otherwise gives the sorted distance and the similarity score, or an overflow panic when either leaves `i32` |

## Left out

- Console output, timers and grid printing are left out of every solver. This covers `log_answer`, `logAnswer`, `printDayTitlePlate`, `printTotalTime`, `printGrid`, `updateMap` and the Rust `println!` calls. They only present the answers.
- File reading is left out: `readInputFile`, `fs.readFileSync` and `read_to_string`. Each `Solve` takes the file's contents as its parameter.
- The worker threads of days 6 and 7 are left out: `launchWorkers`, `updateAnswer` and the `parentPort`/`workerData` glue. The model keeps the slice arithmetic and runs the slices one after another.
- OperatorSearch.WorkersFlatten: the part 1 rejects are gathered in slice order. With real workers they arrive in whatever order the threads finish, which only reorders the part 2 list.
- JavaScript numbers are modelled as unbounded integers. Precision loss above 2^53 is not modelled, and neither is the float `temp / 10` loop of `concatNums`, which is modelled with exact rationals.
- `NaN` and `undefined` are modelled as `None`. They are kept only where they can reach an answer.
- StoneBlink.SolveParts takes the stones as natural numbers. `ParseInput` gives a word that is no number as `None` and keeps a negative number, and neither is counted by the model.
- GuardWalk: a state is modelled as (x, y, facing). The precomputed `keys` of each cell come from a file that is not part of this model, so each key is taken to name its state exactly.
- GuardWalk.Simulation and GuardWalk.PoolCounts require a rectangular grid. The grid is built outside `simulation.js`, and a ragged row would make `grid[ny][nx]` undefined and throw.
- GuardWalk.Simulation: when the guard is boxed in on four sides, the source loops forever. The model ends with the outcome `Spins` and proves that the guard really is boxed in.
- The day 14 part 2 search is left out (day_14/solution.js:78-94). It is an unbounded loop with a float threshold and no guarantee of ending. The day 14 `parseInput` regular expression is left out too, and the robots are taken as parsed (`ValidBot`).
- RobotQuadrants.Part1Quadrants requires freshly parsed robots on the floor with velocities smaller than the floor. This is what a valid puzzle input holds; `wrapAround` corrects only one floor width.
- MulInstructions: the regular expression engine is replaced by a scanner that tries the same alternatives at each position. `parseInt` of a run of digits is its decimal value.
- Antinodes: the order of the `Map` entries follows the order in which keys first appear, as in JavaScript. Part 2 is proved for every pop order, so the order does not matter there.
- PageOrder: the part 1 memo is modelled as the set of `join('')` keys it stores. The absent-page memo of `isChapterCorrect` is modelled and proved not to change the result.
- ListsJs.SortColumn and ListsJs.Solve require every word of both columns to be a number (`Numeric`). With other words the comparator returns `NaN`, and the order `Array.prototype.sort` then produces depends on the engine.
- ListsJs.Part2Similarity requires both columns to be full and of one length. For a right column longer than the left one, only `Part2IgnoresTail` is stated.
- ListsRust: overflow is modelled as a debug build checks it, as a panic. The wrap-around of a release build is not modelled.
- ListsRust.Tally: the count in the hash map is an unbounded integer. Its `i32` overflow would need more than 2^31 equal lines.
- ListsRust: the hash map is built while the lines are read. It is modelled as the count over the right column once reading succeeds. Reading stops at the first panic, so the result is the same.
- day_4/index.js is not part of this model. It is an empty stub.
- index_template.js is not part of this model. It is a template with no logic.
- Regions.FloodFill, Regions.FindRegions, Regions.SolvePart1 and Regions.SolvePart2, with the lemmas under them, require a rectangular grid (`Rectangular`). `parseInput` trims the input, so a puzzle grid is rectangular. On a ragged grid `isWithinBounds` (day_12/solution.js:174-176) would admit cells past the end of a short row, whose label is undefined.
- Regions.SeenAsNumbers and TrailSearch.ScoreAsNumbers: the solvers keep cells as the numbers `x + y * 10000` (day 12) and `x + y * 1000` (day 10), and the model keeps the cells themselves. The two agree only on grids at most 10000 and 1000 wide. Wider grids, where `Plane.KeyCollides` shows two cells sharing a number, are not modelled.
- DiskCompaction.SolvePart2: the answer is tied to `Compact` through some free list and file list that describe the disk (`FreeList`, `FileList`). That `FreeRuns` and `FileBlocks` produce the only such lists is not proved.
- Equations.RunExact, Equations.TwoPass, OperatorSearch.SequentialParts and OperatorSearch.PartsTotal require every equation to be admissible: well formed, or without numbers, like the empty line after a final line break. A line with exactly one number, or with a number below 1, is outside what they state.
- Antinodes.CoversLine and Antinodes.Part2Antinodes require that no row is wider than the first (`Bounded`). A wider row would hold antennas outside `isWithinBounds`, which part 2 still marks.
- Text.Number reads decimal fractions, exponents, `0x`/`0o`/`0b` prefixes and `Infinity` as NaN, where JavaScript's `Number` gives a number. The solvers pass it only digits, signs, white space and empty strings from puzzle input.
- Equations: success is reported as soon as any prefix of the numbers reaches the test value. This is the source's behaviour and the model keeps it; `OperatorChunk.PrefixSuccess` exhibits it.

## Findings

| source | as written | input that shows it | evidently intended | confidence | as-written member | corrected member |
|---|---|---|---|---|---|---|
| day_11/solution.js:84 | `blink` calls `blinksDigits`, which is defined nowhere, so it throws a ReferenceError | any non-zero stone with at least one blink left, so every input for 25 blinks | the digit count of `countDigits` (day_11/solution.js:124-132) | not executed | StoneBlink.AsWrittenThrows | StoneBlink.BlinkCountsStones |
| day_5/solution.js:63 | part 2 skips every chapter whose `join('')` key part 1 stored at line 135, and different chapters can share a key | rule 23\|1, chapters 12,3,5 and 1,23,5: both have the key `1235`, so part 2 skips the incorrect second chapter and answers 0 instead of 1 | skip exactly the chapters part 1 found correct | not executed | PageOrder.SkippedChapter | PageOrder.PartsPartition |
