# Advent of Code 2021 puzzle solutions, modelled in Dafny

This project models the puzzle logic of a Rust solution set for Advent of Code 2021:
the shared helpers of `common.rs` and the solvers of days 1–3 and 5–15. Each Rust
source file becomes one Dafny module (`Day1` … `Day15`, `Common`), and four helper
modules stand in for the parts of Rust's standard library and crates the solvers use:

- `Wrappers`: `Option` and `Result`.
- `Text`: `str::trim`, `split_once`, `split`, `to_lowercase`, `char::is_whitespace`, and
  `str::parse` for the fixed-width integer types.
- `Seqs`: `Iterator::sum` and the sorts.
- `Grid`: ndarray's `Array2`, the two-dimensional array of days 9, 11 and 15.

Every `panic!`, `unwrap` or `expect` that input can reach becomes an error value
(`Err` with a typed cause, or `None`). The exceptions are the fixed-width overflows that
the lines under "Left out" name one by one: there the model computes with unbounded
integers and does not say which inputs overflow. Reading puzzle input files and printing answers are left out; the
models take the lines or numbers as parameters.

## Model

Functions that only compute (for example `Day2.ToCoord`, `Day2.Navigate`, `Day6.Load`,
`Day6.Days`, `Day9.Minimas`, `Day10.Classify`, `Day10.Score`, `Day13.Lands`, `Day13.Render`,
`Day14.Rules`, `Day15.Reverse`) have no row of their own: the lemma rows that cite the
same source lines state what they compute.

| member | source | states |
|---|---|---|
| Common.Delta | rust/src/common.rs:39-42 | the distance between two numbers: one equals the other plus it, and it is zero exactly when they are equal |
| Common.DeltaMetric | rust/src/common.rs:39-42 | the distance is symmetric and obeys the triangle inequality |
| Common.SumN | rust/src/common.rs:44-47 | `n * (n + 1) / 2` at a fixed width is the triangular number 0 + 1 + … + n, and fails exactly when an intermediate value overflows |
| Common.FreqCount | rust/src/common.rs:26-31 | the keys are exactly the items, and each count is the item's multiplicity |
| Common.FreqCountTotal | rust/src/common.rs:26-31 | the counts over the distinct items add up to the number of items |
| Day1.CountIncreases | rust/src/day1.rs:17-21 | the number of increases is at most one less than the number of depths |
| Day1.CountIncreasesCounts | rust/src/day1.rs:17-21 | the fold counts exactly the positions whose next depth is greater |
| Day1.NonIncreasingHasNone | rust/src/day1.rs:17-21 | depths that never get deeper have no increase |
| Day1.RollingSums | rust/src/day1.rs:9-15 | one window per triple of consecutive depths, each the sum of its three depths |
| Day1.WindowIncreases | rust/src/day1.rs:9-15 | a window sum increases exactly when the depth entering the window exceeds the one leaving it |
| Day2.Ctor | rust/src/day2.rs:26-33 | the label, lowered, selects Forward, Down or Up; any other label is an error |
| Day2.ParseDirection | rust/src/day2.rs:36-42 | a parsed command has an `i32` amplitude; the line is refused for a missing space exactly when its trimmed text holds no space |
| Day2.ParseDirectionSplit | rust/src/day2.rs:26-42 | for a trimmed line split at its first space, the amplitude is refused exactly when it is not an `i32`, the label exactly when the amplitude is fine and the lowered label is not `forward`, `down` or `up`; a parsed command carries that label and amplitude |
| Day2.ParseRender | rust/src/day2.rs:36-42 | parsing the written form of any command with an `i32` amplitude gives the command back |
| Day2.ToCoordIsSums | rust/src/day2.rs:44-50 | the position is the sum of the Forward amplitudes and the sum of Down minus Up amplitudes |
| Day2.ToCoordConcat | rust/src/day2.rs:44-50 | the position after two command lists is the sum of the positions after each |
| Day2.NavigateAgreesWithToCoord | rust/src/day2.rs:9-17 | the part 2 fold moves ahead as part 1 does, and its aim is part 1's depth |
| Day2.Example | rust/src/day2.rs:57-73 | the example commands end at (15, 10) |
| Day2.NavigateExample | rust/src/day2.rs:9-17 | the example commands end 15 ahead at depth 60 in part 2 |
| Day3.ReadBits | rust/src/day3.rs:19-25 | the conversion succeeds exactly when every character is '0' or '1', and maps '1' to true |
| Day3.ToBitvecRender | rust/src/day3.rs:19-25 | reading a written bit vector gives the vector back |
| Day3.ToBitvecExample | rust/src/day3.rs:77-80 | "010110" reads as the vector of the unit test |
| Day3.WeightsCount | rust/src/day3.rs:34-42 | the weights are as long as the longest vector, and each is the number of ones minus the number of zeros in its column |
| Day3.MostCommonBitsMajority | rust/src/day3.rs:43 | a column's bit is one exactly when ones are at least as many as zeros |
| Day3.InvertBits | rust/src/day3.rs:46 | every bit is flipped |
| Day3.InvertInvolution | rust/src/day3.rs:46 | inverting twice gives the vector back |
| Day3.ToInteger | rust/src/day3.rs:48-50 | the result fits in 32 bits |
| Day3.ToIntegerIsValue | rust/src/day3.rs:48-50 | the fold is the big-endian value modulo 2^32, and the value itself for at most 32 bits |
| Day3.ValueInvert | rust/src/day3.rs:46-50 | a value and the value of its inverse add up to 2^n - 1 |
| Day3.PowerConsumption | rust/src/day3.rs:11-17 | the product, when it does not overflow, fits in a `u32` |
| Day3.GammaEpsilonComplement | rust/src/day3.rs:11-17 | gamma and epsilon add up to 2^n - 1 for n columns |
| Day3.PowerConsumptionValue | rust/src/day3.rs:11-17 | for at most 32 columns, gamma is below 2^n and the result is the checked `u32` product of gamma and 2^n - 1 - gamma |
| Day3.PowerExample | rust/src/day3.rs:71-90 | the example's most common bits are 10110 and its power consumption is 198 |
| Day3.ToIntegerExample | rust/src/day3.rs:99-103 | 1010 reads as 10 |
| Day5.LineFrom | rust/src/day5.rs:13-15 | the line's endpoints are the given coordinates |
| Day5.ParsePoint | rust/src/day5.rs:47-55 | a parsed point came from text holding a comma and has `u32` coordinates |
| Day5.ParseLine | rust/src/day5.rs:57-65 | a parsed line came from text holding "->" and both its points have `u32` coordinates |
| Day5.ParsePointOutcome | rust/src/day5.rs:47-55 | a missing comma is reported exactly when there is no comma, and a parsed point has `u32` coordinates |
| Day5.ParsePointErrorOrder | rust/src/day5.rs:47-55 | for text split at its first comma, x is checked before y, and when both trimmed halves are `u32` numbers the point is those two numbers |
| Day5.ParseLineOutcome | rust/src/day5.rs:57-65 | a missing arrow is reported exactly when there is no "->", and a failing point is named p0 or p1 |
| Day5.ParseLineErrorOrder | rust/src/day5.rs:57-65 | for text split at its first "->", p0 is checked before p1, and when both trimmed halves are points the line joins those two points |
| Day5.ArrowSplit | rust/src/day5.rs:60 | a line joined by its first `->` splits back into the two sides |
| Day5.ParseRenderPoint | rust/src/day5.rs:47-55 | parsing the written form of a point with `u32` coordinates gives it back |
| Day5.ParseRenderLine | rust/src/day5.rs:57-65 | parsing the written form of a line gives it back |
| Day5.ExampleFirst | rust/src/day5.rs:84-88 | the first example line parses to the line of the unit test |
| Day5.ExampleLast | rust/src/day5.rs:84-88 | the last example line parses to the line of the unit test |
| Day5.PartitionErrorsSound | rust/src/day5.rs:36-42 | every reported error carries the line number of a line that failed with it, in increasing order |
| Day5.PartitionErrorsComplete | rust/src/day5.rs:36-42 | every failing line is reported |
| Day5.PartitionAllOk | rust/src/day5.rs:36-42 | when no line fails, the parsed values are all the values, in order |
| Day5.Collect | rust/src/day5.rs:36-42 | the result is Ok exactly when every line parsed, and an error lists every failure |
| Day5.ParseLinesOk | rust/src/day5.rs:36-42 | the lines parse exactly when each line does, and the lines come back in order |
| Day5.ParseErrorsReported | rust/src/day5.rs:36-42 | a failed parse reports each failing line once, in order, with its own error |
| Day6.New | rust/src/day6.rs:29 | every bucket is empty and the total is zero |
| Day6.NextDay | rust/src/day6.rs:33-37 | bucket 8 receives the due fish, bucket 6 the due fish plus those in bucket 7, and every other bucket the next one's count |
| Day6.NextDayTotal | rust/src/day6.rs:31-37 | a day adds one fish per fish that was due |
| Day6.DaysTotalGrows | rust/src/day6.rs:33-37 | the population never shrinks |
| Day6.AddOne | rust/src/day6.rs:39 | the bucket gains one fish; an index past the last bucket is an error |
| Day6.LoadOk | rust/src/day6.rs:45-56 | loading succeeds exactly when every piece is a number naming a bucket |
| Day6.LoadCounts | rust/src/day6.rs:45-56 | each bucket gains one fish per piece naming it, and the total grows by the number of pieces |
| Day6.FromStrCounts | rust/src/day6.rs:45-56 | from text, the counts are those of the comma-separated pieces of the trimmed text |
| Day6.LoadRejects | rust/src/day6.rs:49-52 | 9 passes the guard and fails in `add_one`; 10 fails the guard |
| Day6.DaysAdd | rust/src/day6.rs:33-37 | m days followed by n days are m + n days |
| Day6.ExampleDay2 | rust/src/day6.rs:74-88 | the example population after two days |
| Day6.ExampleDay18 | rust/src/day6.rs:90-99 | the example population after 18 days |
| Day6.ExampleTotals | rust/src/day6.rs:90-109 | the example holds 26 fish after 18 days and 5934 after 80 |
| Day7.DisplacePermutation | rust/src/day7.rs:12-13 | the total cost of the crabs does not depend on their order, so sorting them changes no cost |
| Day7.DisplaceConcat | rust/src/day7.rs:12 | the cost of two groups of crabs is the sum of their costs |
| Day7.SortPositions | rust/src/day7.rs:13 | the positions come back sorted, as a permutation of the given ones |
| Day7.MinDisplacePart1 | rust/src/day7.rs:20-30 | no crabs cost 0 and are left alone; otherwise the crabs come back sorted, as a permutation of the given ones |
| Day7.MinDisplaceIsMedianCost | rust/src/day7.rs:24-29 | the result is the total distance to the middle element of the sorted positions |
| Day7.MinDisplaceOptimal | rust/src/day7.rs:16-19 | no alignment position costs less than the median's |
| Day7.MedianOptimal | rust/src/day7.rs:16-27 | on sorted positions, the total distance to `positions[n / 2]` is at most the total distance to any point |
| Day7.DisplaceExamples | rust/src/day7.rs:102-114 | aligning the example crabs at 1, 2, 3 and 10 costs 41, 37, 39 and 71 |
| Day7.MinDisplaceExample | rust/src/day7.rs:116-120 | the example crabs cost 37 |
| Day8.Ord | rust/src/day8.rs:7-17 | each signal has a position below 7 in the list of signals |
| Day8.LedWithFreq | rust/src/day8.rs:53-61 | a found signal is lit exactly n times, and for n > 0 nothing is found exactly when no signal is lit n times |
| Day8.DigitWithLeds | rust/src/day8.rs:62 | a found digit is one of the digits and has n signals; nothing is found exactly when no digit has n signals |
| Day8.RemainingLed | rust/src/day8.rs:64-68 | a found signal is in the digit and not removed; nothing is found exactly when every signal of the digit is removed |
| Day8.SignalRosetta | rust/src/day8.rs:52-86 | a decoded display has one signal per segment a to g |
| Day8.BySegments | rust/src/day8.rs:74-85 | the segment lookups never fail on a frequency |
| Day8.RosettaSteps | rust/src/day8.rs:70-85 | a decoded result is made of the frequency lookups for 9, 4 and 6 followed by the segment lookups |
| Day8.SegmentSteps | rust/src/day8.rs:74-85 | each decoded segment is the remaining signal of its digit once the listed signals are removed |
| Day8.RosettaNoNine | rust/src/day8.rs:61-70 | decoding fails on the first lookup exactly when no signal is lit 9 times |
| Day8.SignalRosettaOutcome | rust/src/day8.rs:52-86 | f, e and b of a decoded display are lit 9, 4 and 6 times; c, d and a come from digits with 2, 4 and 3 signals and differ from the signals removed before them; g is none of the others |
| Day8.RosettaDecodesWiring | rust/src/day8.rs:20-86 | on any display whose signals are a permutation of the segments and which shows the ten digits in any order, decoding returns that permutation |
| Day8.StandardLength | rust/src/day8.rs:22-33 | the ten digits light 6, 2, 5, 5, 4, 5, 6, 3, 7 and 6 segments |
| Day8.ColumnCount | rust/src/day8.rs:22-35 | the segments a to g are lit by 8, 6, 8, 7, 4, 9 and 7 of the ten digits |
| Day8.FreqOfWire | rust/src/day8.rs:35-53 | on a wired display, the signal of each segment is lit as often as that segment is lit by the ten digits |
| Day8.LedWithFreqWired | rust/src/day8.rs:70-72 | the lookups for 9, 4 and 6 find the signals of f, e and b |
| Day8.DigitWithLedsWired | rust/src/day8.rs:74-80 | the lookups for 2, 4 and 3 signals find the digits showing 1, 4 and 7 |
| Day8.RemainingWired | rust/src/day8.rs:64-68 | in a digit, removing the signals of every segment but one leaves that segment's signal |
| Day8.DecodeC | rust/src/day8.rs:74-75 | without f's signal, digit 1 leaves c's |
| Day8.DecodeD | rust/src/day8.rs:77-78 | without the signals of b, c and f, digit 4 leaves d's |
| Day8.DecodeA | rust/src/day8.rs:80-81 | without the signals of c and f, digit 7 leaves a's |
| Day8.DecodeG | rust/src/day8.rs:83 | without the signals of a to f, the list of all signals leaves g's |
| Grid.Get | rust/src/day9.rs:38 | the lookup finds a value exactly for in-bounds indices, and that value is the cell's |
| Grid.Set | rust/src/day9.rs:94 | the shape is kept, the cell written holds the new value and every other cell is unchanged |
| Grid.SetItems | rust/src/day9.rs:94 | writing one cell swaps one item of the array for the new value |
| Grid.Filled | rust/src/day9.rs:102 | every cell of the new array holds the fill value |
| Grid.FromShapeVec | rust/src/day9.rs:22-24 | the array is built exactly when there are rows × columns items, and its row-major items are those items |
| Grid.FromShapeVecItems | rust/src/day9.rs:22-24 | an array rebuilt from its own shape and items is itself |
| Grid.ItemsAt | rust/src/day9.rs:54-55 | row-major iteration meets cell (i, j) at position i × columns + j |
| Grid.IndicesMember | rust/src/day9.rs:54 | indexed iteration visits exactly the in-bounds indices |
| Grid.IndicesAt | rust/src/day9.rs:54-55 | indexed iteration visits index (i, j) at position i × columns + j |
| Grid.IndicesNoRepeats | rust/src/day9.rs:54 | indexed iteration visits no index twice |
| Day9.Candidates | rust/src/day9.rs:27-31 | at most four candidates, each an orthogonal neighbour |
| Day9.CandidatesSymmetric | rust/src/day9.rs:27-31 | between cells with `usize` coordinates, being a candidate neighbour is symmetric |
| Day9.WithHeights | rust/src/day9.rs:32-35 | the pairs kept are the in-bounds candidates with their heights, and every in-bounds candidate is kept |
| Day9.Adjacents | rust/src/day9.rs:26-36 | at most four neighbours, each in bounds, orthogonal, never the cell itself, with its own height |
| Day9.AdjacentsExact | rust/src/day9.rs:26-36 | on a map with `usize` dimensions, the neighbours listed are exactly the in-bounds orthogonal cells with their heights |
| Day9.MinOf | rust/src/day9.rs:42 | the minimum is missing exactly for no heights, and otherwise is one of them and at most every one |
| Day9.IsMinimaSpec | rust/src/day9.rs:40-49 | a cell is a low point exactly when it is in bounds and strictly lower than every in-bounds orthogonal neighbour |
| Day9.MinimasSound | rust/src/day9.rs:51-57 | every entry of the low-point list is one more than the height of some low point |
| Day9.MinimasComplete | rust/src/day9.rs:51-57 | every low point contributes one more than its height |
| Day9.LowRisksSound | rust/src/day9.rs:55 | each entry of the filtered list comes from a selected cell, as its height plus one |
| Day9.LowRisksComplete | rust/src/day9.rs:55 | each selected cell contributes its height plus one |
| Day9.LowPoints | rust/src/day9.rs:51-57 | the low points in iteration order: each low point once, and nothing else |
| Day9.MinimasLowPoints | rust/src/day9.rs:51-57 | the low-point list has one entry per low point, in iteration order, each the height plus one, so every low point counts with multiplicity one |
| Day9.BasinMask | rust/src/day9.rs:77-107 | the reference basin has the map's shape and marks exactly the cells reachable from the start by rising flows below 9 |
| Day9.Uphill | rust/src/day9.rs:87-91 | the cells queued after visiting a cell are exactly the neighbours it flows into: higher than it and lower than 9 |
| Day9.FlowExtends | rust/src/day9.rs:87-91 | a flow out of a basin cell ends in the basin |
| Day9.BasinSize | rust/src/day9.rs:109 | the size is the number of cells set in the mask |
| Day9.FillVisits | rust/src/day9.rs:85-96 | visiting an unvisited cell keeps the flood-fill invariant: visited and queued cells are in the basin, and every flow out of a visited cell is visited or queued |
| Day9.FillSkips | rust/src/day9.rs:78-84 | skipping an out-of-bounds or visited index keeps the flood-fill invariant |
| Day9.MarkCounts | rust/src/day9.rs:94-96 | marking a cell adds one to the visited count and lowers the unvisited count, so the fill terminates |
| Day9.FillEnds | rust/src/day9.rs:82-83 | when the queue runs out, the marked cells are exactly the basin |
| Day9.ClosedMaskCovers | rust/src/day9.rs:77-99 | a mask holding the start and closed under flows holds the whole basin |
| Day9.Basin | rust/src/day9.rs:77-107 | the flood fill returns the reference basin of the start (empty for an out-of-bounds start) and the number of its cells |
| Day9.LargestBasinSizes | rust/src/day9.rs:59-70 | the result is the push-sort-pop fold over the basin sizes of every cell in row-major order |
| Day9.KeepLargestTopN | rust/src/day9.rs:64-68 | one push-sort-pop step turns a top-n selection of the sizes so far into one of the sizes with the new one |
| Day9.LargestTopN | rust/src/day9.rs:59-70 | the fold returns the n largest sizes (all of them when there are fewer), in decreasing order, drawn from the sizes, and none left out exceeds one kept |
| Day9.FirstLineLength | rust/src/day9.rs:115 | the column count is the length of the text before the first newline, or the whole text without one |
| Day9.HeightDigits | rust/src/day9.rs:118-124 | the digits are read exactly when every character is a digit or whitespace, each is below 10, and a failure names a character that is neither |
| Day9.ParseHeightMap | rust/src/day9.rs:112-128 | a parsed map has one row per newline-separated piece and the first line's length as columns, and holds the digits row by row; the shape error occurs exactly when the digit count does not match |
| Day9.ParseRender | rust/src/day9.rs:112-128 | parsing the text of a map of single-digit heights with at least one row gives the map back |
| Day10.PairShape | rust/src/day10.rs:10-17 | the first character of a matching pair is one of `([{<` and the second is not |
| Day10.Step | rust/src/day10.rs:21-29 | one character fails the scan exactly when it is not an opener and the stack is empty or its top is not the character's partner, and the failure names that character; otherwise an opener grows the stack by one and a closer shrinks it by one |
| Day10.OpenerPushes | rust/src/day10.rs:22-23 | an opener is pushed and the scan goes on |
| Day10.CloserPops | rust/src/day10.rs:25-27 | the partner of the opener on top pops it and the scan goes on |
| Day10.ScanConcat | rust/src/day10.rs:21-30 | scanning a concatenation scans the second part from the stack the first leaves, and a failure in the first part is the result |
| Day10.NestedScan | rust/src/day10.rs:19-32 | a well-nested line leaves any stack exactly as it found it |
| Day10.ScanCloses | rust/src/day10.rs:19-32 | a scan that ends with an empty stack closes every opener of its starting stack, innermost first, with well-nested text in between |
| Day10.ScanOpeners | rust/src/day10.rs:22-23 | the stack only ever holds openers |
| Day10.Completion | rust/src/day10.rs:31 | the partners of a stack of openers, innermost first, empty the stack |
| Day10.ValidIffNested | rust/src/day10.rs:19-32 | a line is `Valid` exactly when it is well-nested |
| Day10.CorruptedStops | rust/src/day10.rs:26-27 | once corrupted, a line stays corrupted by the same character whatever follows |
| Day10.Completable | rust/src/day10.rs:31 | a line that is not corrupted is the start of a well-nested line |
| Day10.Uncompletable | rust/src/day10.rs:26-27 | no text after a corrupted line makes it well-nested |
| Day10.IncompleteIffCompletable | rust/src/day10.rs:31 | a line is `Incomplete` exactly when it is not well-nested but is the start of a well-nested line |
| Day10.CorruptedIffUncompletable | rust/src/day10.rs:19-32 | a line is corrupted exactly when no text after it makes it well-nested |
| Day10.PrefixOfValid | rust/src/day10.rs:19-32 | no prefix of a valid line is corrupted |
| Day10.CorruptedAt | rust/src/day10.rs:24-28 | `Corrupted(c)` exactly when `c` is at a position where the text before scans successfully and `c` is a closer meeting an empty stack or a top it does not match |
| Day10.IllegalPosition | rust/src/day10.rs:21-28 | a failed scan has a position where it first failed, holding the character it reports |
| Day10.IllegalHere | rust/src/day10.rs:24-28 | an illegal character after a successful stretch is the one the scan reports |
| Day10.ParseLine | rust/src/day10.rs:19-32 | the loop returns the scan's classification: `Valid` exactly for well-nested lines, `Incomplete` exactly for lines that are not but can be completed, and `Corrupted` exactly for lines that cannot |
| Day10.ScoreConcat | rust/src/day10.rs:34-42 | the score of a concatenation is the sum of the parts' scores |
| Day10.ScoreCounts | rust/src/day10.rs:34-42 | the score is 3, 57, 1197 and 25137 times the number of results corrupted by `)`, `]`, `}` and `>` |
| Day10.ShortValidLines | rust/src/day10.rs:54-63 | the test lines `{}`, `[]`, `<>`, `()` and `([])` are valid |
| Day10.ValidSiblings | rust/src/day10.rs:54-63 | the test line `{()()()}` is valid |
| Day10.ValidNesting | rust/src/day10.rs:54-63 | the test line `<([{}])>` is valid |
| Day10.CorruptedAtOnce | rust/src/day10.rs:66-71 | the test line `(]` is corrupted by `]` |
| Day10.CorruptedAtEnd | rust/src/day10.rs:66-71 | the test line `{()()()>` is corrupted by `>` |
| Day10.SampleScore | rust/src/day10.rs:86-94 | the sample's expected results score 26397 |
| Day11.ProductMember | rust/src/day11.rs:23 | the pairs of a cartesian product are exactly those with the first component from the first range and the second from the second |
| Day11.ProductNoRepeats | rust/src/day11.rs:23 | the cartesian product of ranges without repeats has no repeats |
| Day11.Adjacents | rust/src/day11.rs:16-24 | the cells listed are exactly the in-bounds cells at most one row and one column away from the given cell, the cell itself included, none twice |
| Day11.AdjacentNear | rust/src/day11.rs:16-24 | apart from the cell itself, the cells listed are exactly its in-bounds neighbours |
| Day11.RowMajor | rust/src/day11.rs:32 | the iteration lists every in-bounds index exactly once |
| Day11.Charge | rust/src/day11.rs:32-33 | the increment fails exactly when some octopus is at 255; otherwise the grid keeps its shape and every octopus goes from `e` to `(e + 1) mod 10` |
| Day11.Zeros | rust/src/day11.rs:34 | the queued cells are exactly the listed cells at 0, none twice when the list has no repeats |
| Day11.CascadeStarts | rust/src/day11.rs:31-35 | after phase 1 the queue holds exactly the octopuses at 0, none twice, and every other one holds its incremented energy |
| Day11.VisitBegins | rust/src/day11.rs:39-42 | every octopus popped from the queue is at 0 |
| Day11.BumpSkipsFlashed | rust/src/day11.rs:46 | an adjacent octopus at 0 is left alone and not queued again |
| Day11.BumpLit | rust/src/day11.rs:46 | skipping an octopus at 0 keeps the cascade's bookkeeping |
| Day11.BumpRises | rust/src/day11.rs:46-47 | an adjacent octopus below 9 gains one unit, is not queued, and the number of octopuses at 0 stays the same |
| Day11.BumpFlashes | rust/src/day11.rs:46-48 | an adjacent octopus at 9 wraps round to 0 and is queued once, and the number at 0 grows by one |
| Day11.FlashJustified | rust/src/day11.rs:47-48 | an octopus queued in phase 2 reaches 10 counting its phase-1 energy and its flashed neighbours |
| Day11.VisitEnds | rust/src/day11.rs:43-50 | after the last adjacent cell, every octopus not at 0 counts the visited octopus if it is a neighbour |
| Day11.CascadeEnds | rust/src/day11.rs:39-54 | when the queue runs out the octopuses at 0 are exactly the flashed ones, and the rest hold their phase-1 energy plus one unit per flashed neighbour |
| Day11.Step | rust/src/day11.rs:27-55 | the step fails exactly on an octopus at 255. Otherwise the grid keeps its shape and every energy is a single digit. No octopus flashes twice. The octopuses at 0 are exactly the flashed ones, and the others hold their phase-1 energy plus one per flashed neighbour. An octopus flashes exactly when phase 1 wrapped it to 0 or its flashed neighbours bring it to 10, and each flashed octopus is justified by the neighbours flashed before it in visiting order |
| Day11.Visit | rust/src/day11.rs:41-50 | visiting one popped octopus bumps every adjacent cell, only appends to the queue, and keeps every queued octopus justified by those visited before it |
| Day11.Drain | rust/src/day11.rs:39-51 | draining the queue ends a justified cascade with nothing left to visit |
| Day11.InOrderBump | rust/src/day11.rs:46-48 | an octopus that one bump wraps round to 0 is justified by the octopuses flashed before it |
| Day11.StepDetermined | rust/src/day11.rs:27-55 | any two results that meet `Step`'s contract from the same grid flash the same octopuses and leave the same grid |
| Day12.NodeOf | rust/src/day12.rs:19-26 | `start` and `end` are recognised first; otherwise a label is a small cave exactly when it is all lowercase, and a big cave otherwise, keeping the label |
| Day12.LabelOfNode | rust/src/day12.rs:19-26 | every label is the label of the node it reads as, and that node is well formed |
| Day12.NodeOfLabel | rust/src/day12.rs:19-26 | a well-formed node reads back from its label |
| Day12.NodeOrder | rust/src/day12.rs:10-16 | the derived order (variant first, then label) is irreflexive, transitive and total |
| Day12.Sort | rust/src/day12.rs:56 | the sorted caves are in non-decreasing order and are a permutation of the input |
| Day12.Dedup | rust/src/day12.rs:57 | dropping adjacent duplicates keeps the same caves, turns a sorted list into a strictly sorted one, and keeps the first |
| Day12.StrictlySortedUnique | rust/src/day12.rs:56-57 | two strictly sorted lists holding the same caves are equal |
| Day12.Bidirectional | rust/src/day12.rs:60-62 | a pair is listed exactly when it, or its reverse, is an input passage; there are twice as many pairs as passages |
| Day12.Push | rust/src/day12.rs:68 | one fold step adds the key if new, adds the value to its list only if absent, and never creates a repeat |
| Day12.GroupSpec | rust/src/day12.rs:64-69 | the grouped map has as keys exactly the first components, lists for each exactly its second components, and never repeats one |
| Day12.FirstBigToBig | rust/src/day12.rs:43-50 | finds the first passage between two big caves, and finds none exactly when there is no such passage |
| Day12.Validate | rust/src/day12.rs:43-50 | validation fails exactly when some passage joins two big caves; the error names the first one |
| Day12.New | rust/src/day12.rs:37-40 | building fails exactly when some passage joins two big caves. Otherwise the keys are exactly the caves on a passage, `b` is listed under `a` exactly when `a-b` or `b-a` is a passage, and no list has a repeat |
| Day12.Symmetric | rust/src/day12.rs:60-69 | every cave listed under another has that other one listed under it |
| Day12.NoBigNeighbours | rust/src/day12.rs:42-50 | in a built graph no big cave lists another big cave |
| Day12.StreamMember | rust/src/day12.rs:53-55 | the flattened map holds exactly the keys and their neighbours |
| Day12.Nodes | rust/src/day12.rs:52-58 | the node list is strictly sorted and holds exactly the keys and their neighbours |
| Day12.NodesOrderFree | rust/src/day12.rs:52-58 | the node list is the same whatever order the map yields its keys in |
| Day12.NodesOfNew | rust/src/day12.rs:37-58 | the nodes of a built graph are exactly the caves at the ends of its passages |
| Day12.ParseEdge | rust/src/day12.rs:72-76 | a line fails exactly when its trimmed text has no dash. Otherwise the trimmed line is the first label, a dash, then the second label, and the first label has no dash. Both nodes are well formed, so each label fixes its node |
| Day12.ParseEdgeLine | rust/src/day12.rs:72-76 | the `a-b` line of a passage between well-formed caves with writable labels parses back to that passage |
| Day12.SortedNeighbours | rust/src/day12.rs:64-69 | the sorted list of a cave's neighbours is the one strictly sorted list of the caves sharing a passage with it |
| Day12.SplitRender | rust/src/day12.rs:72 | splitting the text at newlines gives back the line of each passage |
| Day12.ParseLines | rust/src/day12.rs:72-77 | the lines of printable passages parse back to those passages |
| Day12.ParseRender | rust/src/day12.rs:71-78 | parsing the text of printable passages, one per line, builds the same graph as the passages themselves |
| Day12.SampleParse | rust/src/day12.rs:106-117 | the sample text parses to the graph of its seven passages |
| Day13.PosOf | rust/src/day13.rs:13-16 | a line without a comma is refused; a dot read has `i32` coordinates |
| Day13.PosOfSplit | rust/src/day13.rs:13-16 | a line split at its first comma reads exactly when both sides are `i32` numbers, and the dot is those two numbers |
| Day13.PosOfShow | rust/src/day13.rs:13-16 | a dot written as `x,y` reads back as itself |
| Day13.Max | rust/src/day13.rs:18-21 | the result is at least either dot in each coordinate, and each coordinate is taken from one of them |
| Day13.MaxLaws | rust/src/day13.rs:18-21 | the maximum is commutative, associative and idempotent |
| Day13.InstructionOf | rust/src/day13.rs:30-38 | a line not matching `fold along [x,y]=digits` is refused as not matching. The comma axis is refused exactly when the line matches and its number fits, and the number is refused as out of range exactly when the line matches and its digits exceed `i32::MAX`. A line succeeds exactly when it matches with axis `x` or `y` and its number fits, leading zeros included. A success matches, has the axis of its letter, and has the number as its non-negative `i32` line |
| Day13.InstructionOfShow | rust/src/day13.rs:30-38 | a written instruction reads back as itself |
| Day13.CommaAxisPanics | rust/src/day13.rs:31-36 | `fold along ,=N` matches the pattern and is refused because of its axis |
| Day13.Reflect | rust/src/day13.rs:42-51 | a dot keeps the coordinate the fold does not act on, and ends on or before the line unless it did not move |
| Day13.Fold | rust/src/day13.rs:40-53 | the fold fails exactly when some dot overflows or lands off the sheet. Otherwise it yields exactly the landing places of the dots |
| Day13.FoldMembers | rust/src/day13.rs:40-53 | a dot is in the folded set exactly when it was a dot on the kept side, or its mirror image was a dot past the line. Every folded dot is on the sheet and on the kept side |
| Day13.FoldDefined | rust/src/day13.rs:45-50 | for dots on the sheet, the fold succeeds exactly when no dot lies further past the line than the line is from the edge |
| Day13.FoldShrinks | rust/src/day13.rs:40-52 | a fold never yields more dots than it was given |
| Day13.FoldTwice | rust/src/day13.rs:40-52 | folding the folded dots again along the same line changes nothing |
| Day13.Corner | rust/src/day13.rs:82 | the corner is non-negative and at least every dot. Each coordinate is 0 or the coordinate of some dot |
| Day13.RowText | rust/src/day13.rs:84-90 | a row has one character per column, `#` exactly on the dots and a space elsewhere, then a newline |
| Day13.Picture | rust/src/day13.rs:84-90 | the picture has one row per row up to the corner, each spanning the columns up to the corner |
| Day13.RenderShows | rust/src/day13.rs:80-93 | a position shows `#` exactly when a dot is there, so every dot on the sheet is drawn and nothing else is |
| Day13.SampleMerge | rust/src/day13.rs:114-121 | the sample dots (8,4) and (8,10) fold onto one dot along `y=7` |
| Day13.OffTheSheet | rust/src/day13.rs:45 | folding (0,15) along `y=7` would leave the sheet, so the fold fails |
| Day14.RuleOf | rust/src/day14.rs:23 | a line is read as a rule exactly when it is two capitals, ` -> ` and a capital, and then it is the line of that rule |
| Day14.RuleOfShow | rust/src/day14.rs:23-24 | a rule of capitals, written as `AB -> C`, reads back as itself |
| Day14.RulesFail | rust/src/day14.rs:20-26 | folding the rule lines fails exactly when some non-empty line is not a rule, and the failure names the first such line |
| Day14.RulesDomain | rust/src/day14.rs:20-26 | after a successful fold, the map has a rule for a pair exactly when some line gives one |
| Day14.RulesLastWins | rust/src/day14.rs:22-25 | the map holds, for each pair, the element of the last line that gives a rule for it |
| Day14.EmptyLinesSkipped | rust/src/day14.rs:21 | an empty line anywhere among the rule lines changes nothing |
| Day14.ParseInputs | rust/src/day14.rs:14-29 | reading fails for want of a polymer exactly when there are no lines. On success the polymer is the first line verbatim, and reading fails exactly when the rule fold does |
| Day14.MapOfLookup | rust/src/day14.rs:24 | inserting rules whose pairs all differ leaves every rule in the map as written |
| Day14.MapOfDomain | rust/src/day14.rs:24 | the inserted rules' pairs are exactly the keys of the map |
| Day14.IncreasingDistinct | rust/src/day14.rs:41 | rules listed in increasing order of their pairs have no pair twice |
| Day14.ParseRender | rust/src/day14.rs:14-29 | an input written as the polymer, an empty line and one rule per line reads back as that polymer and the map of those rules |
| Day14.SampleParse | rust/src/day14.rs:40-62 | the sample written as an input reads back with polymer `NNCB` and each of the sixteen listed rules |
| Day14.SampleDomain | rust/src/day14.rs:40-62 | the sample holds no rule besides the sixteen listed |
| Day15.DigitsOf | rust/src/day15.rs:20 | the characters convert exactly when all are decimal digits, giving one digit per character |
| Day15.DigitsOfAt | rust/src/day15.rs:20 | each digit is the value of its character |
| Day15.DigitsOfError | rust/src/day15.rs:20 | the conversion fails on the first character that is not a digit |
| Day15.DigitsOfString | rust/src/day15.rs:20 | digits written as characters convert back to themselves |
| Day15.ReverseAt | rust/src/day15.rs:22 | after the reversal, position k holds the element k places from the end |
| Day15.ReverseReverse | rust/src/day15.rs:22 | reversing twice gives the sequence back |
| Day15.Load | rust/src/day15.rs:12-27 | loading fails for want of lines exactly when there are none. It succeeds exactly when the first two lines are `usize` values, every character after the third line is a digit, and there are rows × columns of them. The array then has that shape and holds the digits in reverse order, row by row |
| Day15.LoadFails | rust/src/day15.rs:14-25 | each failure is the first check the input fails: the row count, the column count, the first non-digit, then the digit count against rows × columns |
| Day15.LoadCell | rust/src/day15.rs:18-26 | cell (i, j) holds digit number n·m − 1 − (i·m + j) of the input |
| Day15.LoadRotates | rust/src/day15.rs:18-26 | when the digit lines form an n × m block, the array is that block turned by a half turn |
| Day15.LoadRender | rust/src/day15.rs:12-27 | an array of digits written as its shape, a blank line and its reversed digits loads back as itself |
| Day15.NewMinPaths | rust/src/day15.rs:40-46 | the cache exists exactly when the risks have a row and a column. It has the risks' shape, keeps the risks, and is empty except at the bottom-right cell, which holds `Down` and that cell's risk |
| Day15.NewMinPathsItems | rust/src/day15.rs:41-43 | the new cache holds the seeded entry once and n·m − 1 empty entries |

## Left out

- Reading puzzle input files (`common::parse`, the `part1`/`part2` entry points) and printing answers: I/O.
- `main.rs` and day 4: not part of the modelled core.
- Day6: the population counters are `u64`; their overflow is not modelled.
- Day9.ParseHeightMap: a character other than a digit or whitespace panics in the Rust parser; here it is the error `InvalidChar`, and the shape panic of `from_shape_vec` is the error `ShapeMismatch`.
- Day1.RollingSums: the window sum `a + b + c` is a natural; its `u32` overflow (a panic in a debug build) is not modelled.
- Day1.CountIncreases: the count is a natural; its `u32` overflow needs more than 4×10^9 depths and is not modelled.
- Day2.ToCoordIsSums: the `i32` sums of `to_coord` (and `Day2.ToCoord`) are unbounded here; their overflow is not modelled.
- Day2.Navigate: the `i32` arithmetic `x + dx` and `d + a * dx` of part 2 is unbounded here; its overflow is not modelled.
- Day6: the `test_from_str` sample (`3,4,3,1,2` read into its school) is not proved: evaluating the parser on the literal text is beyond the solver's budget. `FromStrCounts` states the counts for every text.
- Day9: heights are unbounded naturals; the `u8` overflow of `h + 1` in `minimas` is not modelled (parsed heights are single digits).
- Day9: the unit tests on the sample map (`is_minima` at five cells, the low-point list, the three largest basins, and parsing the sample text) are not proved: evaluating the whole literal map is beyond the solver's budget. `IsMinimaSpec`, `LargestTopN` and `ParseRender` state the properties for every map.
- Day9: the visited mask is a `Grid<bool>`, and the queue a sequence; the `#[tailcall]` recursion of `basin_impl` is the loop of `Basin`.
- Day10.Score: a natural number; the `u64` sum cannot overflow for fewer than 7×10^14 lines and is not modelled.
- Day10: the longer unit-test lines (`[<>({}){}[([])<>]]`, `(((((((((())))))))))`, `(((()))}`, `<([]){()}[{}])`) and the ten sample lines are not proved: unfolding the scan over a literal of more than eight characters is beyond the solver's budget. `ValidIffNested` and `CorruptedAt` state what each result means for every line.
- Day11.Adjacents: requires an in-bounds cell; the Rust function subtracts one from the `usize` dimensions and is only called with cells of the grid.
- Day11.Step: also returns the flashed octopuses in the order they were visited, which is the history of the Rust queue; the Rust function returns nothing. The `u8` increment of phase 2 cannot overflow, because energies are single digits by then; the overflow of phase 1 on an octopus at 255 is `None`.
- Day11: the unit tests on the 5×5 grid (one and two steps) and the 10×10 grid (100 steps) are not proved: `Step` is a method, so its result on a literal grid is not a term the verifier can evaluate. `StepDetermined` shows that `Step`'s contract fixes both the flashed octopuses and every energy.
- Day12.NodeOf: `char::is_lowercase` is modelled on ASCII letters only; other Unicode lowercase letters make a big cave here.
- Day12.Nodes: the `HashMap` iteration order is a parameter (any listing of the keys); `NodesOrderFree` shows the result does not depend on it.
- Day12.GroupSpec: the order of each neighbour list (first appearance among the passages taken both ways) is not stated; only its contents and the absence of repeats are.
- Day12: the sorted adjacency lists the sample test expects are not proved: evaluating the grouping over the literal passages is beyond the solver's budget. `SampleParse` takes the sample text to the graph of its passages, and `New` and `SortedNeighbours` fix every list from the passages.
- Day12: path enumeration (`traverse_all`, `traverse`) is commented out and ends in `todo!()` in the source, so there is nothing to model.
- Day13.InstructionOf: `\d` is taken as an ASCII digit. Rust's regex also matches other Unicode digits, which `parse::<i32>` then rejects; both paths panic.
- Day13.Reflect: the `i32` arithmetic `2 * line - coordinate` is checked for overflow, as in a debug build, and overflow is a failure; a release build would wrap.
- Day13.Render: writing to the formatter cannot fail here, so the `fmt::Result` error path is not modelled.
- Day13: `FoldInput::from_file` and the `part1` and `part2` tests read puzzle files and are not modelled.
- Day13: the sample fold of eighteen dots into the seventeen the test lists is not proved. Comparing literal sets that large is beyond the solver's budget. `FoldMembers` fixes the folded set of any dots, and `SampleMerge` shows the one merge in the sample.
- Day14: `from_file` and `Day15.Load` take the lines of the file. `read_lines` splits the file into lines and panics on I/O errors; it is not modelled.
- Day14.RulesLastWins: the map is a Dafny `map`, so the `HashMap` layout and iteration order are not modelled. The unit test sorts the entries, so only the contents matter.
- Day14.SampleParse: the sample file is not part of this model. The lemma reads the sixteen listed rules written as an input, in the order the test lists them.
- Day15: the shortest-path search is not written in the source (only comments describe it), so there is nothing to model beyond the cache seed.
- Day15: the unit test loads a sample file that is not part of this model; `LoadRotates` states what any such file loads to.
- Day15.NewMinPaths: for an array with no rows or no columns, `n - 1` underflows a `usize`; this is `None`, whether the build panics on the subtraction or on the indexing.
- Day15.Load: the `u32` cells are naturals; every loaded cell is a single digit, so the width cannot matter.
- Day3: the `println!` of gamma and epsilon in `power_consumption` is output only.
- Day7 part 2 (`min_displace_part2`): it locates the minimum with `f64` arithmetic (derivative signs, `ceil` and `floor`); floating point is not modelled.
- Day7: the `u32` sum of the displacement costs is unbounded here; its overflow is not modelled.
- Day8: `signal_rosetta` scans a `HashMap` of frequencies, whose order is unspecified; the model scans the signals in order A to G. On every wired display the frequencies searched for are unique, so the order cannot matter there (`RosettaDecodesWiring`).
- Day8: the sample `TEN_DIGITS` of the unit test is not evaluated; `RosettaDecodesWiring` covers every wired display, that one included.
- Day2: the unit test of `to_coord` expects (15, -10), while the code as written yields (15, 10) on that input (down adds depth); `Example` states the code's result.
