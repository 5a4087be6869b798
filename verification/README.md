# Rustvent 2021 in Dafny

A model of the puzzle solvers of Rustvent2021, a Rust solution set for the
2021 Advent of Code, days 1 to 14 (`src/day1.rs` … `src/day14.rs`). Each day
is one Dafny module named after what the day's puzzle handles:

| module | day | what it models |
|---|---|---|
| `Sonar` | 1 | counting depth readings that rise, singly and over three-reading windows |
| `Dive` | 2 | parsing `up`/`down`/`forward` instructions; depth and position, with and without aim |
| `Diagnostic` | 3 | gamma/epsilon from majority bits; the oxygen and carbon rating filters |
| `Bingo` | 4 | `BingoTable` with its counters, `fill`, the first and the last winning board |
| `Vents` | 5 | the vent `Field`: bounds, line rasterisation, overlap count |
| `Lanternfish` | 6 | the timer step, n steps, and the 9-bucket histogram view |
| `Crabs` | 7 | fuel to the cheapest alignment position, linear and triangular |
| `Segments` | 8 | `Code::new` (learning the ten digit patterns) and `Code::decode` |
| `Basin` | 9 | low points, risk sum, flood-filled basin sizes |
| `Syntax` | 10 | bracket matching, corruption scores, completion scores and their median |
| `Octopus` | 11 | the flash cascade, step, flash counts and the first all-flash step |
| `Caves` | 12 | the depth-first path search, with and without one doubled small cave |
| `Origami` | 13 | the dot grid and the two folds |
| `Polymer` | 14 | pair insertion, counted by pairs and characters |

`Common` holds what several days share: `Option`, `Occurrences`, `Pow`,
decimal `ParseNat`/`Show` with their round trip, a functional insertion sort
(sorted and a permutation), `FirstIndex` (Rust's `position`), `NoDup`.

Each operation of the source is a Dafny function (pure logic) or method
(loops as in the source). Where the Rust code panics (an `unwrap` on
`None`, an index out of bounds, an unsigned underflow, `panic!`), the model
returns `None` and its contract says exactly when. Each operation is paired
with a reference definition or an invariant and a lemma connecting the two:
the loops of day 1 count the positions whose next reading is larger; the
pair-count state of day 14 describes the polymer that the insertion rules
grow character by character; the flood fill of day 9 finds exactly the cells
reachable through non-9 cells; and so on.

Input text is handled where the source parses a small format itself: the
day 2 instructions, the day 4 boards from their tokens, the day 9 and day 11
digit grids and the day 13 fold instructions. Elsewhere the model starts
from the parsed values (the day 12 edges as pairs of names, the day 13 dots
as points, the day 14 template and rules as a string and a map). Reading
files, printing and `main` are not modelled.

## Model

| member | source | states |
|---|---|---|
| Sonar.RisesCount | src/day1.rs:8-16 | counting from the front, one per reading above its predecessor, gives the number of positions i whose next reading is larger than reading i |
| Sonar.CountRises | src/day1.rs:8-17 | the first loop: None exactly when there are no readings (the first `unwrap` panics); otherwise the number of positions whose next reading is larger, at most one less than the number of readings |
| Sonar.WindowRises | src/day1.rs:19-24 | a three-reading window sum exceeds the previous one exactly when the reading it gains exceeds the reading it drops (reading i+3 above reading i) |
| Sonar.CountWindowRises | src/day1.rs:19-34 | the second loop: None exactly when there are fewer than three readings (`len - 2` underflows, or no window for the `unwrap`); otherwise the number of positions i with reading i+3 above reading i, at most len-3 |
| Sonar.Example | src/day1.rs:8-34 | on the puzzle's ten example readings 199…263 the two counts are 7 and 5 |
| Dive.ParseShowInt | src/day2.rs:14-18 | every 32-bit integer's decimal text (with `-` when negative) parses back, as `parse::<i32>`, to that integer |
| Dive.HeadOfJoin | src/day2.rs:12-13 | the first token `split(' ')` yields from a word, a space and more text is the word |
| Dive.FromString | src/day2.rs:11-26 | `Instruction::from_string`: a result only when there is a second token, the first token is the instruction's keyword and the second token parses as an i32 to its amount; missing token, bad number and unknown word give None |
| Dive.FromRender | src/day2.rs:11-26 | reading back a rendered instruction (`keyword amount`) gives the instruction, for every i32 amount |
| Dive.PartOne | src/day2.rs:29-41 | `part_one`: depth is the sum of down amounts minus the sum of up amounts, position the sum of forward amounts |
| Dive.PartTwo | src/day2.rs:43-60 | `part_two`: depth is the sum over forward moves of the aim built by the instructions before it times the distance; position is part one's; the final aim equals part one's depth |
| Dive.Example | src/day2.rs:88-93 | on the example course the results are (10, 15) for part one and depth 60 for part two |
| Diagnostic.ShiftIsDiv | src/day3.rs:7-9 | shifting right by k is dividing by 2^k, so testing bit i is the `b & 2^i > 0` mask test |
| Diagnostic.PartOne | src/day3.rs:5-14 | `part_one`: gamma is below 2^size and gamma + epsilon = 2^size - 1 |
| Diagnostic.GammaBit | src/day3.rs:6-11 | bit i of gamma is set exactly when i < size and more than half (rounded down) of the lines have bit i set |
| Diagnostic.BitOfComplement | src/day3.rs:13 | for g below 2^k, `2^k - 1 - g` has bit i (i < k) set exactly when g does not |
| Diagnostic.EpsilonBit | src/day3.rs:13 | bit i of epsilon (i < size) is set exactly when bit i is not the majority bit |
| Diagnostic.Keep | src/day3.rs:24-27 | the filter keeps a sub-multiset of the lines: a line is kept exactly when its bit i equals the wanted bit, and as many are kept as have that bit |
| Diagnostic.Rating | src/day3.rs:17-51 | the rating search returns one of the report lines or 0; the exact value is stated by `Diagnostic.RatingFirstSingle` |
| Diagnostic.RatingFirstSingle | src/day3.rs:17-51 | the rating is the one line left after the first filtering round that leaves exactly one, and 0 when no round does, for the oxygen and the CO2 loop alike |
| Diagnostic.OxygenKeepsHalf | src/day3.rs:21-27 | the oxygen round (`len * 2 >= n` picks the bit) keeps at least half of the candidates, and at least one of a non-empty list |
| Diagnostic.OxygenNarrows | src/day3.rs:19-33 | distinct candidates that agree on every bit from k up are narrowed by the remaining k rounds to a single line, which the search returns |
| Diagnostic.OxygenFound | src/day3.rs:17-33 | on distinct report lines below 2^size the oxygen rating is one of the lines, never the fallback 0 |
| Diagnostic.CarbonEmpties | src/day3.rs:37-51 | the carbon round (`len * 2 < n` picks the bit) empties a list whose lines all share the bit, so on [2, 3] the carbon rating falls back to 0 |
| Bingo.RowMarksAll | src/day4.rs:57-60 | the marks counted along a row equal its length exactly when every cell of the row is marked |
| Bingo.ColMarksAll | src/day4.rs:57-60 | the marks counted along a column equal its length exactly when every cell of the column is marked |
| Bingo.RowMarksCount | src/day4.rs:57-60 | the marks counted along a row are the number of marked cells among its first k |
| Bingo.ColMarksCount | src/day4.rs:57-60 | the marks counted along a column are the number of marked cells among its first k |
| Bingo.UnmarkedMark | src/day4.rs:62-68 | marking cell i lowers the sum of unmarked numbers by the number at i |
| Bingo.GetPos | src/day4.rs:41-43 | `get_pos`: None exactly when the board has no columns (division by zero) |
| Bingo.GetPosInverts | src/day4.rs:41-43 | `get_pos` inverts the row-major index `cols * r + c` of every cell |
| Bingo.Get | src/day4.rs:78-80 | `get`: a value exactly when `cols * row + col` is inside the numbers, and then one of the board's numbers |
| Bingo.FromTokens | src/day4.rs:15-39 | `BingoTable::from_str` on the split lines: None exactly when there are no lines or a token is not a number; otherwise rows and columns from the lines, numbers read in order, nothing marked and all counters 0 |
| Bingo.FromTokensGrid | src/day4.rs:15-39 | on rectangular lines the board is consistent and the cell at (r, c) holds the number of token c of line r |
| Bingo.MarkValid | src/day4.rs:54-58 | marking an unmarked cell and bumping its row and column counters keeps every counter equal to the marks on its line |
| Bingo.FillAbsent | src/day4.rs:46-49 | drawing a number not on the board changes nothing and scores nothing |
| Bingo.FillMarks | src/day4.rs:45-58 | `fill` marks exactly the first occurrence of the number and nothing else; a number whose cell is already marked changes nothing |
| Bingo.FillScores | src/day4.rs:54-71 | `fill` scores exactly when it marks a cell that completes its row or column; the score is the sum of unmarked numbers times the number, that sum being the previous one less the number |
| Bingo.FillAllStep | src/day4.rs:85-87 | the board after one more draw is `fill` of the board before it |
| Bingo.PartOne | src/day4.rs:83-95 | `part_one`: None exactly when no board wins on any draw (the `panic!`); otherwise the score of the first win in draw order, boards in their order within a draw |
| Bingo.OnlyOneLeft | src/day4.rs:108 | exactly one `false` is left in `won` (at k) exactly when every other board has won |
| Bingo.TurnLast | src/day4.rs:103-109 | a board still in play scores the last win exactly when its draw scores and it is the only board not yet won |
| Bingo.WonStep | src/day4.rs:101-112 | a board has won within one more draw exactly when it had won before or wins on that draw |
| Bingo.PartTwo | src/day4.rs:97-120 | `part_two`: None exactly when no board ever wins while all others have already won (the `panic!`); otherwise the score of that last win |
| Vents.UpdateMinMax | src/day5.rs:48-54 | `update_min_max`: the new bounds contain the value, lowering the minimum or raising the maximum only when the value lies outside |
| Vents.FindBounds | src/day5.rs:58-64 | the bounds found contain the origin and both endpoints of every line |
| Vents.BoundsTight | src/day5.rs:58-64 | each bound is 0 or a coordinate of some endpoint, so the bounds are the smallest containing the origin and all endpoints |
| Vents.Span | src/day5.rs:82-87 | `get_iter`: from p1 to p2 inclusive, in either direction, one value per step |
| Vents.SpanMembers | src/day5.rs:82-87 | `get_iter` yields each value between its ends once and nothing else |
| Vents.VerticalPoints | src/day5.rs:90-93 | a vertical line covers exactly the points on the segment between its ends |
| Vents.HorizontalPoints | src/day5.rs:94-97 | a horizontal line covers exactly the points on the segment between its ends |
| Vents.LinePointsFacts | src/day5.rs:89-105 | `add_line` visits no point twice and only points between the ends; all of them for axis-parallel lines, none for a diagonal when diagonals are off |
| Vents.AsWrittenSquare | src/day5.rs:111-113 | `get_index` as written is in range and tells cells apart when the field is square |
| Vents.AsWrittenCollides | src/day5.rs:111-113 | as written, on a field with more rows than columns two cells get the same index |
| Vents.AsWrittenOverruns | src/day5.rs:111-113 | as written, on a field with more columns than rows a cell's index lies past the storage |
| Vents.Index | src/day5.rs:111-113 | the row-major index `cols * (y - min_y) + (x - min_x)` of an in-field point lies inside the storage |
| Vents.IndexInjective | src/day5.rs:111-113 | the row-major index tells in-field points apart |
| Vents.Bump | src/day5.rs:124-129 | `self[(x, y)] += 1`, with the corrected index (the day 5 Finding): raises the count at that point by one and no other |
| Vents.AddLine | src/day5.rs:89-105 | `add_line`, with the corrected index (the day 5 Finding), raises the count of every point the line covers by one and leaves the others |
| Vents.FromLines | src/day5.rs:56-80 | `Field::from_str` on parsed lines, with the corrected index (the day 5 Finding): the field contains the origin and every endpoint, and each point's count is the number of lines covering it |
| Vents.PartHot | src/day5.rs:149-151 | `part` counts the cells holding 2 or more |
| Vents.PartIsOverlaps | src/day5.rs:149-151 | `part`, with the corrected index (the day 5 Finding), is the number of in-field points covered twice or more |
| Vents.CoveredBySome | src/day5.rs:75-77 | a point with positive coverage lies on some line |
| Vents.Solve | src/day5.rs:143-151 | parse then `part`, with the corrected index (the day 5 Finding): the number of points covered by at least two lines, on a field of any shape |
| Lanternfish.StepLoop | src/day6.rs:10-25 | `step_loop`: every timer above 0 counts down and every 0 becomes 6, in place; then one 8 per timer that was 0 is appended |
| Lanternfish.NStep | src/day6.rs:27-31 | `n_step`: n applications of the day's step |
| Lanternfish.StepInRange | src/day6.rs:10-25 | a step keeps every timer within 0..8 |
| Lanternfish.DaysInRange | src/day6.rs:27-31 | any number of steps keeps every timer within 0..8 |
| Lanternfish.StepTally | src/day6.rs:10-25 | after a step, timer t is held by the fish that held t+1, plus for 6 and for 8 as many as held 0 |
| Lanternfish.StepHistogram | src/day6.rs:10-38 | on timers within 0..8 a step rotates the nine counters, the count at 0 joining 6 and moving to 8 |
| Lanternfish.DaysHistogram | src/day6.rs:27-38 | on timers within 0..8, n steps rotate the counters n times |
| Lanternfish.SizeIsTotal | src/day6.rs:34-44 | on timers within 0..8 the school's size, the puzzle's answer, is the sum of the nine counters |
| Lanternfish.ExampleDay | src/day6.rs:62-67 | one step turns 3,4,3,1,2 into 2,3,2,0,1 |
| Crabs.MinCost | src/day7.rs:12-15 | the cheapest cost over targets 0..hi-1 is the cost of one of them and at most the cost of each |
| Crabs.MaxOf | src/day7.rs:11 | `iter().max()`: None exactly when there are no crabs; otherwise a position at least every position |
| Crabs.PartOneAsWritten | src/day7.rs:10-16 | `part_one` as written: None exactly when there are no crabs or all are at 0 (empty range 0..0) |
| Crabs.PartTwoAsWritten | src/day7.rs:18-31 | `part_two` as written: None exactly when there are no crabs or all are at 0 |
| Crabs.AsWrittenMissesMax | src/day7.rs:10-31 | a single crab at 3 costs 0 fuel at 3, yet both parts as written answer 1 |
| Crabs.CostGrows | src/day7.rs:12-13 | beyond the largest position, moving the target out never lowers the cost |
| Crabs.Cheapest | src/day7.rs:12-15 | the cheapest target among 0..=max costs no more than any target at all |
| Crabs.PartOne | src/day7.rs:10-16 | corrected `part_one` (range 0..=max): None exactly when there are no crabs; otherwise the least linear fuel over every target position, attained by one |
| Crabs.TriangleTwice | src/day7.rs:24-25 | n(n+1) is twice 1+2+…+n |
| Crabs.CostTwice | src/day7.rs:20-31 | summing n(n+1) over the crabs and halving at the end loses nothing: the sum is twice the triangular fuel |
| Crabs.PartTwo | src/day7.rs:18-31 | corrected `part_two` (range 0..=max): None exactly when there are no crabs; otherwise the least triangular fuel over every target position, attained by one |
| Segments.BySize | src/day8.rs:30-36 | the size pass: None exactly when some pattern has neither 5 nor 6 segments nor a size listed in `DIGITS_LENS` (the lookup's `unwrap` panics); the digits it learns are among 1, 4, 7 and 8 |
| Segments.SixDigit | src/day8.rs:39-45 | a six-segment pattern is classed 6, 9 or 0; None exactly when the pattern of 1 is unknown, or the pattern shares other than one segment with 1 while the pattern of 4 is unknown (the `unwrap`s) |
| Segments.FiveDigit | src/day8.rs:49-55 | a five-segment pattern is classed 3, 2 or 5; None exactly when the pattern of 1 is unknown, or the pattern shares other than two segments with 1 while the pattern of 4 is unknown |
| Segments.PlaceSix | src/day8.rs:38-46 | the six-segment pass keeps every digit learned so far and changes only 0, 6 and 9 |
| Segments.PlaceFive | src/day8.rs:48-56 | the five-segment pass keeps every digit learned so far and changes only 2, 3 and 5 |
| Segments.New | src/day8.rs:19-61 | `Code::new`, when it does not panic, yields ten patterns, each one of the training patterns |
| Segments.LearnedFromPats | src/day8.rs:19-56 | every pattern the three passes learn is one of the training patterns |
| Segments.RewireSize | src/day8.rs:31-35 | scrambling the wires by a one-to-one wiring keeps the number of lit segments |
| Segments.RewireMeet | src/day8.rs:39-55 | scrambling the wires keeps the number of segments two patterns share |
| Segments.StandardMeets | src/day8.rs:39-55 | on the standard display, 6 shares one segment with 1 and 0 and 9 share two; 9 shares four with 4 and 0 three; 3 shares two with 1 and 2 and 5 one; 2 shares two with 4 and 5 three |
| Segments.WiredShows | src/day8.rs:30-56 | the ten patterns of any wiring have the standard sizes and the overlaps with 1 and 4 that the passes test |
| Segments.SizeTells | src/day8.rs:31-34 | a digit's pattern has 6 segments exactly for 0, 6, 9 and 5 exactly for 2, 3, 5; `DIGITS_LENS` maps its size to the digit itself for 1, 4, 7, 8 and to nothing otherwise |
| Segments.BySizeDigits | src/day8.rs:30-36 | on patterns of a display the size pass succeeds, every digit it learns is learned at its true pattern, and every 1, 4, 7 or 8 present is learned |
| Segments.BySizeSix | src/day8.rs:32 | the list set aside as six-segment holds only patterns of 0, 6 or 9 |
| Segments.BySizeSixAll | src/day8.rs:32 | every pattern of 0, 6 or 9 among the training patterns is set aside as six-segment |
| Segments.BySizeFive | src/day8.rs:33 | the list set aside as five-segment holds only patterns of 2, 3 or 5 |
| Segments.BySizeFiveAll | src/day8.rs:33 | every pattern of 2, 3 or 5 among the training patterns is set aside as five-segment |
| Segments.PlaceSixShows | src/day8.rs:38-46 | with 1 and 4 learned correctly, the six-segment pass succeeds and learns each set-aside pattern at its true digit |
| Segments.PlaceFiveShows | src/day8.rs:48-56 | with 1 and 4 learned correctly, the five-segment pass succeeds and learns each set-aside pattern at its true digit |
| Segments.AllPlaced | src/day8.rs:58-60 | after both passes every digit 0..9 is learned, so the final `unwrap`s do not panic |
| Segments.NewShows | src/day8.rs:19-61 | training patterns that include the ten distinct patterns of a display, and nothing else, make `Code::new` return exactly those ten, digit by digit |
| Segments.NewScrambled | src/day8.rs:19-61 | for every wiring, training patterns covering its ten scrambled digits make `Code::new` return the scrambled digits in order |
| Segments.DigitOf | src/day8.rs:72-79 | the digit a pattern matches is the index of the first learned pattern equal to it (0 when none is) |
| Segments.DigitAt | src/day8.rs:72-79 | the first index holding p is p's digit |
| Segments.DigitOfNoDup | src/day8.rs:72-79 | in a code without repeated patterns the pattern at index d reads as d |
| Segments.Reading | src/day8.rs:63-85 | the reading of the output patterns is None exactly when some output pattern equals more than one learned pattern |
| Segments.ReadingPrepend | src/day8.rs:70-81 | a pattern in front of s makes the reading None exactly when it is ambiguous or s's reading is; otherwise it adds its digit times 10^|s| |
| Segments.Lookup | src/day8.rs:71-81 | the inner loop: None exactly when p equals more than one learned pattern; otherwise base plus p's digit times the place value |
| Segments.Decode | src/day8.rs:63-85 | `Code::decode` over the split output patterns computes the reading: digits at place values from the right, None on an ambiguous pattern |
| Segments.ReadingDigits | src/day8.rs:63-85 | with a code of distinct patterns, outputs that are the code's patterns for digits ds read as the decimal number ds spells |
| Segments.EasySize | src/day8.rs:99-105 | a digit's segment count is 4, 3, 2 or 7 exactly when the digit is 1, 4, 7 or 8 |
| Segments.CountEasyDigits | src/day8.rs:94-106 | on a scrambled display whose output tokens name each wire once, the outputs of easy length are exactly those showing 1, 4, 7 or 8 |
| Segments.PartOneShown | src/day8.rs:89-109 | `part_one` over such lines counts the outputs showing 1, 4, 7 or 8 |
| Segments.SumAll | src/day8.rs:116-121 | summing the line values is None exactly when some line's value is None (its `unwrap` panics) |
| Segments.SumAllSome | src/day8.rs:116-121 | when every line has a value, the sum is the sum of the values |
| Segments.PartTwoNone | src/day8.rs:112-122 | `part_two` is None exactly when some line has no value |
| Segments.PartTwoSum | src/day8.rs:112-122 | when every line has a value, `part_two` is their sum |
| Segments.LineReads | src/day8.rs:116-120 | a line whose training tokens are a wiring's ten patterns and whose output tokens show digits ds through that wiring is worth the number ds spells |
| Basin.FromLines | src/day9.rs:13-27 | `Field::from_str`: None exactly when there are no lines or some character is not a decimal digit (the `unwrap`s panic); otherwise rows is the number of lines and cols the first line's length |
| Basin.FromLinesGrid | src/day9.rs:13-35 | on lines of equal length the field is consistent and `get(x, y)` is the digit at column x of line y |
| Basin.Get | src/day9.rs:29-35 | `get`: a value exactly when (x, y) lies inside the field |
| Basin.CheckLow | src/day9.rs:41-53 | the neighbour test: a point is kept exactly when every neighbour inside the field is higher |
| Basin.LowPoints | src/day9.rs:37-57 | `get_low_points`: exactly the low points, in column-major order (x outer, y inner) |
| Basin.RiskSumOrderFree | src/day9.rs:78-84 | the risk sum of the low points is the same for any listing of them without repeats |
| Basin.PartOne | src/day9.rs:78-84 | `part_one`: the sum of height + 1 over the low points |
| Basin.ReachOn | src/day9.rs:108-112 | a point next to a reachable point and below 9 is reachable |
| Basin.FillDone | src/day9.rs:95-114 | when the queue is empty the invariant-kept counted set is the whole basin: every point reachable from the start through points below 9 |
| Basin.BasinSize | src/day9.rs:90-116 | the flood fill counts exactly the points reachable from the low point through points below 9 |
| Basin.OrderedUnique | src/day9.rs:40-54 | two column-major ordered lists with the same points are equal |
| Basin.TopThreeLargest | src/day9.rs:119-121 | after `sort_unstable` the product of the last three is a product of a largest value, a value with at most one above it and one with at most two above it |
| Basin.PartTwo | src/day9.rs:86-122 | `part_two`: None exactly when there are fewer than three low points (`size - 3` underflows); otherwise the product of the three largest basin sizes |
| Syntax.BraceFromChar | src/day10.rs:17-25 | `Brace::from_char`: a brace exactly for that brace's opening or closing character, an error for anything else |
| Syntax.DelimiterFromChar | src/day10.rs:49-55 | `Delimiter::from_char`: an opener exactly for an opening character, a closer exactly for a closing character, an error exactly where `Brace::from_char` errs |
| Syntax.Scan | src/day10.rs:78-94 | the per-line loop never reaches the "Close bracket on stack" panic, keeps only openers on the stack, and on a line of delimiters never meets an unknown character |
| Syntax.ScanAppend | src/day10.rs:80-93 | scanning a concatenation scans the first part, then continues on the second from the stack the first part left, unless the first part already ended the line |
| Syntax.CorruptedIff | src/day10.rs:84-89 | a line is corrupted by brace b exactly when some closer of b meets a different opener on top of the stack, every earlier character having been accepted |
| Syntax.ScanRender | src/day10.rs:80-93 | well-formed nested chunks leave the stack as they found it |
| Syntax.CompletionCloses | src/day10.rs:122-126 | appending the closers of the remaining stack, top first, closes an incomplete line completely |
| Syntax.CompletionScoreIsClosersScore | src/day10.rs:122-126 | folding the reversed stack with `score * 5 + value` is the score of the completion string read from the left |
| Syntax.CompletionScoreInjective | src/day10.rs:122-126 | two open stacks have the same completion score exactly when they are equal, and the score is 0 exactly for the empty stack |
| Syntax.LineErrorScore | src/day10.rs:76-95 | the per-line closure of `part_one`: a score exactly for a corrupted line, always one of 3, 57, 1197, 25137 |
| Syntax.LineCompletionScore | src/day10.rs:103-129 | the per-line closure of `part_two`: a score exactly for a line that is not corrupted and never closes an empty stack |
| Syntax.BalancedLineScores | src/day10.rs:72-129 | a line of well-formed chunks scores nothing in part one and 0 in part two |
| Syntax.ErrorTotal | src/day10.rs:72-97 | the total is 0 exactly when no line is corrupted |
| Syntax.PartOne | src/day10.rs:72-97 | `part_one`: None (the `unwrap` panic) exactly when some line reaches a character that is no delimiter; otherwise 0 exactly when no line is corrupted |
| Syntax.CompletionScores | src/day10.rs:100-130 | no score is collected exactly when no line is incomplete or balanced |
| Syntax.PartTwo | src/day10.rs:99-134 | `part_two`: None exactly on a panic (an unknown character, or no score to index); otherwise a collected score with at most len/2 scores below it and at most len - len/2 - 1 above it, the element at index len/2 of the sorted scores |
| Octopus.IndexFacts | src/day11.rs:28-41 | the row-major index of an in-bounds coordinate lies below rows * cols, and its remainder and quotient by cols give back x and y |
| Octopus.IndexInjective | src/day11.rs:28-34 | two in-bounds coordinates share an index exactly when they are equal |
| Octopus.Get | src/day11.rs:28-34 | `get`: a level exactly when (x, y) lies inside the grid, and then the level at its row-major index |
| Octopus.GetCoordRoundTrip | src/day11.rs:36-41 | `get_coord` of an index inside the grid is an in-bounds coordinate whose index is that index, so `get` reads the same level |
| Octopus.GetCoordExamples | src/day11.rs:183-190 | on a grid ten wide, index 10 is (0, 1), 0 is (0, 0) and 15 is (5, 1) |
| Octopus.Cascade | src/day11.rs:67-97 | the queue loop ends with every level in 1..11, lowers no level, keeps every flashed octopus flashed, and leaves each octopus either flashed with raised level plus flashed neighbours reaching 10, or below 10 at exactly that sum |
| Octopus.CascadeLeast | src/day11.rs:67-97 | the octopuses the loop flashes lie inside every set that is closed under flashing |
| Octopus.Step | src/day11.rs:51-107 | `step`: levels stay digits, the grid keeps its shape, and the count returned is the number of octopuses left at 0 |
| Octopus.StepFixedPoint | src/day11.rs:51-107 | after a step the octopuses at 0 are exactly the least set closed under flashing, and every other octopus holds its raised level plus its number of flashed neighbours |
| Octopus.SyncMeansDark | src/day11.rs:99-106 | a step in which every octopus flashes leaves the whole grid at 0 |
| Octopus.IterateAdd | src/day11.rs:43-49 | repeating a step a + b times is a times then b times, and the counts add |
| Octopus.NStep | src/day11.rs:43-49 | `n_step`: levels stay digits and the total is at most n times the grid size |
| Octopus.NStepAdd | src/day11.rs:165-175 | splitting the steps, as the test does (1 + 1 + 18 + 80), adds up to the same total |
| Octopus.PartOne | src/day11.rs:128-131 | `part_one`: the flashes of 100 steps, at most 100 times the grid size, the first 99 steps' total plus the hundredth step's flashes |
| Octopus.PartTwo | src/day11.rs:133-141 | `part_two`: the first step in which every octopus flashes, with no such step before it; None exactly when none of the first `limit` steps is one |
| Octopus.FromLines | src/day11.rs:12-26 | `Field::from_str`: None (a panic) exactly when there is no line or a character is not a decimal digit; otherwise rows is the line count and cols the first line's length |
| Octopus.FromLinesGet | src/day11.rs:12-34 | on lines of equal length made of digits, the parsed grid is at rest and `get(x, y)` is the digit at column x of line y |
| Caves.Kind | src/day12.rs:22-29 | `NodeType::from_str`: a name is Lower exactly when lower-casing leaves it unchanged, that is when it holds no ASCII upper-case letter |
| Caves.KindExamples | src/day12.rs:170-174 | "HN" is a big cave, "dc", "start" and "end" are small |
| Caves.AddConnection | src/day12.rs:44-58 | one direction of a line: adds exactly the connection a to b, unless b is "start", creating a's node only then, and changes nothing else |
| Caves.Parse | src/day12.rs:40-63 | `parse`: a connects to b exactly when some line joins them, in either order, and b is not "start"; every node has a connection |
| Caves.ParseKeys | src/day12.rs:40-63 | a name has a node exactly when some line joins it to a cave other than "start" |
| Caves.SmallOnceExtend | src/day12.rs:130-142 | for a route whose earlier caves repeat no small cave, the `count() > 1` check passes exactly when the whole route repeats none |
| Caves.SmallTwiceExtend | src/day12.rs:87-104 | for a route whose earlier caves double at most one small cave, the check with the `doubled` flag passes exactly when the whole route still doubles at most one, at most twice |
| Caves.DoubledFlag | src/day12.rs:96-100 | after the check, the flag is set exactly when some small cave of the route occurs twice |
| Caves.SmallCountTwice | src/day12.rs:87-104 | a route that doubles at most one small cave visits small caves at most one more time than there are small caves, which bounds the search |
| Caves.FindRoutesOne | src/day12.rs:116-156 | the search of `part_one` terminates (no two big caves adjacent); None (the `unwrap` panic on a cave without a node) exactly when some explored route reaches such a cave; otherwise it records, without repeats, exactly the walks from "start" to "end" that repeat no small cave |
| Caves.PartOne | src/day12.rs:116-156 | `part_one`: the number of those routes |
| Caves.FindRoutesTwo | src/day12.rs:65-114 | the search of `part_two`: None exactly on the lookup panic; otherwise it records, without repeats, exactly the walks from "start" that first reach "end" at their last cave and visit at most one small cave twice |
| Caves.PartTwo | src/day12.rs:65-114 | `part_two`: the number of those routes |
| Caves.RouteOneFacts | src/day12.rs:116-156 | a route of part one starts at "start", ends at "end", passes "end" once and visits every small cave once |
| Caves.RouteTwoFacts | src/day12.rs:65-114 | a route of part two starts at "start", ends at "end", passes "end" once, visits small caves at most twice and at most one of them twice |
| Caves.DeadEndPanics | src/day12.rs:44-58 | a cave joined only to "start" gets no node, so both searches reach the lookup panic |
| Origami.ParseFold | src/day13.rs:11-22 | `Fold::from_str`: skips eleven characters, takes the axis, skips one, parses the rest; None (a panic) exactly when the axis is missing or not x or y, or the number does not parse |
| Origami.ParseShowFold | src/day13.rs:11-22 | every instruction written as "fold along x=n" or "fold along y=n" parses back to itself |
| Origami.SampleFolds | src/day13.rs:198-202 | the sample's instructions parse to Y(7) and X(5) |
| Origami.CoordIndex | src/day13.rs:113-119 | `get_coord` undoes `get_index` for every column inside the sheet |
| Origami.IndexCoord | src/day13.rs:113-119 | `get_index` undoes `get_coord` for every index inside the storage, and the coordinates lie inside the sheet |
| Origami.Mark | src/day13.rs:150-155 | writing through the index operator sets that cell of the sheet and no other |
| Origami.Extent | src/day13.rs:53-54 | the largest x and the largest y among the dots: every dot is within them and some dot reaches each |
| Origami.FromPoints | src/day13.rs:40-69 | `Field::from_str` on parsed points: None (a panic) exactly for no points; otherwise one column wider than the largest x, one row taller than the largest y, and the dots are exactly the points |
| Origami.ReadsYExactly | src/day13.rs:78-87 | some pair of cells `folded_y` combines lies outside the storage exactly when the sheet has columns, row > 0 and 2 * row is not a row of the sheet |
| Origami.ReadsXExactly | src/day13.rs:89-98 | some pair of cells `folded_x` combines lies outside the storage exactly when the sheet has rows, col > 0 and 2 * col is not a column of the sheet |
| Origami.FoldedY | src/day13.rs:78-87 | `folded_y`: None (a panic) exactly when some cell (x, y) with y < row lies past the storage, or is empty and its mirror (x, 2 * row - y) lies past it, since `\|\|` reads the mirror only after an empty cell; otherwise a sheet of row rows whose cell is set when the cell or its mirror across y = row is set |
| Origami.FoldedX | src/day13.rs:89-98 | `folded_x`: None (a panic) exactly when some cell (x, y) with x < col lies past the storage, or is empty and its mirror (2 * col - x, y) lies past it, as `\|\|` short-circuits; otherwise a sheet of col columns whose cell is set when the cell, or its mirror read through the flat index `x + cols * y` (which wraps into the next row when 2 * col - x >= cols), is set |
| Origami.InsideFolds | src/day13.rs:71-98 | a fold whose mirror cells all lie on the sheet (2 * at within it, or at = 0) does not panic |
| Origami.FoldedDots | src/day13.rs:71-98 | a fold that does not panic and whose mirror cells stay within their rows (every y-fold; an x-fold with 2 * col inside the sheet) leaves exactly the dots off the fold line and within its mirror range, each moved to its mirror image |
| Origami.CountIsDots | src/day13.rs:100-108 | `count` is the number of dots of the sheet |
| Origami.FoldNeverAdds | src/day13.rs:71-108 | a fold that does not panic and reads within rows never increases the count |
| Origami.PartOneAsWritten | src/day13.rs:172-174 | `part_one` as written: None exactly when there is no instruction or the first fold panics; otherwise the number of dots after the first fold, which, when that fold reads within rows, is the number of mirrored kept dots and at most the number before |
| Origami.FoldAll | src/day13.rs:177-181 | the folds in order: the result is a consistent sheet, with no more dots than the start when every fold reads within rows |
| Origami.FoldAllDots | src/day13.rs:177-181 | when every fold reads within rows, folding the sheet instruction by instruction leaves exactly the points that folding the dots alone leaves |
| Origami.PartTwoAsWritten | src/day13.rs:176-183 | `part_two` as written: None exactly when there is no instruction or some fold panics; otherwise the consistent sheet it prints, which holds exactly the folded points and no more dots than the start when every fold reads within rows |
| Origami.AsWrittenMissesEdge | src/day13.rs:53-87 | dots at (0, 1) and (0, 3) make a sheet of 4 rows; folding along y = 2, the empty cell (0, 0) makes `\|\|` read row 4, past the storage, so the fold panics, though the intended result is the single dot (0, 1) |
| Origami.AsWrittenWrapAdds | src/day13.rs:89-98 | dots at (2, 0), (0, 1) and (1, 1) on a 3 by 2 sheet, folded along x = 2: the mirror of (1, 0) is read at flat index 3, which is (0, 1), so the folded sheet holds 4 dots where 3 went in, though the intended result is the dots (0, 1) and (1, 1) |
| Origami.Pad | src/day13.rs:53-56 | growing the sheet with empty cells keeps exactly its dots |
| Origami.FoldFixed | src/day13.rs:71-98 | the fold on a sheet grown to reach 2 * at: never panics, and leaves exactly the kept dots at their mirror images, no more than before |
| Origami.FoldAllFixed | src/day13.rs:177-181 | every fold on a grown sheet: exactly the points folding the dots leaves |
| Origami.PartOne | src/day13.rs:172-174 | `part_one` with grown sheets: None exactly when there is no instruction; otherwise the number of kept and mirrored dots of the first fold, at most the count before |
| Origami.PartTwo | src/day13.rs:176-183 | `part_two` with grown sheets: None exactly when there is no instruction; otherwise a sheet holding exactly the points folding the dots leaves |
| Polymer.Bump | src/day14.rs:45-47 | `*entry(k).or_insert(0) += d`: the entry for k grows by d, every other count stays, and k gains an entry |
| Polymer.Drop | src/day14.rs:44 | `*entry(k).or_insert(0) -= d` on an entry of at least d: it shrinks by d, every other count stays |
| Polymer.Tally | src/day14.rs:31-37 | the counting loops: each key counts its occurrences, the keys are exactly the elements, and every entry is positive |
| Polymer.Pairs | src/day14.rs:30-33 | `windows(2)`: the adjacent pairs, one fewer than the characters |
| Polymer.Expand | src/day14.rs:42-50 | one snapshot entry: with a rule, the pair loses k, its two new pairs and the inserted character gain k each, nothing else changes; without a rule nothing changes |
| Polymer.GainWithout | src/day14.rs:40-51 | expansions of other pairs never lower a pair's count, so the subtraction on line 44 never goes below zero |
| Polymer.TidyExpand | src/day14.rs:42-50 | an expansion keeps every character count positive, even when the snapshot count is 0 and `or_insert(0)` would otherwise create a 0 entry that `min` would report |
| Polymer.Step | src/day14.rs:40-51 | one round over a snapshot: every pair and character count changes by the total effect of expanding each snapshot pair as often as the snapshot counts it, and the maps stay tidy |
| Polymer.GrowPairs | src/day14.rs:39-52 | growing the polymer once changes each pair's occurrences by the effect of expanding every adjacent pair once |
| Polymer.GrowChars | src/day14.rs:39-52 | growing the polymer once changes each character's occurrences by the characters inserted |
| Polymer.RoundAgrees | src/day14.rs:39-52 | on maps that count the pairs of a polymer, one round's changes are exactly those of growing the polymer once |
| Polymer.Round | src/day14.rs:40-51 | one round on maps that describe a polymer describes the polymer grown once |
| Polymer.Rounds | src/day14.rs:27-52 | after n rounds the maps count exactly the pairs and characters of the polymer grown n times |
| Polymer.CountsExceedPairs | src/day14.rs:27-52 | the character counts add up to one more than the pair counts at every round |
| Polymer.Extremes | src/day14.rs:54 | `values().max()` and `values().min()`: a largest and a smallest count of the map |
| Polymer.SpreadAgrees | src/day14.rs:54 | the largest and smallest counts of the character map are those of the most and least common characters of the polymer |
| Polymer.Part | src/day14.rs:26-55 | `part`: None (the `unwrap` panic) exactly for an empty template; otherwise the count of the most common character of the polymer grown n times minus that of the least common one |
| Common.ParseNat | src/day13.rs:44 | `parse::<usize>`: an optional leading `+`, then one or more decimal digits; on text that starts with a digit it succeeds exactly when every character is a digit |
| Common.ParseShow | src/day13.rs:17-18 | every number written in decimal parses back to itself |
| Common.ParseAll | src/day4.rs:25 | parsing every token: None exactly when some token does not parse, otherwise the numbers in order |
| Common.FirstIndex | src/day4.rs:46 | `position`: None exactly when the value is absent, otherwise the index of its first occurrence |
| Common.Sort | src/day10.rs:132 | `sort_unstable`: a sorted permutation of its input |
| Common.OrderStatistic | src/day10.rs:132-133 | the element at index k of the sorted sequence occurs in the input, with at most k elements below it and at most len - k - 1 above it |

## Left out

- `src/day15.rs` is not part of this model.
- Reading input files (every `parse` function and `main`), printing and the `Display` impls: I/O, not logic.
- `n_step_efficient` (`src/day6.rs:34-39`): an unfinished stub that builds a histogram and returns nothing; `Lanternfish.StepHistogram` and `Lanternfish.DaysHistogram` state what it was heading for.
- Test answers computed from input files this model does not read (days 3 to 14, e.g. 4512 and 1924 for day 4, 1588 for day 14); the examples small enough to state are lemmas (`Sonar.Example`, `Dive.Example`, `Lanternfish.ExampleDay`, `Origami.SampleFolds`, `Octopus.GetCoordExamples`).
- Machine integer widths: values are unbounded integers, and no arithmetic is wrapped, so inputs large enough to overflow are not modelled. The source does its day 1 and day 2 arithmetic in i32: day 1 parses its readings as i32, so the three-reading window sums are i32, and day 2 keeps its depth, position and aim totals and `depth * position` in i32. The i32 range is kept only for the parsed day 2 amounts (`Dive.ParseI32`). Day 1 readings are taken as unbounded integers. The other widths are u32, usize and u64: day 3 `u32::pow`, day 8 `usize::pow`, day 10 completion scores and day 14 counts.
- Dive.PartOne: the depth and position totals are unbounded, where the source's i32 `depth -= x`, `depth += x` and `position += x` overflow on large inputs.
- Dive.PartTwo: the aim, depth and position totals and `aim * x` are unbounded, where the source's i32 arithmetic overflows on large inputs.
- Sonar.CountWindowRises: the window sums are unbounded, where the source's i32 sums overflow for readings near the i32 limits.
- Day 3 binary text parsing (`from_str_radix`): the model starts from the numbers and the bit width.
- Day 5 `Line::from_str` (parsing "x1,y1 -> x2,y2"): `Vents.FromLines` starts from parsed lines.
- Day 8 splitting of the entry text at " | " and at spaces: `Segments.Decode` and `Segments.New` start from the split tokens as sets of segments.
- Day 12 line parsing at "-": the graph is built from name pairs.
- Caves.Kind: lower-casing is modelled on the ASCII letters 'A'..'Z' only; a name holding a non-ASCII capital, which the source's `to_lowercase() == name` makes a big cave, is Lower in the model.
- Day 13 point parsing (`split(",")`, `parse::<usize>` and the `assert!`) and the split at the blank line: `Origami.FromPoints` starts from the points.
- Day 14 parsing of the template and the rules: `Polymer` starts from a string and a map.
- `HashSet` iteration order (day 12) and `BTreeMap` iteration order (day 14) are modelled as an arbitrary duplicate-free list of the keys, so every contract holds for any order.
- Bingo.Fill: requires a consistent board (a rectangular grid whose row and column counters match its marks). Boards come from `Bingo.FromTokens`, which gives such a board for rectangular input (`Bingo.FromTokensGrid`); ragged boards, which the source accepts and then indexes wrongly, are not modelled.
- Bingo.PartOne: requires every board consistent, as for `Bingo.Fill`.
- Bingo.PartTwo: requires every board consistent, as for `Bingo.Fill`.
- Basin.PartOne: requires a rectangular grid (`rows * cols` cells); ragged input lines, which `from_str` accepts and `get` may then misread, are not modelled.
- Basin.PartTwo: requires a rectangular grid, as for `Basin.PartOne`.
- Octopus.PartOne: requires a rectangular grid of digits, as parsing produces.
- Octopus.PartTwo: searches at most `limit` steps and answers None when none of them flashes everywhere; the source loops without bound.
- Origami.PartOneAsWritten: requires a consistent sheet (`rows * cols` cells), as `Field::from_str` produces; the dot image and the bound hold only when the first fold reads within rows (`Origami.InRows`), since an x-fold past the sheet's middle wraps into the next row (`Origami.AsWrittenWrapAdds`).
- Origami.PartTwoAsWritten: requires a consistent sheet, as for `Origami.PartOneAsWritten`; the dot image and the bound hold only when every fold reads within rows (`Origami.AllInRows`).
- Origami.FoldedDots: requires the fold to read within rows; a wrapping x-fold can add dots (`Origami.AsWrittenWrapAdds`), and the corrected `Origami.FoldFixed` needs no such condition.
- Origami.FoldNeverAdds: requires the fold to read within rows, as for `Origami.FoldedDots`.
- Origami.FoldAll: bounds the count only when every fold reads within rows, as for `Origami.FoldedDots`.
- Origami.FoldAllDots: requires every fold to read within rows, as for `Origami.FoldedDots`.
- Vents.AddLine: requires both end points inside the field, which holds for fields built from the lines' own bounds (`Vents.FromLines`).
- Caves.FindRoutesOne: requires that no two big caves are connected anywhere in the graph. The source's search never ends only when such a pair is reachable from "start" (it can bounce between them forever), so the requires also excludes graphs whose connected big caves are unreachable and change nothing.
- Caves.FindRoutesTwo: requires that no two big caves are connected, with the same excess as for `Caves.FindRoutesOne`.
- Caves.PartOne: requires that no two big caves are connected, with the same excess as for `Caves.FindRoutesOne`.
- Caves.PartTwo: requires that no two big caves are connected, with the same excess as for `Caves.FindRoutesOne`.
- Polymer.Step: requires the key list to hold every pair of the state exactly once, which is what iterating the map yields.

## Findings

| source | as written | input that shows it | evidently intended | confidence | as-written member | corrected member |
|---|---|---|---|---|---|---|
| src/day5.rs:111-113 | `get_index` computes `cols * (x - min_x) + (y - min_y)`, mixing the column count with the x offset | a field of 2 columns and 3 rows: points (0, 2) and (1, 0) both get index 2; a field of 3 columns and 2 rows: point (2, 1) gets index 7 of a 6-cell vector | row-major `cols * (y - min_y) + (x - min_x)`, in range and one-to-one | not executed | Vents.AsWrittenCollides | Vents.IndexInjective |
| src/day7.rs:10-31 | the candidate targets are `0..max`, which stops before the largest position | a single crab at 3: both parts answer 1, though moving to 3 costs nothing; all crabs at 0 make the range empty and `unwrap` panics | the targets `0..=max` | not executed | Crabs.AsWrittenMissesMax | Crabs.PartOne |
| src/day13.rs:53-87 | the sheet is sized by the largest dot, and a fold reads its mirror cells without checking they exist | dots (0, 1) and (0, 3), fold along y = 2: cell (0, 0) is empty, so `\|\|` reads its mirror in row 4, past the 4-row sheet, and the fold panics | the fold gives the single dot (0, 1), as on a sheet reaching row 2 * 2 | not executed | Origami.AsWrittenMissesEdge | Origami.FoldFixed |
| src/day13.rs:89-98 | `folded_x` reads the mirror `(2 * col - x, y)` through the flat index `x + cols * y` without checking the column | dots (2, 0), (0, 1) and (1, 1) on a 3-column sheet, fold along x = 2: the mirror of (1, 0) is column 3, read as index 3, which is the dot (0, 1), so the fold yields 4 dots from 3 | the fold gives the dots (0, 1) and (1, 1), as on a sheet reaching column 2 * 2 | not executed | Origami.AsWrittenWrapAdds | Origami.FoldFixed |
