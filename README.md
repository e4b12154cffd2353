# Advent of Code 2020 solutions, modelled in Dafny

This project models the twenty daily puzzle solutions of the Rust repository
`advent-code-2020` (`src/day_one.rs` ... `src/day_twenty.rs`) and proves properties of them.
Each Rust file becomes one Dafny module (`DayOne` ... `DayTwenty`). The module `Common`
models the parts of Rust's standard library the solutions build on: `split`, `splitn`,
`trim`, `lines`, parsing of unsigned decimals, and counting.

A solution that works by recursion and iterator chains is modelled as functions and
lemmas. A solution that updates variables in a loop is modelled as a method with a
`while` loop, proved against a specification function. A struct whose methods change its
fields is modelled as a class: `DaySix.GroupIterator`, `DaySeventeen.Board` and
`DayTwenty.Block`.

Modelling conventions:

- Reading the puzzle input from a file becomes a parameter: the file's lines (or its
  text) as a `seq<string>`.
- Numbers are unbounded. Where the Rust code would overflow a `u32`, `u16`, `usize` or
  `isize`, or underflow an unsigned subtraction, the model either says so in a
  precondition or treats the numbers as unbounded. Each such case is listed below.
- Rust's `/` on signed integers truncates toward zero, so it is written out
  (`DayTwelve.TruncDiv`). `rem_euclid` is Dafny's `%`.
- A `HashMap` or `HashSet` becomes a `map` or `set`.

## Model

| member | source | states |
|---|---|---|
| Common.Count | src/day_twenty.rs:92 | `filter(..).count()` of one value: at most the length, 0 exactly when the value is absent |
| Common.CountAppend | src/day_two.rs:34 | counting is additive over concatenation |
| Common.CountAllEqual | src/day_eleven.rs:94 | a sequence of one value counts its length |
| Common.IndexOfAny | src/day_sixteen.rs:117-119 | the first position holding a separator, None exactly when there is none |
| Common.SplitOn | src/day_sixteen.rs:98 | `str::split` gives at least one part |
| Common.SplitOnNoSeparator | src/day_sixteen.rs:98 | a text without separator splits into itself |
| Common.SplitOnAfterPrefix | src/day_sixteen.rs:98 | the text before the first separator is the first part, the rest is split on |
| Common.SplitOnTwo | src/day_sixteen.rs:98 | two separator-free texts around one separator split into those two |
| Common.SplitOnConcat | src/day_nineteen.rs:75 | splitting at a separator splits both sides independently |
| Common.SplitOnJoin | src/day_thirteen.rs:10 | splitting a join gives the parts back when no part holds the separator |
| Common.SplitN | src/day_two.rs:13 | `str::splitn(n, ..)` gives between 1 and n parts |
| Common.SplitNAfterPrefix | src/day_nineteen.rs:63 | the text before the first separator is the first part of `splitn`, the rest is split into n - 1 |
| Common.IndexOfStr | src/day_fourteen.rs:96 | the first occurrence of the pattern, None exactly when it does not occur |
| Common.SplitOnce | src/day_fourteen.rs:96-97 | both parts of `splitn(2, pat)`: the text around the first occurrence of the pattern |
| Common.TrimStart | src/day_eighteen.rs:37 | trimming never lengthens a text |
| Common.TrimEnd | src/day_eighteen.rs:37 | trimming never lengthens a text |
| Common.ParseUnsigned | src/day_two.rs:15 | `parse` of an unsigned type gives only values of that type |
| Common.ParseSigned | src/day_nine.rs:7 | `isize::from_str` gives only `isize` values |
| Common.DigitChar | src/day_sixteen.rs:122 | the character of a decimal digit has that digit's value |
| Common.Decimal | src/day_sixteen.rs:122 | the decimal text of a number is a non-empty digit string |
| Common.DecimalValue | src/day_sixteen.rs:122 | the digits of a number's decimal text have its value |
| Common.ParseDecimal | src/day_two.rs:15 | `parse` reads back the decimal text of every value in range |
| DayOne.PairSearch | src/day_one.rs:7-8 | the pair found from (i, j) on sums to the value, and no pair from (i, j) up to it, or after (i, j) at all when none is found, sums to it |
| DayOne.FindPairSummingTo | src/day_one.rs:5-9 | None exactly when no pair of positions sums to the value; otherwise the values at the first such pair in `tuple_combinations` order |
| DayOne.TripleSearch | src/day_one.rs:14-15 | the triple found from (i, j, k) on sums to the value and no triple between (i, j, k) and it does |
| DayOne.FindTripleSummingTo | src/day_one.rs:12-16 | None exactly when no triple of positions sums to the value; otherwise the values of the first such triple in lexicographic order |
| DayOne.PairExamples | src/day_one.rs:37-45 | the sample [1, 2, 3, 4] gives no pair for 12 and (3, 4) for 7 |
| DayOne.TripleExamples | src/day_one.rs:47-55 | the sample gives no triple for 12 and (2, 3, 4) for 9 |
| DayTwo.ParseLine | src/day_two.rs:11-27 | a parsed line's bounds are usize values (they were read with `parse::<usize>`) |
| DayTwo.ParsePasswordFile | src/day_two.rs:10-28 | `filter_map` over the lines: the policies of the lines that parse, in order; ParsePasswordFileLines and ParseEveryLine state this for every input |
| DayTwo.ParsePasswordFileLines | src/day_two.rs:10-28 | every policy of the file comes from one of its lines, there are at most as many policies as lines, and none is dropped when every line parses |
| DayTwo.ParseEveryLine | src/day_two.rs:10-28 | when every line parses, the file is the lines' policies in their order |
| DayTwo.DecimalHasNoSeparator | src/day_two.rs:13 | a rendered number holds neither of the separators ' ' and '-' |
| DayTwo.RenderSplits | src/day_two.rs:12-13 | `splitn(4, ' ' or '-')` cuts a rendered line "lo-hi c: password" into the two numbers, "c:" and the whole password |
| DayTwo.ParseRender | src/day_two.rs:11-27 | every policy with usize bounds and a letter that is no separator is read back from its rendering "lo-hi c: password" |
| DayTwo.ParseExample | src/day_two.rs:71-82 | the three sample lines give three policies, the last one 1-2 'a' "aaa" |
| DayTwo.ParseExampleLines | src/day_two.rs:72-75 | each sample line parses to its policy |
| DayTwo.ParseExampleLine | src/day_two.rs:11-27 | a line "d-d c: password" with one-digit bounds parses to that policy |
| DayTwo.IsValidForTaskOne | src/day_two.rs:30-36 | valid exactly when the letter's count in the password lies in [atLeast, atMost] |
| DayTwo.LetterOccurrences | src/day_two.rs:31-33 | the filtered characters are all the letter, and there are as many as it occurs |
| DayTwo.Nth | src/day_two.rs:41-44 | `nth(n)` gives character n and leaves the rest after it, or None and an exhausted iterator |
| DayTwo.IsValidForTaskTwo | src/day_two.rs:38-47 | valid exactly when one, and only one, of the 1-based positions atLeast and atMost holds the letter (the second `nth` continues the same iterator) |
| DayTwo.TaskOneExamples | src/day_two.rs:84-130 | the source's four first-policy cases |
| DayTwo.TaskTwoExamples | src/day_two.rs:132-178 | the source's four second-policy cases |
| DayThree.CalculateCollisions | src/day_three.rs:10-30 | the column stays below the board width and there are at most as many collisions as lines |
| DayThree.CollisionsCountTrees | src/day_three.rs:20-29 | after n lines the toboggan is in column 3n mod width, and the count is exactly the number of lines i with a non-`.` character at column 3i mod width |
| DayThree.TreesOnPathPrefix | src/day_three.rs:20-29 | the trees met on the first n lines do not depend on the lines after them |
| DayThree.SampleTreesFirstHalf | src/day_three.rs:42-58 | six lines into the sample map the toboggan has met three trees |
| DayThree.SampleTrees | src/day_three.rs:42-58 | the sample map has seven trees on the path |
| DayThree.SampleCollisions | src/day_three.rs:42-58 | the source's test: seven collisions on the sample map of width 11 |
| DayFour.GroupEnd | src/day_four.rs:19-31 | the first empty line at or after the position, or the end: every line before it is non-empty |
| DayFour.NextBatch | src/day_four.rs:17-32 | one call of the batching closure: None when the group is empty, otherwise the group's lines joined by " ", and the position after the group and the empty line that ended it |
| DayFour.ConvertToCredentials | src/day_four.rs:15-43 | the credentials are the records of the batching, each turned into its map of fields |
| DayFour.FieldSplits | src/day_four.rs:37-40 | a part gives a field exactly when it holds a ':'; the key holds no ':' and key, ':' and value make the part again |
| DayFour.LastWithKey | src/day_four.rs:41 | the last part with a given key, or None when no part has it |
| DayFour.CollectFields | src/day_four.rs:36-41 | `collect` into a HashMap: a key is present exactly when some part has it, and it maps to the value of the last such part |
| DayFour.ParseAll | src/day_four.rs:33-42 | one credential per record |
| DayFour.CountValid | src/day_four.rs:45-51 | at most all credentials are counted; all of them exactly when every one holds the seven mandatory keys, none exactly when none does |
| DayFour.EmptyGroupEndsStream | src/day_four.rs:25-26 | an empty line where a group should start ends the stream |
| DayFour.BatchesNonEmpty | src/day_four.rs:22-29 | every record the batching yields is non-empty |
| DayFour.BatchingExample | src/day_four.rs:17-32 | lines "a:1", "b:2", "", "c:3" give the records "a:1 b:2" and "c:3"; two empty lines in a row end the stream |
| DayFour.FieldOfPair | src/day_four.rs:38-39 | a part "key:value" whose key has no ':' gives (key, value) |
| DayFour.CredentialExampleParts | src/day_four.rs:36 | the test line splits on ' ' into its two parts |
| DayFour.CredentialExampleFields | src/day_four.rs:37-40 | the two parts give the fields (test, value) and (another, again) |
| DayFour.CredentialExample | src/day_four.rs:66-75 | the test line maps "test" to "value" and "another" to "again" |
| DayFive.BinaryValue | src/day_five.rs:6-9 | the value of the digits, `one` read as 1, is below 2^length |
| DayFive.Pow2 | src/day_five.rs:9 | powers of two are positive |
| DayFive.ToIntegerFromBinaryString | src/day_five.rs:5-10 | `from_str_radix(_, 2)` into u32 succeeds exactly when the pass is non-empty and its value fits in 32 bits, and gives that value; the empty pass is its own error |
| DayFive.Encode | src/day_five.rs:6-8 | the pass that encodes a value has the requested length |
| DayFive.DecodeEncode | src/day_five.rs:5-10 | decoding the encoding of a value below 2^n gives the value back |
| DayFive.Example | src/day_five.rs:34-37 | the source's test: "WWbeW" with 'W' as one is 25 |
| DayFive.SeatId | src/day_five.rs:15-19 | the id is below 1024; its quotient by 8 is the row of characters 0-6 ('B' is 1) and its remainder the column of characters 7-9 ('R' is 1) |
| DayFive.FirstGap | src/day_five.rs:22-24 | the first window at or after the position whose seats differ by exactly two, or None when there is none |
| DayFive.FindMissingSeat | src/day_five.rs:22-25 | None exactly when no two neighbouring ids differ by two; otherwise the id after the first such lower id, which is missing while its two neighbours are present |
| DayFive.HighestSeat | src/day_five.rs:27 | `last().unwrap_or(0)` on the sorted ids: no id exceeds it, and it is one of them when there are any |
| DaySix.GroupLength | src/day_six.rs:27-30 | the first empty line or the end: every line before it is non-empty |
| DaySix.CharSetMembers | src/day_six.rs:31 | the set of a line holds exactly the characters that occur in it |
| DaySix.LettersMembers | src/day_six.rs:27-32 | the letters of a group are exactly the characters on its lines |
| DaySix.CharSetStep | src/day_six.rs:31 | inserting one more character adds it to the set |
| DaySix.LettersStep | src/day_six.rs:27-32 | one more line adds its characters to the aggregation |
| DaySix.AggregateNone | src/day_six.rs:33-37 | a group is None exactly when the input is exhausted or starts with an empty line |
| DaySix.InsertLetters | src/day_six.rs:31 | the loop over the characters leaves the old set plus the line's characters |
| DaySix.AggregateAnswers | src/day_six.rs:25-38 | the loop over the lines gives the group's letters (None when there are none) and leaves the lines after the empty one |
| DaySix.Groups | src/day_six.rs:17-23 | every group an iterator yields is non-empty |
| DaySix.GroupIterator.constructor | src/day_six.rs:10-14 | the new iterator holds the lines |
| DaySix.GroupIterator.Next | src/day_six.rs:20-22 | `next` calls `aggregate_answers` on the shared line iterator; the groups seen before are this one followed by those after it |
| DaySix.SumOfGroupSizes | src/day_six.rs:42-47 | the answer is the sum of the sizes of the groups the iterator yields |
| DaySix.Example | src/day_six.rs:57-70 | the source's test: "ab", "bc", "d", "", "a" give {a, b, c, d} and {a} |
| DaySeven.PathPrepend | src/day_seven.rs:12-21 | a path from a parent extends to a path from the bag through that parent |
| DaySeven.SearchParents | src/day_seven.rs:11-26 | the set only grows, it takes in every direct parent, every new name's own parents, and only names that can eventually contain the bag |
| DaySeven.ClosedHasPaths | src/day_seven.rs:11-26 | a set closed under parents holds the end of every parent path from the bag |
| DaySeven.SearchFromEmpty | src/day_seven.rs:79-82 | started from the empty set, the search returns exactly the bags that can eventually contain the bag |
| DaySeven.CountContained | src/day_seven.rs:29-38 | the `map`/`sum` over a run of children: each child's count times one plus what that child holds, 0 for a child missing from the map; CountAppend and CountAtLeastDirect state its additivity and its bounds |
| DaySeven.GetChildrenCount | src/day_seven.rs:28-39 | for a ranked bag, whose reachable bags are then ranked too, the number of bags it holds, counted through its children; CountRankIrrelevant shows it does not depend on the rank, CountAtLeastDirect that it is at least each child's own count |
| DaySeven.CountRankIrrelevant | src/day_seven.rs:28-39 | the count of contained bags does not depend on the ranking that shows the rules acyclic |
| DaySeven.CountAppend | src/day_seven.rs:29-38 | the `sum` over two runs of children is the sum of their counts |
| DaySeven.CountAtLeastDirect | src/day_seven.rs:30-37 | each child contributes at least its own count, and exactly that when it is not a bag of the map (`unwrap_or(0)`) |
| DaySeven.ShinyGoldContainers | src/day_seven.rs:79-82 | part one, on any bag map: 0 without a "shiny gold" bag, otherwise the number of bags that can eventually contain it |
| DaySeven.ShinyGoldAnswers | src/day_seven.rs:79-84 | with a rank only for "shiny gold" and what it reaches: without a "shiny gold" bag both answers are 0; otherwise the second is its children count and the first the number of bags that can eventually contain it |
| DaySeven.RankedChild | src/day_seven.rs:30-37 | a child of a ranked bag that is itself a bag of the map is ranked, and lower than its parent |
| DaySeven.CycleUnranked | src/day_seven.rs:28-39 | two bags that each hold the other, one of them ranked, admit no ranking: a containment cycle reachable from the counted bag is excluded |
| DaySeven.UnreachableCycleCounts | src/day_seven.rs:28-39 | a "shiny gold" bag with no children beside a pair of bags holding each other is ranked by ranking it alone, and counts 0 contained bags |
| DaySeven.TakeUntil | src/day_seven.rs:47 | `take_while(w != stop)`: the words before the first `stop`, none of them `stop`, and the rest after the consumed `stop` |
| DaySeven.TakeUntilPrefix | src/day_seven.rs:53-55 | `take_while(!starts_with(prefix))`: the words before the first one starting with the prefix, and the rest after that consumed word |
| DaySeven.SkipNo | src/day_seven.rs:48 | `find(w != "no")` consumes words and never adds any |
| DaySeven.ChildNamesStep | src/day_seven.rs:62-70 | one more child adds its name to the names seen |
| DaySeven.LastCount | src/day_seven.rs:64-67 | the count of the last entry for a child, None exactly when the child is not among the entries |
| DaySeven.AddParentsAt | src/day_seven.rs:62-70 | after the children are processed a bag is present exactly when it was or is a child; its parents gain this rule's name with the last count, its children do not change |
| DaySeven.RuleStateAt | src/day_seven.rs:62-76 | what one rule line does to each bag: present when it was, is a child or is the rule's bag; the rule's bag gets the children, the others keep theirs |
| DaySeven.ApplyRule | src/day_seven.rs:62-76 | the loop over the children and the final insert give the bags above and the parents above, the rule's bag children set |
| DaySeven.NamedMember | src/day_seven.rs:45-77 | the names of a list of rules are exactly the bags some rule mentions |
| DaySeven.ParseRules | src/day_seven.rs:45-60 | one rule per line, in order |
| DaySeven.LastChildren | src/day_seven.rs:72-76 | the children a bag ends up with: those of the last rule for it, and none when no rule is for it |
| DaySeven.ParentsOfMembers | src/day_seven.rs:62-70 | p is recorded as a parent of k exactly when some rule for p lists k, and the count is the last entry for k of the last such rule |
| DaySeven.ApplyRulesAt | src/day_seven.rs:45-77 | after all rules a bag is in the map exactly when a rule names it, with the recorded parents and the children of its last rule |
| DaySeven.ApplyRulesMeaning | src/day_seven.rs:45-77 | the same for every bag at once: the map holds exactly the bags some rule mentions, each with those parents and children |
| DaySeven.BuildTree | src/day_seven.rs:43-77 | the parse loop builds the fold of the rule lines: a bag is in the map exactly when some line mentions it, its parents are the bags whose lines list it (each with the count of its last such line), and its children are those of the last line for it |
| DaySeven.ApplyRuleLine | src/day_seven.rs:62-76 | one pass of the loop extends the fold by the rule of its line |
| DaySeven.ParseCounts | src/day_seven.rs:52 | `u16::from_str` reads "1" and "2" and refuses "no" |
| DaySeven.JoinTwo | src/day_seven.rs:47-55 | two words joined with " " |
| DaySeven.TakeUntilFound | src/day_seven.rs:47 | `take_while` over words before a `stop` gives them and the rest |
| DaySeven.TakeUntilPrefixFound | src/day_seven.rs:53-55 | `take_while` over words before one starting with the prefix gives them and the rest |
| DaySeven.ParseChildStep | src/day_seven.rs:50-60 | a count, two name words and a "bag..." word give one child entry, then the rest is read the same way |
| DaySeven.ParseRuleStep | src/day_seven.rs:46-60 | "<a> <b> bags contain ..." gives the name "a b" and the children of the words after it |
| DaySeven.ExampleNames | src/day_seven.rs:47-55 | the joined names of the examples |
| DaySeven.ParseExampleTwoChildren | src/day_seven.rs:46-60 | "light red bags contain 1 bright white bag, 2 muted yellow bags." gives light red with (bright white, 1) and (muted yellow, 2) |
| DaySeven.ParseExampleNoChildren | src/day_seven.rs:48-59 | "faded blue bags contain no other bags." gives faded blue with no children |
| DayEight.Step | src/day_eight.rs:24-39 | NOP adds 1 to the program counter; ACC adds its amount to the sum and 1 to the program counter; JMP leaves the sum and moves the program counter by its signed offset modulo 2^64, as the `usize` counter wraps around in a release build |
| DayEight.Range | src/day_eight.rs:17-21 | the instruction indices below n, the bound of the `visited` set |
| DayEight.GetLoopInfo | src/day_eight.rs:16-41 | the loop over `visited` returns the program counter and the sum at the first revisited instruction or at the first program counter at or past the end, a wrapped-around backward jump included |
| DayEight.WrappedJumpEnds | src/day_eight.rs:29-35 | with fewer than 2^63 instructions and an `isize` offset, a jump below 0 wraps to a program counter past the end, and the loop returns that counter with the sum unchanged |
| DayEight.PcsBeforeStep | src/day_eight.rs:21 | each step inserts the current program counter into `visited` |
| DayEight.SubsetOfRange | src/day_eight.rs:21 | a set of indices below n has at most n members |
| DayEight.NoStopBefore | src/day_eight.rs:21 | before the run stops, its program counters are distinct instructions, so it stops within the program's length in steps |
| DayEight.RunFromStep | src/day_eight.rs:20-40 | from any step before the stop, the loop returns the state of the first step at which it stops |
| DayEight.LoopInfoFirstStop | src/day_eight.rs:16-41 | `get_loop_info` stops after at most len + 1 iterations, at the first revisit or exit |
| DayEight.Swap | src/day_eight.rs:48-52 | NOP and JMP trade places keeping their amount; ACC has no replacement |
| DayEight.Patch | src/day_eight.rs:54 | the patched program has the same length |
| DayEight.ProperResultFirstFix | src/day_eight.rs:43-63 | when instruction c is the first whose repair runs the program off its end exactly, the result is that repaired run's sum |
| DayEight.ProperFromFix | src/day_eight.rs:47-61 | the trial loop from `count` on stops at the first fixing repair and returns its sum |
| DayEight.ProperResultNoFix | src/day_eight.rs:43-63 | with no NOP or JMP the result is 0 |
| DayEight.ProperFromAllAcc | src/day_eight.rs:47-61 | with only ACC instructions left the loop keeps the last sum |
| DayEight.GetProperResult | src/day_eight.rs:43-63 | the in-place trial loop returns the specified sum and restores every swapped instruction, so the array equals its input |
| DayEight.WrapExamples | src/day_eight.rs:29-61 | `[JMP(-1)]` stops at 2^64 - 1 with sum 0; `[NOP(1), NOP(-5)]` is repaired at instruction 0, which runs off the end, so the result is 0 and the backward jump is never tried |
| DayEight.Example | src/day_eight.rs:90-101 | the source's sample program gives (4, 12) |
| DayNine.SortedCons | src/day_nine.rs:85 | a number no larger than a sorted list's entries, put in front, keeps it sorted |
| DayNine.InsertFacts | src/day_nine.rs:85 | inserting into a sorted list keeps it sorted and adds the number to its multiset |
| DayNine.SortFacts | src/day_nine.rs:85 | `sort_unstable` gives a sorted permutation of the numbers |
| DayNine.MinOfSorted | src/day_nine.rs:85-89 | the first entry of a sorted list is its least number |
| DayNine.SortedUnique | src/day_nine.rs:85 | a multiset has only one sorted arrangement |
| DayNine.SortOfPermutation | src/day_nine.rs:85 | sorting depends only on the multiset of numbers |
| DayNine.OuterSound | src/day_nine.rs:86-98 | when the outer search says yes, two numbers at distinct positions from x on add up to the value |
| DayNine.InnerSound | src/day_nine.rs:90-97 | the same for the inner loop started at (x, y) |
| DayNine.OuterComplete | src/day_nine.rs:86-98 | on sorted numbers, with a non-negative value or no negative number, the search finds every pair from x on |
| DayNine.InnerComplete | src/day_nine.rs:90-97 | the early `continue 'outer` only skips sums that are too large |
| DayNine.PairSearchDecides | src/day_nine.rs:84-100 | on sorted numbers the search implies two distinct positions summing to the value, and finds any such pair when the value is non-negative or no number is negative |
| DayNine.NegativePairMissed | src/day_nine.rs:87-89 | the `numbers[x] > value` exit skips -3 + -2 = -5 |
| DayNine.SortInPlace | src/day_nine.rs:85 | the array becomes the sorted permutation of its old contents |
| DayNine.IsNumberSumOfAny | src/day_nine.rs:84-100 | the array is left sorted (a permutation of its input) and the answer is the nested search on it |
| DayNine.ReadIntoBuffers | src/day_nine.rs:73-82 | the first 25 numbers go to the same positions of both buffers, the others keep their values |
| DayNine.Ring | src/day_nine.rs:63-64 | the ring buffer after k numbers past the preamble has 25 slots |
| DayNine.RingIsRotatedWindow | src/day_nine.rs:63-64 | slot i of the ring holds the number of the last 25 that was written at position i mod 25 |
| DayNine.RotatedSlotNew | src/day_nine.rs:64 | the slot `index % 25` holds the newest number |
| DayNine.RotatedSlotOld | src/day_nine.rs:64 | the other slots keep theirs |
| DayNine.RingWindow | src/day_nine.rs:59-69 | the ring holds the same numbers as the 25 numbers before the current one |
| DayNine.RotationIndex | src/day_nine.rs:63 | the rotation offset written with the source's `% 25` |
| DayNine.WindowSearch | src/day_nine.rs:62 | with no negative numbers, the search over the manipulated buffer decides whether two of the previous 25 numbers sum to the current one |
| DayNine.FirstInvalidMeaning | src/day_nine.rs:59-70 | the `find` from number 25 + k returns the first later number that is not the sum of two of the 25 before it |
| DayNine.SolvePartOneMeaning | src/day_nine.rs:53-71 | with no negative numbers, part one returns the first number after the preamble that is not a sum of two of the 25 before it |
| DayNine.PairsOfPermutation | src/day_nine.rs:62-67 | whether two positions add up to a value depends only on the multiset |
| DayNine.PairMoves | src/day_nine.rs:62-67 | such a pair survives a permutation |
| DayNine.TwoOccurrences | src/day_nine.rs:91 | two distinct positions give two occurrences in the multiset |
| DayNine.TwoPositions | src/day_nine.rs:91 | two occurrences give two distinct positions |
| DayNine.SolvePartOne | src/day_nine.rs:53-71 | the loop over the two ring buffers returns the specified first invalid number |
| DayNine.Slide | src/day_nine.rs:62-67 | one step: the result is the search on the old window, slot `index % 25` gets the newcomer, and the manipulated buffer stays a permutation of the ring |
| DayNine.FindPosition | src/day_nine.rs:65 | `position`: the first index holding the number, or the length |
| DayNine.SliceStep | src/day_nine.rs:34-35 | extending a run by one number adds it to the sum |
| DayNine.SumAppend | src/day_nine.rs:35 | the sum of a list with one more number |
| DayNine.ScanSound | src/day_nine.rs:34-48 | a result of the inner loop at start i and end j is the least and largest number of a run summing to the target that starts at i and ends at or after j, or starts later; no shorter run from its start matches (none ending at or after j when it starts at i); with no negative numbers no start strictly between i and it has a matching run, and when it starts after i no run from i ending at or after j matches |
| DayNine.StartsSound | src/day_nine.rs:30-50 | a result of the outer loop from start i comes from such a run at or after i, the shortest one from its start; with no negative numbers no earlier start from i on has a matching run |
| DayNine.SolvePartTwoSound | src/day_nine.rs:26-51 | whatever part two returns is the smallest and largest number of a run of at least two consecutive numbers adding up to `number`: the shortest such run from its start and, with no negative numbers, the first run of all, no earlier start having one |
| DayNine.ScanComplete | src/day_nine.rs:34-48 | with no negative numbers the `break` only abandons longer runs from the same start |
| DayNine.StartsComplete | src/day_nine.rs:30-49 | a matching run from a later start is still found |
| DayNine.SumMonotone | src/day_nine.rs:45-47 | with no negative numbers a longer run has a sum at least as large |
| DayNine.SolvePartTwoComplete | src/day_nine.rs:26-51 | with no negative numbers part two finds a run whenever one exists |
| DayNine.SolvePartTwo | src/day_nine.rs:26-51 | the nested loops with their accumulators return the specified result, which SolvePartTwoSound and SolvePartTwoComplete show to be a matching run of at least two numbers, the shortest from its start, and with no negative numbers the first one, found whenever one exists |
| DayNine.Examples | src/day_nine.rs:106-134 | the source's tests: 25 is a sum of [1, 24] and not of [1, 23]; the run of [1, 32, 4, 7, 6, 78] summing to 17 gives (4, 7) |
| DayTen.Gaps | src/day_ten.rs:32-33 | the differences `y - x` of neighbouring joltages, one fewer than the joltages |
| DayTen.GapsTelescope | src/day_ten.rs:32-33 | the gaps add up to the spread between the last and the first joltage |
| DayTen.CountGapsStep | src/day_ten.rs:34-40 | one more joltage counts its gap once more |
| DayTen.GapCountIsCount | src/day_ten.rs:34-40 | the index-wise count of the loop is the count over the gap list |
| DayTen.FindJoltDifferences | src/day_ten.rs:30-42 | the loop over a sorted, non-empty input gives [1 + number of gaps of 1, 1 + number of gaps of 3] |
| DayTen.NotAvailableBetween | src/day_ten.rs:18-19 | no adapter lies strictly between two neighbours of the sorted chain |
| DayTen.StepWays | src/day_ten.rs:22-26 | a step of 3 maps (x, y, z) to (0, 0, z), of 2 to (z, 0, y + z), of 1 to (y, z, x + y + z), exactly the counts of chains ending at the new joltage and the two below it |
| DayTen.StepFacts | src/day_ten.rs:18-19 | the pairs zipped are the joltage before each adapter and the adapter |
| DayTen.ArrangementsAreWays | src/day_ten.rs:17-28 | after k adapters the fold's triple holds the numbers of chains ending at the current joltage and at the two below it |
| DayTen.GetNumberOfArrangements | src/day_ten.rs:17-28 | the last component of the window fold; ArrangementsCountChains shows it is the number of chains from the outlet to the last adapter, at least one |
| DayTen.ArrangementsCountChains | src/day_ten.rs:17-28 | for sorted adapters 1 to 3 jolts apart, the fold counts exactly the chains from the outlet to the last adapter, and there is at least one |
| DayTen.WaysPositive | src/day_ten.rs:17-28 | every adapter of such a list is reached by a chain |
| DayTen.AllGapsThree | src/day_ten.rs:23 | when every step is three jolts the count is 1 |
| DayEleven.SafeGet | src/day_eleven.rs:13-21 | the seat at the index, None exactly when the index is negative or past the end |
| DayEleven.Dr | src/day_eleven.rs:132-139 | each direction moves at most one row |
| DayEleven.Dc | src/day_eleven.rs:132-139 | each direction moves at most one column |
| DayEleven.OnRightIsLastColumn | src/day_eleven.rs:124-126 | `(index + 1) % width == 0` holds exactly in the last column |
| DayEleven.MoveGeometry | src/day_eleven.rs:132-139 | a move goes one row and one column in its direction, and is refused exactly when it would cross the left or right edge |
| DayEleven.MoveDelta | src/day_eleven.rs:132-139 | a permitted move changes the index by a non-zero step |
| DayEleven.GetAdjacentSeats | src/day_eleven.rs:152-167 | eight slots, TL, T, TR, L, R, BL, B, BR |
| DayEleven.AdjacentGeometry | src/day_eleven.rs:152-167 | each slot holds the cell one step away in its direction, and is None exactly when that cell is not in the grid |
| DayEleven.CellBelowZero | src/day_eleven.rs:15-16 | a cell above the top row has a negative index, which `safe_get` refuses |
| DayEleven.FloorAtShift | src/day_eleven.rs:110-116 | moving the ray's origin one step: the m-th cell from the next cell is the (m + 1)-th from the first |
| DayEleven.RayShift | src/day_eleven.rs:110-116 | a ray whose first cell is floor has the answer of the ray from that cell |
| DayEleven.RayStep | src/day_eleven.rs:110-116 | one loop step along a ray that goes on: the next cell is one row and column further, is floor, and the search from it gives the same answer |
| DayEleven.RayStop | src/day_eleven.rs:110-117 | a ray that stops at its first cell gives None when that cell is off the grid or across an edge, else the seat there, which is not floor |
| DayEleven.RayFirst | src/day_eleven.rs:109-118 | the search returns the first cell along the ray that is off the grid (None) or not floor (that seat), every cell before it being floor |
| DayEleven.ScaleStep | src/day_eleven.rs:115 | k steps along a direction are one step plus k - 1 steps |
| DayEleven.FindNonFloorSeat | src/day_eleven.rs:109-118 | the while loop that updates `index` returns the specified first seat along the ray |
| DayEleven.NonFloorAdjacentSeats | src/day_eleven.rs:128-150 | eight slots, one per direction, in the order TL, T, TR, L, R, BL, B, BR |
| DayEleven.GetNonFloorAdjacentSeats | src/day_eleven.rs:128-150 | the eight ray searches give the first seat seen in each direction |
| DayEleven.Lookup | src/day_eleven.rs:158-165 | one seat per neighbour slot |
| DayEleven.NumberTaken | src/day_eleven.rs:87-95 | the taken neighbours are at most the slots (at most 8) |
| DayEleven.AnyTakenIffCount | src/day_eleven.rs:87-107 | some neighbour is taken exactly when the number taken is positive |
| DayEleven.Revised | src/day_eleven.rs:49-66 | a round keeps the number of seats |
| DayEleven.RevisedCells | src/day_eleven.rs:52-58 | decided on the grid before the round: floor stays floor, an empty seat fills exactly when no neighbour is taken, a taken seat empties exactly when more than the threshold of neighbours are taken |
| DayEleven.Changes | src/day_eleven.rs:50-59 | every recorded change is a position below n whose seat differs, with its new seat |
| DayEleven.ChangesRecorded | src/day_eleven.rs:50-59 | a position is recorded exactly when its seat changes |
| DayEleven.ChangesStep | src/day_eleven.rs:52-58 | one seat's decision appends (index, TAKEN), (index, EMPTY) or nothing |
| DayEleven.CollectChanges | src/day_eleven.rs:50-59 | the first loop decides every seat on the unchanged grid and records the differing ones |
| DayEleven.DecideSeat | src/day_eleven.rs:52-58 | the loop body for one seat |
| DayEleven.ApplyChanges | src/day_eleven.rs:62-64 | the second loop writes the last recorded change of every position and leaves the others |
| DayEleven.ReviseWith | src/day_eleven.rs:49-66 | the grid becomes the round's result, and the answer is true exactly when a seat changed |
| DayEleven.LastChangeOf | src/day_eleven.rs:62-64 | the last write of a position is its recorded change |
| DayEleven.ReviseSeats | src/day_eleven.rs:49-66 | part one: adjacent neighbours, more than 3 taken empties a seat |
| DayEleven.ReviseSeatsPartTwo | src/day_eleven.rs:68-85 | part two: first seats seen along each ray, more than 4 taken empties a seat |
| DayEleven.AdjacentExamples | src/day_eleven.rs:173-220 | the source's three neighbour tests on the 4 x 4 grid |
| DayEleven.VisibleExample | src/day_eleven.rs:222-243 | the source's ray test at index 9 |
| DayTwelve.HeadingIndex | src/day_twelve.rs:43-48 | the heading's quarter-turn index is one of 0..3 |
| DayTwelve.HeadingOf | src/day_twelve.rs:50-55 | the heading chosen for `degrees` has index `degrees.rem_euclid(4)` |
| DayTwelve.HeadingOfIndex | src/day_twelve.rs:43-55 | the two tables are inverse: a heading's index maps back to the heading |
| DayTwelve.TruncDiv | src/day_twelve.rs:49 | `/` on `isize` rounds toward zero: the quotient's magnitude is the floor of the magnitudes' ratio, with the dividend's sign |
| DayTwelve.TruncDivNegate | src/day_twelve.rs:49 | truncating division commutes with negating the dividend |
| DayTwelve.Rotate | src/day_twelve.rs:41-57 | the position is kept and the heading index advances by sign * amount / 90 modulo 4 |
| DayTwelve.Translate | src/day_twelve.rs:59-68 | the heading is kept |
| DayTwelve.RotateLeftRight | src/day_twelve.rs:30-57 | `L n` then `R n` restores the ship, for every amount |
| DayTwelve.TranslateBackward | src/day_twelve.rs:59-68 | `B n` is `F -n`, and `F n` then `B n` restores the ship |
| DayTwelve.FullTurn | src/day_twelve.rs:30-57 | four `L90` turns restore the ship |
| DayTwelve.CompassIsForward | src/day_twelve.rs:32-35 | `N`, `E`, `S`, `W` keep the heading and move as `F` does when the ship faces that way |
| DayTwelve.FoldAppend | src/day_twelve.rs:24-39 | following two lists in a row is following their concatenation |
| DayTwelve.SolvePartOne | src/day_twelve.rs:24-39 | the position after every instruction, starting East at the origin; FoldAppend splits the run at any point and Example gives the source's (17, -8) |
| DayTwelve.Example | src/day_twelve.rs:74-86 | the source's test ends at (17, -8) |
| DayThirteen.Buses | src/day_thirteen.rs:10-14 | the kept buses carry positions inside the line, in increasing order |
| DayThirteen.BusesMembers | src/day_thirteen.rs:10-14 | (i, b) is kept exactly when part i is not "x" and parses as the `usize` b |
| DayThirteen.Ids | src/day_thirteen.rs:19 | the bus ids, in order |
| DayThirteen.WaitMeaning | src/day_thirteen.rs:16 | `bus - departure % bus` is the least positive wait after which the bus departs, a whole period when it departs at `departure` |
| DayThirteen.EarliestBus | src/day_thirteen.rs:15-18 | None exactly without buses, otherwise a wait no larger than any bus's |
| DayThirteen.EarliestBusIsFirst | src/day_thirteen.rs:15-18 | `min_by` keeps the first bus of least wait: every earlier bus waits longer |
| DayThirteen.PartOne | src/day_thirteen.rs:15-27 | the part-one answer `earliest_bus.0 * earliest_bus.1`, None exactly without buses |
| DayThirteen.PartOneMeaning | src/day_thirteen.rs:15-27 | the answer is the id of the first bus whose wait is least, times that wait |
| DayThirteen.InverseFrom | src/day_thirteen.rs:32 | `find` over a range gives the first z with `z * x % y == 1`, or 0 when none in the range |
| DayThirteen.Inverse | src/day_thirteen.rs:31-33 | `inverse` is 0 or the least z in 1..y with `z * x % y == 1` |
| DayThirteen.InverseExists | src/day_thirteen.rs:31-33 | for a number coprime to y > 1, `inverse` does find one |
| DayThirteen.ProductPositive | src/day_thirteen.rs:19 | the product of positive bus ids is positive, so `product / bus` and `% product` are defined |
| DayThirteen.FactorIsOthers | src/day_thirteen.rs:22 | `product / bus` is the product of the other buses |
| DayThirteen.Terms | src/day_thirteen.rs:20-24 | one term per bus |
| DayThirteen.OtherTermVanishes | src/day_thirteen.rs:21-24 | modulo one bus, every other bus's term is 0 |
| DayThirteen.OthersCoprime | src/day_thirteen.rs:22 | for pairwise coprime ids, the other buses are coprime to this one |
| DayThirteen.OwnTerm | src/day_thirteen.rs:21-24 | modulo its bus (greater than 1), a bus's term leaves its index |
| DayThirteen.SumOfTerms | src/day_thirteen.rs:20-25 | modulo each bus, the sum of the terms leaves that bus's index |
| DayThirteen.PartTwo | src/day_thirteen.rs:19-28 | `product - sum % product` for values that fit `usize`: between 1 and the product; PartTwoAligned gives its meaning |
| DayThirteen.PartTwoAligned | src/day_thirteen.rs:19-28 | for pairwise coprime buses, every bus departs `index` minutes after `product - sum % product` |
| DayFourteen.OrBit | src/day_fourteen.rs:47-49 | bit k of `a \| b` is set exactly when it is set in a or in b |
| DayFourteen.AndBit | src/day_fourteen.rs:82 | bit k of `a & b` is set exactly when it is set in both |
| DayFourteen.AndNotBit | src/day_fourteen.rs:49 | bit k of `a & !b` is set exactly when it is set in a and not in b |
| DayFourteen.BitsValueBit | src/day_fourteen.rs:58-64 | bit k of a binary string's value is its k-th digit from the right, unset beyond its length |
| DayFourteen.BitsValueBelow | src/day_fourteen.rs:58-64 | n binary digits have a value below 2^n |
| DayFourteen.FromBinary | src/day_fourteen.rs:58-64 | `from_str_radix(.., 2)` is Err exactly for an empty string or a value past `usize`, otherwise the string's value |
| DayFourteen.OnesBits | src/day_fourteen.rs:60 | '1' becomes 1 and every other character 0 |
| DayFourteen.ZerosBits | src/day_fourteen.rs:74 | '0' becomes 0 and every other character 1 |
| DayFourteen.GetOnesMask | src/day_fourteen.rs:57-65 | the mask as binary with X read as 1; OnesMaskBits gives None exactly for an empty mask or one past `usize`, and bit k set exactly for a '1' k places from the right |
| DayFourteen.OnesMaskBits | src/day_fourteen.rs:57-65 | `get_ones_mask` is None exactly for an empty mask or one past `usize`, and otherwise sets bit k exactly when the k-th character from the right is '1' |
| DayFourteen.ShortMaskParses | src/day_fourteen.rs:57-78 | a non-empty mask of at most 64 characters yields both part-one masks |
| DayFourteen.MaskedBits | src/day_fourteen.rs:71-83 | `(value \| ones) & zeros` forces each '1', clears each '0' and every bit beyond the mask, and keeps the value's bit under 'X' |
| DayFourteen.StoreLastWrite | src/day_fourteen.rs:80-83 | after a run of `insert`s an address holds its last write, or its old value when not written, and no other address appears |
| DayFourteen.StoreAppend | src/day_fourteen.rs:80-83 | one more write is one more map update |
| DayFourteen.StoreConcat | src/day_fourteen.rs:69-86 | two runs of writes in a row are the run of their concatenation |
| DayFourteen.WriteInstructionOne | src/day_fourteen.rs:70-85 | the inner loop performs exactly the instruction's part-one writes |
| DayFourteen.ExecuteTaskOne | src/day_fourteen.rs:67-88 | the memory is the fold of all part-one writes, in program order, over the empty map |
| DayFourteen.XPositionsFrom | src/day_fourteen.rs:28-31 | the 'X' positions counted from the right are inside the mask and increasing |
| DayFourteen.XPositionsFromMembers | src/day_fourteen.rs:28-31 | a position from k on is listed exactly when an 'X' stands there |
| DayFourteen.XPositionsMembers | src/day_fourteen.rs:28-31 | a position is listed exactly when an 'X' stands there |
| DayFourteen.Pows | src/day_fourteen.rs:32 | each position p becomes `1 << p` |
| DayFourteen.Bumped | src/day_fourteen.rs:35-37 | each pair in place gets `elem` added to its first component |
| DayFourteen.Split | src/day_fourteen.rs:36-39 | each copy gets `elem` added to its second component |
| DayFourteen.FoldStep | src/day_fourteen.rs:33-42 | one fold step: the bumped pairs followed by the split copies |
| DayFourteen.XMasks | src/day_fourteen.rs:28-43 | the loops compute the specified fold over the powers of the 'X' positions |
| DayFourteen.XMasksCount | src/day_fourteen.rs:33-43 | k floating bits give 2^k pairs |
| DayFourteen.XMasksEntry | src/day_fourteen.rs:33-43 | each pair comes from one pair of the previous step, bumped (first half) or split (second half) |
| DayFourteen.EntrySetBit | src/day_fourteen.rs:37 | the set component gains the new position exactly in the bumped half |
| DayFourteen.EntryClearBit | src/day_fourteen.rs:38 | the clear component gains the new position exactly in the split half |
| DayFourteen.XMasksBits | src/day_fourteen.rs:33-43 | every pair puts each floating position in exactly one component and sets no other bit |
| DayFourteen.XMasksCover | src/day_fourteen.rs:33-43 | every choice of bits at the floating positions is some pair's set component |
| DayFourteen.XMasksDistinct | src/day_fourteen.rs:33-43 | two different pairs differ at some floating position |
| DayFourteen.FloatedBit | src/day_fourteen.rs:47-49 | a written address has the pair's choice under 'X', 1 under '1', and the address's bit under '0' |
| DayFourteen.FloatedFloats | src/day_fourteen.rs:45-51 | every address part two writes is a floating variant of the assignment's address |
| DayFourteen.FloatsFloated | src/day_fourteen.rs:45-51 | every floating variant is written by some pair |
| DayFourteen.FloatedDistinct | src/day_fourteen.rs:45-51 | different pairs write different addresses |
| DayFourteen.AssignmentWritesTwo | src/day_fourteen.rs:46-51 | one write per pair |
| DayFourteen.AssignmentWritesTwoMeaning | src/day_fourteen.rs:45-51 | an assignment writes its value 2^k times, to distinct addresses, exactly the floating variants of its address |
| DayFourteen.WriteFloated | src/day_fourteen.rs:48-50 | the innermost loop performs one write per pair, in order |
| DayFourteen.WriteInstructionTwo | src/day_fourteen.rs:27-52 | the loop body performs exactly the instruction's part-two writes, none when the ones mask fails |
| DayFourteen.ExecuteTaskTwo | src/day_fourteen.rs:24-55 | the memory is the fold of all part-two writes, in program order, over the empty map |
| DayFourteen.MaskLineShape | src/day_fourteen.rs:96-98 | a line split as "mask" = ... starts with "mask = ", and the rest is the mask |
| DayFourteen.MaskLineList | src/day_fourteen.rs:91-106 | the group-opening lines: the first line, then one per later mask line |
| DayFourteen.FoldMask | src/day_fourteen.rs:95-115 | after the loop the current mask is the last mask line seen (or the first line), and one group was closed per mask line |
| DayFourteen.ParseLine | src/day_fourteen.rs:96-114 | one loop pass is one step of the specified fold |
| DayFourteen.ParseFoldStep | src/day_fourteen.rs:95-115 | the fold over one more line is one more step |
| DayFourteen.ParseLines | src/day_fourteen.rs:90-119 | the loop computes the specified parse |
| DayFourteen.FoldGroupMask | src/day_fourteen.rs:98-106 | every closed group holds its mask line without "mask = " |
| DayFourteen.FoldAssignments | src/day_fourteen.rs:107-112 | the closed groups and the open one hold the parsed assignments in order |
| DayFourteen.ParseLinesGroups | src/day_fourteen.rs:90-119 | one group per mask line, every group but the last with "mask = " stripped, the last with its mask line whole, and all parsed assignments in order |
| DayFourteen.LastGroupKeepsPrefix | src/day_fourteen.rs:103-116 | when a mask line follows the first line, the last group's mask still starts with "mask = " |
| DayFourteen.KeptPrefixChangesTaskOne | src/day_fourteen.rs:67-88 | "mask = X" stores 2 as a non-zero value, the stripped "X" stores it as 0 |
| DayFourteen.ParseLinesFixedGroups | src/day_fourteen.rs:90-119 | with the last group stripped like the others, every group carries its mask after "mask = " |
| DayFifteen.PrevTurn | src/day_fifteen.rs:22-24 | None exactly for a number never spoken, otherwise its latest turn |
| DayFifteen.Play | src/day_fifteen.rs:19-26 | the game runs until turn `turns`, never shorter than the starting numbers |
| DayFifteen.PlayStep | src/day_fifteen.rs:19-26 | each turn past the start speaks the rule's next number |
| DayFifteen.PlayShift | src/day_fifteen.rs:19-26 | playing on from one more turn of the game is the same game |
| DayFifteen.LastTurns | src/day_fifteen.rs:13-18 | every turn stored is a turn of the history |
| DayFifteen.LastTurnsLookup | src/day_fifteen.rs:13-18 | `collect` of (v, i + 1) holds exactly the numbers spoken, each with its latest turn |
| DayFifteen.Speak | src/day_fifteen.rs:21-25 | one fold step: `insert(last, current - 1)` updates the map, and the number spoken is `current - old - 1`, or 0 when `last` was absent |
| DayFifteen.LastTurnsAppend | src/day_fifteen.rs:22 | the insert turns the map of a history into the map of that history one number longer |
| DayFifteen.NextFromLastTurns | src/day_fifteen.rs:22-24 | the number computed from the map is the game's next number |
| DayFifteen.PrevTurnAt | src/day_fifteen.rs:22-24 | a number spoken at p and not after has latest turn p |
| DayFifteen.FoldStepFollowsGame | src/day_fifteen.rs:19-26 | a fold step on a map of the history before the last number extends the game by one turn and keeps the map in step |
| DayFifteen.PlayFrom | src/day_fifteen.rs:19-26 | the fold, started from the map of all turns before the last, ends on the game's number at turn `length` |
| DayFifteen.SolveGame | src/day_fifteen.rs:12-27 | `solve_game` as written: the number of the source's game (the map also seeded with the last starting number) at turn `length`, or the last starting number for a short `length` |
| DayFifteen.SourceGameAgrees | src/day_fifteen.rs:12-27 | when the last starting number is new, the source's game is the game |
| DayFifteen.RepeatedLastDiffers | src/day_fifteen.rs:13-18 | with starting numbers [1, 1] the source says 0 at turn 3, the game 1 |
| DayFifteen.SolveGameFixed | src/day_fifteen.rs:12-27 | seeded with every starting number but the last, the fold returns the game's number at turn `length` |
| DaySixteen.SatisfiesRule | src/day_sixteen.rs:93-95 | `satisfies_rule`; SatisfiesRuleRanges shows it holds exactly for a value in one of the two inclusive ranges |
| DaySixteen.SatisfiesRuleRanges | src/day_sixteen.rs:93-95 | a value satisfies a rule exactly when it lies in one of its two ranges, bounds included |
| DaySixteen.RangeToArrTuple | src/day_sixteen.rs:116-125 | a range is found only in a text with a `-`, and both bounds are `u16` |
| DaySixteen.RangeRoundTrip | src/day_sixteen.rs:116-125 | every pair of `u16` bounds written as "lo-hi" is read back |
| DaySixteen.LastThreeWords | src/day_sixteen.rs:104-107 | splitting on spaces ends with the line's last three words |
| DaySixteen.RuleLineRoundTrip | src/day_sixteen.rs:103-112 | a line "name: a-b or c-d" with `u16` bounds is read back as its rule, whatever the name |
| DaySixteen.RulesUntilSection | src/day_sixteen.rs:101-114 | the rules come from the lines before the first `your ticket:` line, whatever follows |
| DaySixteen.ReadRules | src/day_sixteen.rs:101-114 | the rules of the lines before `your ticket:`; ReadRulesRoundTrip reads written rule lines back as their rules |
| DaySixteen.ReadRulesRoundTrip | src/day_sixteen.rs:101-114 | rule lines followed by a `your ticket:` line are read back as their rules, in order |
| DaySixteen.FieldValue | src/day_sixteen.rs:98 | one field yields at most one value |
| DaySixteen.ParseFields | src/day_sixteen.rs:98 | no more values than fields |
| DaySixteen.ParseFieldsConcat | src/day_sixteen.rs:98 | fields are parsed one by one: a field that does not parse drops out, the rest keep their order |
| DaySixteen.ParseTicket | src/day_sixteen.rs:97-99 | the comma-separated fields that parse as `u16`; ParseFields, ParseFieldsConcat and TicketRoundTrip state the count, the order and the round trip |
| DaySixteen.TicketRoundTrip | src/day_sixteen.rs:97-99 | every ticket of `u16` values written with commas is read back |
| DaySixteen.MatchesSomeRuleMeaning | src/day_sixteen.rs:86 | `rules.iter().any(..)` holds exactly when some rule admits the value |
| DaySixteen.FirstInvalidMeaning | src/day_sixteen.rs:84-87 | `find` gives the first value no rule admits, and None exactly when every value is admitted |
| DaySixteen.GetBadTickets | src/day_sixteen.rs:79-91 | each ticket with a value matching no rule, with its first such value; GetBadTicketsMeaning states this |
| DaySixteen.BadTicketsFromMember | src/day_sixteen.rs:79-91 | (i, v) is listed exactly when ticket i has v as its first bad value |
| DaySixteen.BadTicketsFromIncreasing | src/day_sixteen.rs:79-91 | the entries come in increasing ticket order |
| DaySixteen.GetBadTicketsMeaning | src/day_sixteen.rs:79-91 | a ticket is listed exactly when one of its values matches no rule, with the first such value |
| DaySixteen.Keep | src/day_sixteen.rs:23-25 | keeping tickets never adds any |
| DaySixteen.KeepPrefix | src/day_sixteen.rs:23-25 | dropping only indexes from b on keeps the tickets before b as they are |
| DaySixteen.KeepIgnores | src/day_sixteen.rs:23-25 | an index before the kept range plays no part |
| DaySixteen.RemoveFromKept | src/day_sixteen.rs:24 | `remove(b)` on the kept tickets, when every dropped index lies past b, drops b too |
| DaySixteen.IndexesFrom | src/day_sixteen.rs:23 | the dropped indexes are those of the bad entries |
| DaySixteen.IndexesFromMembers | src/day_sixteen.rs:23 | every bad entry's index is dropped |
| DaySixteen.IncreasingLater | src/day_sixteen.rs:23 | in an increasing list, a later entry has a larger index |
| DaySixteen.RemoveBadTickets | src/day_sixteen.rs:23-25 | removing in reverse index order finds each ticket in place, so exactly the listed tickets go |
| DaySixteen.KeepValid | src/day_sixteen.rs:21-25 | dropping exactly the tickets with a bad value keeps the valid ones |
| DaySixteen.DropBadTickets | src/day_sixteen.rs:21-25 | the bad list is increasing, and removing it leaves exactly the tickets whose every value matches some rule, in order |
| DaySixteen.Columns | src/day_sixteen.rs:29 | `0..rules.len()` holds only columns below the count |
| DaySixteen.ColumnsMembers | src/day_sixteen.rs:29 | it holds exactly the columns below the count |
| DaySixteen.EliminateMeaning | src/day_sixteen.rs:30-40 | the scan only removes candidates, only failing ones, and unless stopped at a single candidate removes every failing one |
| DaySixteen.FailingFromMembers | src/day_sixteen.rs:31-32 | a column of one ticket fails exactly when its value breaks the rule |
| DaySixteen.FailingMembers | src/day_sixteen.rs:30-32 | a column fails exactly when some ticket's value there breaks the rule |
| DaySixteen.EliminateStep | src/day_sixteen.rs:33-36 | one removal, stopping when one candidate is left |
| DaySixteen.FailingFromStep | src/day_sixteen.rs:31-32 | a ticket's failing columns start with the current one when its value breaks the rule |
| DaySixteen.ScanTicket | src/day_sixteen.rs:31-38 | the loop over one ticket's values performs the specified removals, reporting an early return |
| DaySixteen.PossibleColumns | src/day_sixteen.rs:28-41 | the per-rule closure returns the specified candidate columns |
| DaySixteen.CandidateSets | src/day_sixteen.rs:28-41 | one candidate set per rule, each the specified one |
| DaySixteen.CandidatesMeaning | src/day_sixteen.rs:28-41 | candidates are columns; a removed column has a breaking value; unless one candidate is left, a column is a candidate exactly when every ticket's value there satisfies the rule |
| DaySixteen.ShrinksTransitive | src/day_sixteen.rs:43-66 | shrinking twice is shrinking |
| DaySixteen.Holders | src/day_sixteen.rs:45-49 | only indexes of sets holding the column |
| DaySixteen.Pin | src/day_sixteen.rs:50-53 | the sets keep their number |
| DaySixteen.PinFrom | src/day_sixteen.rs:44-54 | the sets keep their number |
| DaySixteen.Singletons | src/day_sixteen.rs:55-58 | every set in `to_clear` has one column |
| DaySixteen.ClearFrom | src/day_sixteen.rs:60-64 | the sets keep their number |
| DaySixteen.ClearAll | src/day_sixteen.rs:59-65 | the sets keep their number |
| DaySixteen.Round | src/day_sixteen.rs:44-65 | the sets keep their number |
| DaySixteen.Rounds | src/day_sixteen.rs:43-66 | the sets keep their number |
| DaySixteen.PinShrinks | src/day_sixteen.rs:50-53 | pinning only shrinks a set and never empties one |
| DaySixteen.PinFromShrinks | src/day_sixteen.rs:44-54 | the pinning loop only shrinks the sets, never emptying one |
| DaySixteen.RemoveSingle | src/day_sixteen.rs:61-62 | removing one column from a set of more than one leaves it non-empty |
| DaySixteen.ClearFromShrinks | src/day_sixteen.rs:60-64 | clearing only shrinks the sets, never emptying one |
| DaySixteen.ClearAllShrinks | src/day_sixteen.rs:59-65 | clearing every singleton only shrinks the sets, never emptying one |
| DaySixteen.RoundShrinks | src/day_sixteen.rs:44-65 | one round only shrinks the sets, never emptying one |
| DaySixteen.RoundsShrink | src/day_sixteen.rs:43-66 | any number of rounds only shrinks the sets, never emptying one |
| DaySixteen.SettledSingletons | src/day_sixteen.rs:43-66 | once settled, every rule with a candidate has exactly one column, one of its candidates |
| DaySixteen.HoldersOf | src/day_sixteen.rs:45-49 | `indexes` are the sets holding column i, in order |
| DaySixteen.PinColumns | src/day_sixteen.rs:44-54 | the loop pins each column held by a single set |
| DaySixteen.CollectSingletons | src/day_sixteen.rs:55-58 | `to_clear` is the singleton sets, in order |
| DaySixteen.ClearSingles | src/day_sixteen.rs:59-65 | each singleton's column leaves every set still larger than one |
| DaySixteen.EliminationRound | src/day_sixteen.rs:44-65 | one loop iteration is one round, and it only shrinks |
| DaySixteen.Resolve | src/day_sixteen.rs:43-66 | the loop, for at most `fuel` rounds: the specified rounds, shrinking, and whether they settled |
| DaySeventeen.OffsetCode | src/day_seventeen.rs:24-54 | the k-th offset of the list lies in the unit cube at its position in the cube, skipping the centre |
| DaySeventeen.CodeInjective | src/day_seventeen.rs:24-54 | within the cube, the position determines the offset |
| DaySeventeen.NeighbourCoords | src/day_seventeen.rs:24-54 | 26 coordinates |
| DaySeventeen.NeighboursDistinct | src/day_seventeen.rs:24-54 | the 26 neighbours are distinct |
| DaySeventeen.NeighbourClose | src/day_seventeen.rs:24-54 | every neighbour differs from the cell by at most 1 on each axis and is not the cell |
| DaySeventeen.NeighbourCovers | src/day_seventeen.rs:24-54 | every such cell is in the list |
| DaySeventeen.NeighbourMeaning | src/day_seventeen.rs:24-54 | d is a neighbour of c exactly when it differs from c and by at most 1 on each axis |
| DaySeventeen.NeighbourSymmetric | src/day_seventeen.rs:24-54 | being neighbours is symmetric |
| DaySeventeen.NeighboursIn | src/day_seventeen.rs:55-57 | 26 neighbours with their blocks |
| DaySeventeen.CountActive | src/day_seventeen.rs:82-84 | the active count is at most the number of entries |
| DaySeventeen.CountActivePositive | src/day_seventeen.rs:82-84 | a positive active count has an active entry |
| DaySeventeen.ActiveNeighbourExists | src/day_seventeen.rs:89-92 | a cell with active neighbours has one on the board |
| DaySeventeen.Board.constructor | src/day_seventeen.rs:17-21 | `Board::new` holds no block |
| DaySeventeen.Board.GetBlock | src/day_seventeen.rs:68-70 | Inactive for a missing key; on a board of only Active values, Active exactly for the keys |
| DaySeventeen.Board.Neighbours | src/day_seventeen.rs:23-58 | the 26 neighbour coordinates in order, each with its block |
| DaySeventeen.Board.ActiveBlocks | src/day_seventeen.rs:72-74 | on a board of only Active values, every key is an active block |
| DaySeventeen.Board.SetActive | src/day_seventeen.rs:60-62 | the cell maps to Active, nothing else changes |
| DaySeventeen.Board.SetInactive | src/day_seventeen.rs:64-66 | the cell is removed, nothing else changes |
| DaySeventeen.BirthsSound | src/day_seventeen.rs:88-94 | every activation pushed is of an inactive cell with exactly three active neighbours |
| DaySeventeen.BirthsComplete | src/day_seventeen.rs:88-94 | every inactive neighbour with exactly three active neighbours is pushed |
| DaySeventeen.BlockChangesMeaning | src/day_seventeen.rs:81-94 | the changes pushed for one active cell follow the rule, include its removal when it has fewer than 2 or more than 3 active neighbours, and every birth around it |
| DaySeventeen.SoundConcat | src/day_seventeen.rs:80-95 | rule-following change lists stay so when joined |
| DaySeventeen.ApplyMembers | src/day_seventeen.rs:96-102 | applying rule-following changes activates exactly the cells with an activation and removes exactly those with a removal, and keeps the board of only Active values |
| DaySeventeen.CountActiveNeighbours | src/day_seventeen.rs:81-84 | the filter-count is the number of active neighbours |
| DaySeventeen.BirthsUnfold | src/day_seventeen.rs:88-94 | one step of the neighbour filter |
| DaySeventeen.ChangesAround | src/day_seventeen.rs:81-94 | the per-block closure pushes the specified changes of one active cell |
| DaySeventeen.CollectStep | src/day_seventeen.rs:80-95 | adding one more active cell's changes keeps the list rule-following and complete for the cells handled |
| DaySeventeen.CollectChanges | src/day_seventeen.rs:78-95 | the collected changes follow the rule and are complete for every active cell of the unchanged board |
| DaySeventeen.ApplyChanges | src/day_seventeen.rs:96-102 | the board becomes the result of applying each change in order |
| DaySeventeen.ChangesFollowRule | src/day_seventeen.rs:77-103 | after applying, a cell is active exactly when the rule keeps it or brings it alive |
| DaySeventeen.IterateBoard | src/day_seventeen.rs:77-103 | `iterate_board`: the new active cells are exactly those the Conway rule keeps or brings alive |
| DayEighteen.DigitRun | src/day_eighteen.rs:35 | the digit run ends at the end of the text or before a non-digit |
| DayEighteen.DigitRunDigits | src/day_eighteen.rs:35 | before a text not starting with a digit, the run is exactly the digit string |
| DayEighteen.LexemeLength | src/day_eighteen.rs:26-40 | one iteration consumes at least one and at most all characters |
| DayEighteen.EmitCons | src/day_eighteen.rs:26-41 | the tokens of a word list are those of the first word, then the rest |
| DayEighteen.WordsAt | src/day_eighteen.rs:26-40 | the iteration at position i consumes its text, then the loop goes on after it |
| DayEighteen.DigitRunEnd | src/day_eighteen.rs:35 | `peeking_take_while` stops at the end of the digit run after the character |
| DayEighteen.NumberTokenParsed | src/day_eighteen.rs:33-38 | a non-token word gives a Number exactly when its trimmed text parses as `usize`, nothing otherwise |
| DayEighteen.ReadNumber | src/day_eighteen.rs:32-39 | the number branch consumes the character and its digit run and pushes the word's tokens |
| DayEighteen.ReadToken | src/day_eighteen.rs:26-40 | one loop iteration consumes one lexeme and pushes its tokens |
| DayEighteen.ToTokens | src/day_eighteen.rs:24-43 | the loop computes the specified tokens of the line |
| DayEighteen.WordsSplit | src/day_eighteen.rs:26-40 | a consumed text followed by more: the words are that text, then those of the rest |
| DayEighteen.OtherCharactersIgnored | src/day_eighteen.rs:32-39 | characters that are neither token characters nor digits give no token |
| DayEighteen.Render | src/day_eighteen.rs:24-43 | the written-out text of tokens does not start with a digit |
| DayEighteen.TrimSpaced | src/day_eighteen.rs:37 | `trim` removes a space before a word without outer whitespace |
| DayEighteen.NumberWord | src/day_eighteen.rs:33-38 | a space and a decimal `usize` give that Number |
| DayEighteen.SpacedLength | src/day_eighteen.rs:34-35 | a space and digits before a non-digit are consumed together |
| DayEighteen.TokenTextLeads | src/day_eighteen.rs:24-43 | every token's text, before a text not starting with a digit, tokenizes as itself |
| DayEighteen.SmallNumbersTail | src/day_eighteen.rs:9 | the rest of a list of `usize` tokens is one too |
| DayEighteen.RenderRoundTrip | src/day_eighteen.rs:24-43 | tokens written out as text are read back by `to_tokens` |
| DayEighteen.PopUntilParen | src/day_eighteen.rs:55-62 | the `)` loop pops operators to the output down to and including the `(` |
| DayEighteen.PopOperatorsOff | src/day_eighteen.rs:64-68 | the operator loop pops every operator off the top of the stack to the output |
| DayEighteen.ConvertUnfold | src/day_eighteen.rs:49-72 | one step of the conversion loop |
| DayEighteen.ToPostFix | src/day_eighteen.rs:47-73 | the first loop and the append give the specified postfix sequence |
| DayEighteen.EvalUnfold | src/day_eighteen.rs:76-87 | one step of the evaluation loop |
| DayEighteen.EvaluatePostFix | src/day_eighteen.rs:75-92 | the second loop and the look at the top give the specified result |
| DayEighteen.Solve | src/day_eighteen.rs:46-93 | `solve` is the specified solution, None without tokens |
| DayEighteen.NumbersConcat | src/day_eighteen.rs:51 | the numbers of a concatenation are those of each part |
| DayEighteen.NumberFreeNumbers | src/day_eighteen.rs:53-69 | a number-free list holds no numbers |
| DayEighteen.PopToParenNumbers | src/day_eighteen.rs:55-62 | popping to `(` moves no number |
| DayEighteen.PopOperatorsNumbers | src/day_eighteen.rs:64-68 | popping operators moves no number |
| DayEighteen.ConvertStepNumbers | src/day_eighteen.rs:50-71 | a conversion step keeps numbers off the stack and appends the token's number to the output |
| DayEighteen.ConvertNumbers | src/day_eighteen.rs:49-72 | the conversion keeps numbers off the stack and outputs the input's numbers in order |
| DayEighteen.NumbersInOrder | src/day_eighteen.rs:47-73 | the postfix sequence holds the input's numbers in input order |
| DayEighteen.ConvertConcat | src/day_eighteen.rs:49-72 | converting two token lists in a row is converting their concatenation |
| DayEighteen.ConvertSingle | src/day_eighteen.rs:49-72 | converting one token is one step |
| DayEighteen.PopPending | src/day_eighteen.rs:63-70 | an operator pops the pending operator, down to a stack with no operator on top |
| DayEighteen.ParenPending | src/day_eighteen.rs:55-62 | `)` pops the pending operator and the `(` below it |
| DayEighteen.ConvertTerm | src/day_eighteen.rs:49-72 | a number or parenthesised expression adds its postfix to the output and leaves the stack as it was |
| DayEighteen.ConvertOperator | src/day_eighteen.rs:63-70 | after an expression, an operator sends the pending one to the output and goes onto the stack |
| DayEighteen.ConvertExpr | src/day_eighteen.rs:49-72 | an expression adds its postfix to the output and leaves its last operator on the stack |
| DayEighteen.EvalConcat | src/day_eighteen.rs:76-87 | evaluating two postfix lists in a row is evaluating their concatenation |
| DayEighteen.EvalSingle | src/day_eighteen.rs:76-87 | evaluating one token is one step |
| DayEighteen.EvalTerm | src/day_eighteen.rs:76-87 | a term's postfix pushes its value |
| DayEighteen.EvalExpr | src/day_eighteen.rs:76-87 | an expression's postfix and pending operator push its value |
| DayEighteen.SolveExpression | src/day_eighteen.rs:46-93 | `solve` evaluates every well-formed expression left to right, with `+` and `*` of equal precedence and parentheses honoured |
| DayEighteen.SolveText | src/day_eighteen.rs:24-93 | an expression written out as text, tokenized and solved, gives its left-to-right value |
| DayNineteen.FoldAndShape | src/day_nineteen.rs:82-91 | the `And` fold nests to the left and appends the numbers in order |
| DayNineteen.Sequence | src/day_nineteen.rs:80-95 | None exactly for an alternative naming no rule number, otherwise a left-nested `And` chain of its numbers in order |
| DayNineteen.FoldOrOrder | src/day_nineteen.rs:98-104 | the `Or` fold nests to the right and keeps the alternatives in order |
| DayNineteen.Alternatives | src/day_nineteen.rs:75-97 | no kept alternative is itself an `Or` |
| DayNineteen.InsertionsLookup | src/day_nineteen.rs:61-109 | a number has a rule exactly when some parsed line defines it, and it is the last such line's rule |
| DayNineteen.ParseLine | src/day_nineteen.rs:62-107 | one grammar line; TerminalLine, ColonLine, AlternativesLine and NoProductionsSkipped state what each kind of line gives |
| DayNineteen.ParsedLines | src/day_nineteen.rs:62-108 | one parse per line, in order |
| DayNineteen.GrammarRules | src/day_nineteen.rs:60-110 | the map of the grammar lines; GrammarRulesLookup states which line defines each number |
| DayNineteen.GrammarRulesLookup | src/day_nineteen.rs:60-110 | a number has a rule exactly when some line defines it, the last such line winning |
| DayNineteen.ParseGrammarIntoRules | src/day_nineteen.rs:60-110 | the loop of insertions computes the specified map |
| DayNineteen.Decimals | src/day_nineteen.rs:77-79 | one text per number |
| DayNineteen.DecimalsAt | src/day_nineteen.rs:77-79 | the i-th text is the i-th number in decimal |
| DayNineteen.TrimDigits | src/day_nineteen.rs:78 | `trim` leaves a digit string as it is |
| DayNineteen.ParsedNumbersConcat | src/day_nineteen.rs:77-79 | pieces are parsed one by one: those that fail drop out, the rest keep their order |
| DayNineteen.ParsedDecimals | src/day_nineteen.rs:77-79 | decimal `usize` texts parse back as their numbers |
| DayNineteen.SplitSpaced | src/day_nineteen.rs:77 | numbers joined by single spaces split back into their texts |
| DayNineteen.SplitLeadingSpace | src/day_nineteen.rs:77 | a leading space gives one empty piece first |
| DayNineteen.SplitTrailingSpace | src/day_nineteen.rs:77 | a trailing space gives one empty piece last |
| DayNineteen.ProductionsLeading | src/day_nineteen.rs:77-79 | a space before an alternative's numbers is ignored |
| DayNineteen.ProductionsPadded | src/day_nineteen.rs:77-79 | spaces on both sides of an alternative's numbers are ignored |
| DayNineteen.SubRuleTexts | src/day_nineteen.rs:75 | one text per alternative |
| DayNineteen.SubRuleTextsPlain | src/day_nineteen.rs:75-79 | each alternative's text holds only digits and spaces and names its numbers |
| DayNineteen.AlternativesOfTexts | src/day_nineteen.rs:75-97 | texts naming numbers give one left-nested `And` chain each, of those numbers |
| DayNineteen.TerminalLine | src/day_nineteen.rs:63-73 | a line `n: "c"` defines rule n as the terminal c |
| DayNineteen.ColonSplit | src/day_nineteen.rs:63-66 | `splitn(2, ':')` of `n:rest` gives the rule number and the rest |
| DayNineteen.ColonLine | src/day_nineteen.rs:63-105 | a line `n:` with a quote-free text defines n as the `Or` fold of its alternatives, and is skipped without any |
| DayNineteen.FoldOrAlternatives | src/day_nineteen.rs:98-104 | the alternatives along the fold's right spine are exactly the alternatives, in order |
| DayNineteen.AlternativesLine | src/day_nineteen.rs:60-110 | a line `n: a b \| c d \| ...` defines n as its alternatives in order, nested to the right, each the numbers of its sequence in order, nested to the left |
| DayNineteen.NoProductionsSkipped | src/day_nineteen.rs:74-105 | a line whose text has neither a quote nor a digit inserts nothing |
| DayNineteen.DigitFreeSplit | src/day_nineteen.rs:75-77 | splitting a digit-free text gives digit-free pieces |
| DayNineteen.TrimStartDigitFree | src/day_nineteen.rs:78 | trimming keeps a text digit-free |
| DayNineteen.TrimEndDigitFree | src/day_nineteen.rs:78 | trimming keeps a text digit-free |
| DayNineteen.DigitFreeUnparsed | src/day_nineteen.rs:78 | a digit-free text never parses as a number |
| DayNineteen.DigitFreeNumbers | src/day_nineteen.rs:77-79 | digit-free pieces give no numbers |
| DayNineteen.DigitFreeAlternatives | src/day_nineteen.rs:75-97 | digit-free alternatives are all dropped |
| DayNineteen.Expansion | src/day_nineteen.rs:15-33 | the text `expand` appends; ExpansionRankFree, Expand and ExpansionBalanced state its independence of the rank, the method that builds it and its balanced parentheses |
| DayNineteen.ExpansionRankFree | src/day_nineteen.rs:15-33 | the expansion depends on the rules alone, not on the ranking that bounds its recursion |
| DayNineteen.Expand | src/day_nineteen.rs:15-33 | `expand` appends the expansion of the rule to the buffer |
| DayNineteen.ConvertGrammarRulesToRegex | src/day_nineteen.rs:53-58 | None exactly without a rule 0, otherwise the expansion of rule 0 |
| DayNineteen.NetConcat | src/day_nineteen.rs:25-31 | the parenthesis balance of a concatenation is the sum of its parts' balances |
| DayNineteen.BalancedConcat | src/day_nineteen.rs:21-24 | balanced texts concatenate to a balanced text |
| DayNineteen.BalancedWrap | src/day_nineteen.rs:26-30 | a balanced text in parentheses is balanced |
| DayNineteen.BalancedPlain | src/day_nineteen.rs:17-19 | a text without parentheses is balanced |
| DayNineteen.NetPlain | src/day_nineteen.rs:17-19 | a text without parentheses has balance 0 |
| DayNineteen.BalancedAlternation | src/day_nineteen.rs:25-31 | `(x\|y)` of balanced texts is balanced |
| DayNineteen.ExpansionBalanced | src/day_nineteen.rs:15-33 | when no terminal is a parenthesis, every expansion has balanced parentheses |
| DayTwenty.ReverseBits | src/day_twenty.rs:34-39 | `u16::reverse_bits`: bit k of the result is bit 15 - k of the input |
| DayTwenty.FlipSide | src/day_twenty.rs:100-102 | `reverse_bits() >> 6`: the low ten bits in reverse order, the high bits dropped |
| DayTwenty.FlipInvolution | src/day_twenty.rs:100-102 | flipping a ten-bit side twice gives it back |
| DayTwenty.DigitSucc | src/day_twenty.rs:29 | each `<<= 1` moves the digit to the next position |
| DayTwenty.DigitBit | src/day_twenty.rs:160-165 | the digit after n shifts has bit n set and no other |
| DayTwenty.DigitPower | src/day_twenty.rs:160-165 | below position 16 the digit is a single bit, below 15 it leaves the top bit clear |
| DayTwenty.DigitZero | src/day_twenty.rs:165 | after 16 shifts the `u16` digit is 0, so later `#` characters add nothing |
| DayTwenty.PackBelow | src/day_twenty.rs:159-167 | the mask of the first n positions is below the n-th digit |
| DayTwenty.AddAbove | src/day_twenty.rs:163 | adding a single bit above a number is setting it, with no carry and no overflow |
| DayTwenty.PackAdd | src/day_twenty.rs:27-28 | the mask of one more position is the sum the loops form |
| DayTwenty.PackBit | src/day_twenty.rs:27-28 | bit k of the mask is set exactly when k is below n and position k holds |
| DayTwenty.PackTen | src/day_twenty.rs:26-30 | a ten-position mask is below 1024 |
| DayTwenty.PackNext | src/day_twenty.rs:26-30 | one round adds the digit when the position holds, and doubles the digit |
| DayTwenty.AddDigit | src/day_twenty.rs:27-28 | `+= if .. { digit } else { 0 }` extends the mask by one position |
| DayTwenty.Hashes | src/day_twenty.rs:161-162 | one flag per character |
| DayTwenty.RowBits | src/day_twenty.rs:160-166 | bit k of a row is set exactly when character k of its line is `#` |
| DayTwenty.RightColumn | src/day_twenty.rs:28 | one flag per row |
| DayTwenty.LeftColumn | src/day_twenty.rs:27 | one flag per row |
| DayTwenty.EdgeBits | src/day_twenty.rs:26-30 | bit i of the right edge is bit 9 of row i, bit i of the left edge is bit 0 of row 9 - i, higher bits clear |
| DayTwenty.EdgesBelow | src/day_twenty.rs:26-30 | both edges are ten-bit values |
| DayTwenty.Clockwise | src/day_twenty.rs:34 | four borders |
| DayTwenty.AntiClockwise | src/day_twenty.rs:35-40 | four borders |
| DayTwenty.AntiClockwiseFlipped | src/day_twenty.rs:34-40 | with a ten-bit bottom row, every anti-clockwise border is its clockwise one flipped |
| DayTwenty.ReadEdges | src/day_twenty.rs:22-30 | the loop of `Block::new` computes the left edge bottom to top and the right edge top to bottom |
| DayTwenty.Transform | src/day_twenty.rs:44-76 | ten rows |
| DayTwenty.TransformInvolution | src/day_twenty.rs:44-76 | on ten-bit rows every flip undoes itself |
| DayTwenty.TransformCompose | src/day_twenty.rs:50-73 | flipping along Y after X is FlipXY |
| DayTwenty.LowMaskStep | src/day_twenty.rs:59 | the bits below a single bit and that bit make the bits below the next one |
| DayTwenty.LowPartTen | src/day_twenty.rs:57-62 | summing the first ten bits one at a time gives `x & 1023` |
| DayTwenty.LowPartNext | src/day_twenty.rs:59 | one round adds one more bit |
| DayTwenty.AddMasked | src/day_twenty.rs:59 | `+= x & i` adds the next bit without overflow |
| DayTwenty.LowBits | src/day_twenty.rs:66-71 | the bit loop of FlipXY gives the low ten bits |
| DayTwenty.Block.constructor | src/day_twenty.rs:21-43 | `Block::new` keeps id and rows, sets the clockwise and anti-clockwise borders and no match |
| DayTwenty.Block.MissingSides | src/day_twenty.rs:91-93 | at most 4 unmatched sides, and 0 exactly when every side is matched |
| DayTwenty.Block.Transformed | src/day_twenty.rs:44-76 | `transformed` returns the specified rows and leaves the tile as it is |
| DayTwenty.Block.AddMatchingSides | src/day_twenty.rs:77-90 | the first matching pair of sides, by this tile's side then the other's, is recorded on both tiles with the match flag; no other slot changes |
| DayTwenty.Block.FlipYRows | src/day_twenty.rs:55-63 | every row becomes the low ten bits of its mirror row |
| DayTwenty.Block.FlipXYRows | src/day_twenty.rs:64-73 | every row becomes its mirror row flipped |
| DayTwenty.FirstMatchFrom | src/day_twenty.rs:80-88 | the scan from (s, t) returns a matching pair with no match before it, or None when none is left |
| DayTwenty.FirstMatch | src/day_twenty.rs:78-89 | the first matching pair of sides, None exactly when no pair matches |
| DayTwenty.FirstMatchAt | src/day_twenty.rs:80-88 | a matching pair with no match before it is the first match |
| DayTwenty.MatchSidesRecords | src/day_twenty.rs:82-85 | the first match is recorded in both tiles' slots, with flag `flipped_side == other_side` |
| DayTwenty.MatchSidesNone | src/day_twenty.rs:77-90 | with no matching pair nothing is recorded |
| DayTwenty.Row | src/day_twenty.rs:133-135 | tile a meets the tiles after it, in order |
| DayTwenty.PairsUpToBounds | src/day_twenty.rs:128-137 | the loops for tiles below a visit only pairs x < y < n with x below a |
| DayTwenty.PairInPairsUpTo | src/day_twenty.rs:128-137 | every such pair is visited |
| DayTwenty.PairsUpToSorted | src/day_twenty.rs:128-137 | the pairs are visited in increasing order |
| DayTwenty.PairsBounded | src/day_twenty.rs:127-138 | `populate_matches` visits only pairs a < b of tiles |
| DayTwenty.PairsComplete | src/day_twenty.rs:127-138 | every pair a < b of tiles is visited |
| DayTwenty.PairsSorted | src/day_twenty.rs:127-138 | the pairs are visited in increasing order, so none twice |
| DayTwenty.Step | src/day_twenty.rs:134 | one call keeps the slots well formed |
| DayTwenty.Fold | src/day_twenty.rs:128-137 | the calls keep the slots well formed |
| DayTwenty.FoldAppend | src/day_twenty.rs:128-137 | one more pair is one more call |
| DayTwenty.SlotsOf | src/day_twenty.rs:9 | the slots of every tile, in order |
| DayTwenty.MatchPair | src/day_twenty.rs:134 | one call changes the slots of the two tiles as specified and no others |
| DayTwenty.MatchWithLater | src/day_twenty.rs:132-136 | the inner loop performs tile a's calls with every later tile, in order |
| DayTwenty.PopulateMatches | src/day_twenty.rs:127-138 | `populate_matches` performs the calls for every pair a < b, in order |
| DayTwenty.Corners | src/day_twenty.rs:110-112 | the indexes of the tiles with two unmatched sides, increasing, with every such tile listed |
| DayTwenty.CornerIds | src/day_twenty.rs:110-112 | the ids kept are exactly those of tiles with two unmatched sides |
| DayTwenty.CornerIdsInOrder | src/day_twenty.rs:110-115 | one id per corner tile, in the order of the tiles, so the product multiplies each corner's id once |
| DayTwenty.SolvePartOne | src/day_twenty.rs:108-116 | part one: the product of the ids of the tiles with two unmatched sides after matching |
| DayTwenty.HeaderId | src/day_twenty.rs:149-155 | a header id is a `u16` |
| DayTwenty.HeaderOfTile | src/day_twenty.rs:149-155 | `Tile n:` gives n back |
| DayTwenty.BlockLength | src/day_twenty.rs:156-157 | the tile's lines are taken from the lines that are left |
| DayTwenty.BlockLengthStops | src/day_twenty.rs:156-157 | `take_while(!trim().is_empty())`: the lines counted are not blank, and the line after them, if any, is |
| DayTwenty.TileRows | src/day_twenty.rs:158 | ten rows |
| DayTwenty.TileRowBits | src/day_twenty.rs:158-167 | bit k of row i is set exactly when character k of line i is `#`; missing lines leave 0 |
| DayTwenty.TileRowsStep | src/day_twenty.rs:159-167 | one more line sets one more row |
| DayTwenty.ReadRow | src/day_twenty.rs:160-166 | the character loop computes a line's row |
| DayTwenty.ReadBlockRows | src/day_twenty.rs:156-167 | the block loop reads the rows of the lines up to the first blank one |
| DayTwenty.ReadImageSignature | src/day_twenty.rs:148-170 | None exactly at the end of input or for a header without a `u16` id; otherwise a new tile with that id and the rows of its lines, having consumed the header, the lines and the blank line after them |
| DayTwenty.HeaderIds | src/day_twenty.rs:149-155 | one header reading per line |
| DayTwenty.HeaderIdsAt | src/day_twenty.rs:149-155 | entry p is what line p gives when read as a header |
| DayTwenty.BlockLengths | src/day_twenty.rs:156-157 | one tile length per suffix of the lines, none past the end |
| DayTwenty.BlockLengthsAt | src/day_twenty.rs:156-157 | entry q is the number of non-blank lines from line q on |
| DayTwenty.NextStart | src/day_twenty.rs:142 | the next call starts after the header, within the input |
| DayTwenty.SuffixAt | src/day_twenty.rs:148-170 | what one call sees from line p on is the header, the rows and the line count the tables give for line p |
| DayTwenty.ReadNext | src/day_twenty.rs:142 | one call at line p: None exactly where reading stops, otherwise a new unmatched tile made from the tile at line p, and the line where the next call starts |
| DayTwenty.ReadFromPush | src/day_twenty.rs:142-143 | pushing the block read at the current line extends the record of the blocks read |
| DayTwenty.ReadFromEach | src/day_twenty.rs:142-143 | in a record of blocks read, block k was read at line `starts[k]` and the next one at the line after it |
| DayTwenty.ReadImageSignatures | src/day_twenty.rs:140-146 | the `while let` loop reads tile after tile from line 0 until the header at which reading stops: block k is a new unmatched tile made from the tile at `starts[k]`, the next one starts where that one ends, and the blocks are distinct |

## Left out

- The `run_day_*` entry points read the input file and print the answers. `src/main.rs`, `src/file_util.rs` and the printing code are not part of this model. Each solution is modelled as a function of the input lines.
- The iteration order of `HashMap` and `HashSet` is not modelled. None of the answers depends on it, since the code only counts, sums or looks up.
- DayOne.FindPairSummingTo: requires the pairwise sums to stay below 2^32. The `u32` addition in the source would overflow (and panic in a debug build) otherwise.
- DayOne.FindTripleSummingTo: requires the sums of three to stay below 2^32, for the same reason.
- DayTwo.IsValidForTaskTwo: requires `1 <= at_least < at_most`. The `usize` subtraction of 1 from a position of 0 underflows in the source.
- DayThree.CalculateCollisions: requires a non-empty board row. The `%` by a zero width panics in the source.
- DayFour: the day four tests at `src/day_four.rs:72-74` do not compile as written. The model follows the validation code at lines 33-42, and the sample count of 2 is not evaluated.
- Text is modelled as sequences of characters and sliced by character position. The source slices `&str` values by byte offset, so DayFive.SeatId, DaySixteen.RangeToArrTuple, DayFourteen.ParseLine and DayFourteen.ParseLines agree with it only on ASCII lines, which is what the puzzle inputs hold.
- DayFive.SeatId: requires a line of at least ten characters. The source's slicing panics on a shorter line. The source takes bytes 0-6 and 7-9 (`src/day_five.rs:16-17`), the model characters 0-6 and 7-9. On a line with a multi-byte character among its first ten bytes the source reads a different split, or panics when a slice ends inside a character; the model agrees with the source only on ASCII lines.
- DayFive.FindMissingSeat: requires strictly increasing ids. The source sorts the ids of distinct boarding passes. The sort itself is not modelled.
- DaySeven.GetChildrenCount: requires a rank for the counted bag under which every contained bag of the map is ranked and ranks lower, so no containment cycle is reachable from it (DaySeven.CycleUnranked). The source recurses forever on such a reachable cycle. Cycles among bags the counted bag cannot reach need no rank and are allowed (DaySeven.UnreachableCycleCounts), and part one (DaySeven.ShinyGoldContainers) needs no rank at all.
- DaySeven.CountContained: the `usize` products and sums of `get_children_count` (`src/day_seven.rs:31-38`) are unbounded in the model; their overflow is not modelled.
- DayEight: parsing an instruction line into an operation and an argument is not modelled (`src/day_eight.rs:12-14, 67-74`); the model starts from the parsed program.
- DayEight.Step: a backward jump below 0 wraps the `usize` program counter around modulo 2^64, as in a release build; the debug-build panic on that underflow, and on an overflowing forward jump, is not modelled.
- DayEight.GetLoopInfo: the `isize` accumulator `sum += amount` (`src/day_eight.rs:27`) is unbounded in the model; its overflow is not modelled.
- DayNine.PairSearchDecides: the search is complete only when the target is non-negative or all numbers are non-negative (see `DayNine.NegativePairMissed`). The number parsing at `src/day_nine.rs:6-8` and the third `is_number_sum_of_any` test are not modelled.
- DayNine.SolvePartTwo: the `isize` running sum `sum += value` (`src/day_nine.rs:35`) is unbounded in the model; its overflow is not modelled.
- DayNine.IsNumberSumOfAny: the `isize` sum `numbers[x] + y` (`src/day_nine.rs:91`) is unbounded in the model; its overflow is not modelled.
- DayTen.FindJoltDifferences: requires a non-empty, sorted list. On unsorted input the source's `usize` difference underflows. The sort in `run_day_ten` and the sample answers (`[22, 10]` and 19208) are not evaluated.
- DayEleven: the loop in `run_day_eleven` that applies rounds until the seat map is stable, and the parsing of the grid (`src/day_eleven.rs:24-46`), are not modelled. Single rounds and their properties are.
- DayTwelve: parsing the instruction lines (`src/day_twelve.rs:12-18`) and the final Manhattan sum (line 21) are not modelled. `isize` overflow of the ship's coordinates is not modelled.
- DayThirteen.PartTwoAligned: requires pairwise coprime bus ids, as the puzzle input guarantees. PartOne models the part-one product `earliest_bus.0 * earliest_bus.1` over unbounded numbers. PartTwo requires the product, every index times the product and the sum of the terms to fit a `usize`. The printing is not modelled.
- DayThirteen.EarliestBus: requires every bus id to be positive. A bus field "0" parses as a `usize`, and `departure_time % bus` then panics (`src/day_thirteen.rs:16`).
- DayFourteen.ParseLines: requires `Parsable`: when a later mask line follows, the first line has at least 7 characters. The source's `&mask[7..]` (`src/day_fourteen.rs:103`) panics on a shorter first line; the model excludes that input instead of modelling the panic. It also requires every later line to meet `AddressSliceFits`, as for ParseLine.
- DayFourteen.ParseLine: requires `AddressSliceFits`: in a line with " = " whose head is not "mask", the head has at least 5 characters. The source's `&split.0[4..split.0.len()-1]` (`src/day_fourteen.rs:108`) panics on a shorter head, as in "abc = 1"; the model excludes that input instead of modelling the panic.
- DayFourteen: the address iteration requires its slices and shifts to fit the `u64`/`usize` widths of the source (shifts below 64). The sample answer 208 and the final `values().sum()` are not evaluated.
- DayFifteen: the literal sample games of the tests (436, 10 and 1) and the 30,000,000-turn run are not evaluated.
- DaySixteen.RangeToArrTuple: finds the first `-` by its character position, as `chars().enumerate()` does (`src/day_sixteen.rs:117-119`), and splits there. The source's `split_at` (line 120) takes that position as a byte offset, so the two agree only on ASCII text. Before a multi-byte character the source splits elsewhere or panics: on "1é-2" the offset 2 falls inside "é" and the source panics, while the model gives None.
- DaySixteen.Resolve: the `while` loop that eliminates fields has no guaranteed termination in the source, so the model bounds it by a fuel parameter. A bound too small for the puzzle leaves fields unresolved. The line handling at `src/day_sixteen.rs:14-20`, the part-one sum at line 22 and the `take(6)` product at lines 68-75 are not modelled.
- DaySeventeen: parsing the starting grid, the six cycles and the final count in `run_day_seventeen` (`src/day_seventeen.rs:105-122`) are not modelled. `isize` overflow of the coordinates is not modelled.
- DayEighteen: evaluation is over unbounded numbers. The `usize` overflow of the source is not modelled, and neither is the sum over all lines in `run_day_eighteen` (`src/day_eighteen.rs:96-103`).
- DayNineteen: compiling the expanded grammar into a regular expression, matching messages against it (`src/day_nineteen.rs:42-49`), the test at lines 136-143, and the `take_while` that splits the input are not modelled. The model proves properties of the expanded pattern text.
- DayNineteen.Expand: requires an acyclic grammar, expressed as a rank, and every rule it refers to to be present. The source recurses forever on a cyclic rule, and `rules.get(&x).unwrap()` (`src/day_nineteen.rs:56`) panics on a missing one.
- DayNineteen.ConvertGrammarRulesToRegex: requires the same rank over the rules, so a rule 0 that refers to a missing rule is excluded rather than panicking.
- DayNineteen.ExpansionBalanced: stated only for grammars whose terminals contain no parentheses.
- DayNineteen.NoProductionsSkipped: stated only for texts without digits.
- DayTwenty: `run_day_twenty` reads the file and prints; SolvePartOne takes the tiles read. The `usize` product of the corner ids is unbounded. The printing at lines 120-125 is not modelled.
- DayTwenty.ReadImageSignature: requires at most ten rows in a block. More than ten rows panics in the source. ReadImageSignatures requires the same of every tile it reads.

## Findings

| source | as written | input that shows it | evidently intended | confidence | as-written member | corrected member |
|---|---|---|---|---|---|---|
| src/day_fourteen.rs:116 (compare line 103) | the last mask group keeps the `"mask = "` prefix, so its mask text is not stripped | a last group with mask line `mask = X` and the write `mem[0] = 2`: under part one address 0 ends up non-zero | every group strips the prefix, so its mask is `X` and address 0 ends up 0, as for any other group with that mask | not executed | DayFourteen.LastGroupKeepsPrefix, DayFourteen.KeptPrefixChangesTaskOne | DayFourteen.ParseLinesFixedGroups |
| src/day_fifteen.rs:13-18 | the map of last turns is also seeded with the last starting number | starting numbers `[1, 1]`: turn 3 says 0 | the last starting number is spoken for the first time only when it is new, so turn 3 says 1 | not executed | DayFifteen.SolveGame, DayFifteen.RepeatedLastDiffers | DayFifteen.SolveGameFixed |
