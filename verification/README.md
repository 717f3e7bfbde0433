# Advent of Code 2022 solvers, modelled in Dafny

The repository solves the 2022 Advent of Code puzzles, one Rust file per
day (`src/d01.rs` to `src/d25.rs`). This project models each day's solver
as one Dafny module of immutable datatypes and pure functions, with a few
methods where the source's loop is the point (the sliding window of day 6,
the crane moves of day 5, the in-place mixing of day 20). The contracts
and lemmas state what each solver computes in the puzzle's own terms:
round trips of the parsers and codecs, the orderings and their laws, the
invariants the simulations keep (the rope stays connected, elves and
blizzards are neither lost nor created, falling rocks stay inside the
well), and, for the searches, that the answer is reached by some allowed
plan and that no allowed plan does better. Shared helpers live in
`Common` (options, sums, absolute value, truncating division) and `Text`
(lines, splitting, words, number parsing). Where the source would panic
on malformed input, the model returns `None` or states the condition as
a precondition.

## Model

| member | source | states |
|---|---|---|
| Snafu.SnafuToDecimal | src/d25.rs:11-25 | the right-to-left loop with weights 5^index computes the base-5 value |
| Snafu.Encode | src/d25.rs:27-52 | only SNAFU digits; empty for n <= 0; leading digit 1 or 2 for n >= 1 |
| Snafu.DecodeEncode | src/d25.rs:11-52 | decoding the encoding of any n >= 0 gives n |
| Snafu.DecimalToSnafu | src/d25.rs:27-52 | the carrying loop and final reversal produce the encoding |
| Snafu.Part1 | src/d25.rs:54-57 | the answer is a SNAFU number that decodes to the sum of the decoded lines when that sum is not negative, and is empty when the sum is not positive |
| Snafu.SampleAnswer | src/d25.rs:66 | the sample answer "2=-1=0" is 4890 |
| Packets.NumbersCompareByValue | src/d13.rs:72-78 | two numbers are undecided exactly when equal, and ordered exactly when the left is smaller |
| Packets.NumberAsSingleton | src/d13.rs:111-112 | a number met by any list compares as the one-element list holding it, on either side |
| Packets.TiedPrefix | src/d13.rs:80-109 | when every common position ties, the shorter list comes first and equal lengths are undecided |
| Packets.OrderedIrreflexive | src/d13.rs:70-114 | comparing any packet with itself is undecided |
| Packets.OrderedListsIrreflexive | src/d13.rs:80-109 | comparing any list with itself is undecided |
| Packets.OrderedAntisymmetric | src/d13.rs:70-114 | swapping the operands flips a decided answer and keeps an undecided one |
| Packets.OrderedListsAntisymmetric | src/d13.rs:80-109 | the same for the list loop |
| Packets.CompareAgrees | src/d13.rs:38-47 | `Ord::cmp` is Less, Greater, Equal exactly when `items_ordered` is Some(true), Some(false), None |
| Packets.CompareListsAgrees | src/d13.rs:42-45 | slice comparison agrees with the list loop of `items_ordered` |
| Packets.PartialCompare | src/d13.rs:23-36 | `partial_cmp` is defined exactly when `items_ordered` decides, and then equals `cmp` |
| Packets.IndexSumBounds | src/d13.rs:127-141 | the loop's sum of ordered pair indices is at most 1 + ... + n, and 0 when no pair is ordered |
| Packets.SetSumRemove | src/d13.rs:140 | the sum of a finite set of numbers is any one element plus the sum of the rest |
| Packets.IndexSumIsPositionSum | src/d13.rs:127-141 | the loop's sum is the sum of the set of 1-based positions k whose pair is decided in the right order |
| Packets.Part1 | src/d13.rs:127-141 | part 1 is the sum of the set of 1-based positions whose pair is in the right order, at most 1 + ... + n, and 0 when no pair is |
| Packets.CountBeforeMember | src/d13.rs:152-155 | a packet is never counted among the packets sorting before it |
| Packets.SortedPosition | src/d13.rs:152-155 | the 1-based sorted position of a packet lies between 1 and the number of packets |
| Packets.Part2 | src/d13.rs:143-158 | the positions of [[2]] and [[6]] are within the packet count, and [[6]] is at position 2 or later |
| Packets.CountBeforeIsSize | src/d13.rs:152-155 | the count of packets sorting before `x` is the size of the set of their indices |
| Packets.Part2Answer | src/d13.rs:143-158 | the product over both dividers of one plus the number of packets (dividers included) sorting strictly before it, which is at least 2 |
| Packets.DividersOrdered | src/d13.rs:144-145 | [[2]] sorts before [[6]] |
| Packets.SamplePairs | src/d13.rs:70-114 | of the eight sample pairs, every one is decided, and exactly pairs 1, 2, 4 and 6 are in the right order |
| Packets.SampleAnswer | src/d13.rs:127-141 | the sample's part 1 answer is 13 |
| Calories.ParseGroup | src/d01.rs:10 | a group parses exactly when every line is a number, giving one number per line |
| Text.LinesUnlines | src/d01.rs:10 | lines written each with a line feed, none ending in a carriage return, read back as the same lines |
| Text.LinesCrLf | src/d01.rs:10 | lines written each with "\r\n" read back as the same lines, one carriage return dropped per line |
| Calories.ParseInput | src/d01.rs:6-15 | one group of numbers per piece of the text between blank lines |
| Calories.Part1 | src/d01.rs:17-19 | the result is one of the group totals and no group total exceeds it; needs at least one group |
| Calories.TopThree | src/d01.rs:21-25 | the selected totals are min(3, n) of the totals, the rest of the totals are none larger, and together they are all the totals |
| Calories.Part2 | src/d01.rs:21-25 | the answer is not negative, and with three groups or fewer it is the sum of all the group totals |
| Calories.Part2AtLeastPart1 | src/d01.rs:17-25 | part 2 is at least part 1 |
| Calories.ParseGroups | src/d01.rs:9-12 | each group becomes the numbers of its lines, in order; no result exactly when some group has a line that is not a number |
| Calories.GroupSums | src/d01.rs:18-22 | one total per group, in order, each the sum of its group's numbers and never negative |
| Calories.MaxOf | src/d01.rs:18 | the result is one of the totals and no total exceeds it; the source's `unwrap` needs at least one total |
| Common.SumPermutation | src/d01.rs:21-25 | rearranging the totals, as the sort does, does not change their sum |
| RockPaperScissors.HandScore | src/d02.rs:50-56 | rock, paper, scissors score 1, 2, 3 |
| RockPaperScissors.ResultScore | src/d02.rs:14-20 | loss, draw, win score 0, 3, 6 |
| RockPaperScissors.ParseHand | src/d02.rs:38-47 | A/X is rock, B/Y paper, C/Z scissors, and nothing else parses |
| RockPaperScissors.ParseRound | src/d02.rs:95-102 | a line parses exactly when its first two words are hand letters, giving those hands |
| RockPaperScissors.Against | src/d02.rs:58-76 | a round is a draw exactly when both hands are equal |
| RockPaperScissors.AgainstSwap | src/d02.rs:58-76 | a win for one side is a loss for the other, and a draw is a draw both ways |
| RockPaperScissors.OpponentsHand | src/d02.rs:78-92 | the chosen hand achieves the wanted result against the enemy; for a draw it is the enemy's hand |
| RockPaperScissors.OpponentsHandUnique | src/d02.rs:78-92 | the chosen hand is the only one achieving that result |
| RockPaperScissors.FromHand | src/d02.rs:22-28 | X means lose, Y draw, Z win |
| RockPaperScissors.RoundScore | src/d02.rs:104-108 | a round scores between 1 and 9 |
| RockPaperScissors.Part1 | src/d02.rs:104-108 | the total lies between 1 and 9 points per round |
| RockPaperScissors.Part2 | src/d02.rs:110-119 | the total lies between 1 and 9 points per round |
| RockPaperScissors.Part2RoundScore | src/d02.rs:110-119 | in part 2 each round's result score is the one the second column asks for |
| RockPaperScissors.SampleAnswers | src/d02.rs:123 | the sample guide scores 15 and 12 |
| RockPaperScissors.ParseRounds | src/d02.rs:96-101 | one round per line, each the hands its first two words name; no result exactly when some line fails to parse |
| RockPaperScissors.ParseInput | src/d02.rs:95-102 | the rounds of the input's lines, one per line; no result exactly when a line lacks two hand letters, where the source panics |
| Rucksacks.Priority | src/d03.rs:39-43 | letters a..z score 1..26 and A..Z score 27..52; any other character from 'a' up scores its distance from 'a' plus 1, and one below 'a' has no score, where the `usize` subtraction underflows |
| Rucksacks.PriorityRoundTrip | src/d03.rs:39-43 | priorities identify letters: the priority of a letter and the letter of a priority invert each other |
| Rucksacks.FromLine | src/d03.rs:15-27 | the first compartment holds the characters of the first half (rounded down), the second those of the rest, together all characters |
| Rucksacks.Intersection | src/d03.rs:30-32 | exactly the characters found in both compartments |
| Rucksacks.CommonChar | src/d03.rs:34-36 | an element of the non-empty intersection |
| Rucksacks.CommonCharUnique | src/d03.rs:34-36 | with a single shared item type the choice is that item |
| Rucksacks.Part1 | src/d03.rs:49-51 | no answer exactly when some rucksack shares no item type between its halves (the `unwrap` panic) or shares one scoring below 'a'; otherwise each rucksack adds at least 1, and at most 52 when all are letters |
| Rucksacks.Score | src/d03.rs:34-43 | the priority of a scorable rucksack's shared item: at least 1, at most 52 for a rucksack of letters |
| Rucksacks.NonLetterSack | src/d03.rs:39-51 | the rucksack "ab1b" is not all letters, shares only 'b', and part 1 scores it 2 |
| Rucksacks.Badge | src/d03.rs:61-66 | a found badge is in all three sacks; none is found only when no character of the first sack is in both others |
| Rucksacks.BadgePriority | src/d03.rs:61-66 | a group adds nothing exactly when it has no badge, has no answer exactly when its badge scores below 'a', and adds at most 52 when the first sack is all letters |
| Rucksacks.Part2 | src/d03.rs:53-69 | no answer exactly when the number of sacks is not a multiple of three (the indexing past the end panics) or some group's badge has no priority; otherwise at most 52 per group of letter sacks |
| Rucksacks.Groups | src/d03.rs:56-67 | over a whole number of groups, no answer exactly when some group's badge has no priority; at most 52 per group of letter sacks |
| Rucksacks.FirstIn | src/d03.rs:61-65 | the first character of the string that the set holds; none exactly when the set holds no character of the string |
| Rucksacks.ParseInput | src/d03.rs:45-47 | one rucksack per line, holding that line and split into halves as `Rucksack::from` does |
| CampCleanup.ParseRange | src/d04.rs:13-20 | a range parses exactly when there are at least two pieces around '-' and every piece is a number; the first two are the ends |
| CampCleanup.ParseLine | src/d04.rs:9-24 | a line parses into the four numbers of its two ranges |
| CampCleanup.ParseLineRoundTrip | src/d04.rs:9-24 | printing "a1-a2,b1-b2" and parsing it back gives the four numbers |
| CampCleanup.CompleteOverlapIsContainment | src/d04.rs:26-29 | for proper ranges, complete overlap holds exactly when one range contains the other |
| CampCleanup.SomeOverlapIsIntersection | src/d04.rs:31-37 | for proper ranges, some overlap holds exactly when max(a1, b1) <= min(a2, b2), that is when a section is shared |
| CampCleanup.OverlapsSymmetric | src/d04.rs:26-37 | both predicates are symmetric in the two elves |
| CampCleanup.CompleteImpliesSome | src/d04.rs:26-37 | for proper ranges complete overlap implies some overlap |
| CampCleanup.Part1 | src/d04.rs:39-41 | a count at most the number of lines, zero exactly when no line completely overlaps |
| CampCleanup.Part2 | src/d04.rs:43-45 | a count at most the number of lines, zero exactly when no line overlaps |
| CampCleanup.Part1AtMostPart2 | src/d04.rs:39-45 | part 1 <= part 2 <= number of lines |
| CampCleanup.ParseLineOf | src/d04.rs:12-21 | two comma-free ranges joined by one comma parse as the pair of ranges, the first range's ends first |
| SupplyStacks.Mover9000 | src/d05.rs:19-24 | the number of towers is kept, every tower other than the source and target is unchanged, and a move of no crates changes nothing, whatever tower numbers it names |
| SupplyStacks.OldCraneAdmitsMore | src/d05.rs:19-30 | every move the 9001 crane can make, the 9000 can make; the 9000 also makes any move of no crates, and a move onto one tower holding at least one crate however many it names, and nothing else beyond |
| SupplyStacks.Mover9001 | src/d05.rs:26-30 | the number of towers is kept and every tower other than the source and target is unchanged |
| SupplyStacks.ProcessMove | src/d05.rs:19-24 | popping and pushing one crate `count` times moves the top block reversed, and changes nothing when source and target coincide |
| SupplyStacks.MoversKeepTotal | src/d05.rs:19-30 | both cranes keep the total number of crates |
| SupplyStacks.Mover9000KeepsTotal | src/d05.rs:19-24 | the 9000 crane keeps the total number of crates on every move it can make |
| SupplyStacks.MoversMoveTheBlock | src/d05.rs:19-30 | between different towers, both take the top `count` crates off the source; the 9000 stacks them reversed, the 9001 in order |
| SupplyStacks.MoveOntoItself | src/d05.rs:19-30 | a move onto the same tower changes nothing, for either crane |
| SupplyStacks.SingleCrateMoversAgree | src/d05.rs:19-30 | moving at most one crate, the two cranes give the same towers |
| SupplyStacks.TopCrates | src/d05.rs:32-34 | one character per tower, its top crate; every tower must be non-empty |
| SupplyStacks.RunMoves | src/d05.rs:81-96 | applying the moves in order keeps the tower count and the crate total, or fails on a move the source would panic on |
| SupplyStacks.Part1 | src/d05.rs:81-88 | one letter per tower, and only when the 9000 crane's moves all run and keep the crate total |
| SupplyStacks.Part2 | src/d05.rs:90-96 | one letter per tower, and only when the 9001 crane's moves all run and keep the crate total |
| SupplyStacks.SingleCrateRunsAgree | src/d05.rs:19-30 | moves of at most one crate between existing towers leave both cranes with the same towers, or both fail |
| SupplyStacks.SingleCratePartsAgree | src/d05.rs:81-96 | on such moves part 1 and part 2 give the same answer |
| SupplyStacks.CrateLines | src/d05.rs:43-47 | the drawing's crate lines are those before the first line without '[' |
| SupplyStacks.Column | src/d05.rs:48-54 | one letter for each crate line that shows a letter at column 4i+1, read in line order from the top |
| SupplyStacks.LetterRows | src/d05.rs:48-54 | exactly the crate lines showing a letter at column 4i+1, in increasing order |
| SupplyStacks.ParseTowers | src/d05.rs:37-59 | succeeds exactly when there is a first line and every crate line reaches the last column; then there are (length of the first line + 1) / 4 towers, and tower i holds its column's letters bottom line first |
| SupplyStacks.OddPieces | src/d05.rs:64-67 | the pieces at positions 1, 3, 5, ... of the split line |
| SupplyStacks.ParseMove | src/d05.rs:61-75 | count, from and to are the numbers in pieces 1, 3 and 5 |
| SupplyStacks.ParseMoves | src/d05.rs:61-76 | one move per line, each the numbers its line's odd pieces give; no result exactly when some line fails to parse |
| SupplyStacks.ParseInput | src/d05.rs:37-79 | an answer exactly when the input has a blank line, the drawing before it parses and every line after it is a move; then the towers are the drawing's and the moves are the lines' in order |
| SupplyStacks.Answer | src/d05.rs:81-96 | an answer exactly when every move runs and every tower ends non-empty (the source indexes each top crate); then letter i is the top crate of tower i after the moves |
| SignalMarker.SetOfMembers | src/d06.rs:14-17 | the window set holds exactly the window's characters |
| SignalMarker.DistinctIffFullSet | src/d06.rs:22-24 | the set of a window has one element per character exactly when no character repeats |
| SignalMarker.MarkerFrom | src/d06.rs:21-31 | the search returns the first position whose preceding window has no repeat, or the length |
| SignalMarker.Marker | src/d06.rs:13-32 | n when there are at most n characters; otherwise the least position from n whose preceding n characters differ, or the length when no position before the end qualifies |
| SignalMarker.SlideWindow | src/d06.rs:25-28 | removing the leaving character unless it recurs, then adding the entering one, gives the next window's set |
| SignalMarker.IndexOfUniqueChain | src/d06.rs:13-32 | the sliding-set loop returns the marker position |
| SignalMarker.SamplePart1 | src/d06.rs:34-36 | the first sample stream's packet marker is at 7 |
| SignalMarker.Part1 | src/d06.rs:34-36 | 4 for a stream of at most 4 characters; otherwise the first position from 4 whose preceding 4 characters all differ, no earlier position qualifying, or the length when none before the end does |
| SignalMarker.Part2 | src/d06.rs:38-40 | the same with windows of 14 characters |
| DirectorySizes.Put | src/d07.rs:39-40 | after storing, the key reads back the new value and every other key reads as before |
| DirectorySizes.PutKeys | src/d07.rs:39 | storing adds no key but the stored one and keeps keys unique |
| DirectorySizes.GetEntry | src/d07.rs:39 | with unique keys, every stored entry is what a lookup of its key returns |
| DirectorySizes.KeyLength | src/d07.rs:34-38 | the root's key is "/" and a deeper directory's key is strictly longer than its parent's |
| DirectorySizes.KeysDistinct | src/d07.rs:34-38 | the ancestor keys of a working directory are pairwise different |
| DirectorySizes.RootIsAncestor | src/d07.rs:34-38 | "/" is among the ancestor keys of every rooted working directory |
| DirectorySizes.AddAncestorsEffect | src/d07.rs:34-41 | a file's size is added exactly once to each ancestor directory, including "/", and to nothing else |
| DirectorySizes.Step | src/d07.rs:16-41 | "$ ls" and "dir" lines change nothing; "$ cd" changes only the working directory ("/" resets, ".." pops, a name pushes); other lines fail exactly when their size does not parse |
| DirectorySizes.StepKeepsRoot | src/d07.rs:16-41 | one line of a well-nested log keeps the working directory rooted, the keys unique and "/" the largest entry, and adds the file's size to "/" |
| DirectorySizes.RunRootTotal | src/d07.rs:15-42 | a well-nested log adds the total of its file sizes to "/" and keeps "/" the largest entry |
| DirectorySizes.ParseRootTotal | src/d07.rs:11-45 | parsing a well-nested log gives "/" the total of all file sizes, and no entry exceeds it |
| DirectorySizes.MaxValue | src/d07.rs:56 | the largest entry is an entry and bounds all entries |
| DirectorySizes.MaxIsRoot | src/d07.rs:56 | when "/" bounds every entry, the largest entry is the root's |
| DirectorySizes.Part1 | src/d07.rs:47-49 | the sum includes every entry below 100000, is 0 when there is none, and is at most 99999 per entry |
| DirectorySizes.MinAtLeast | src/d07.rs:59-63 | the smallest entry at least `need`, or None exactly when all entries are smaller |
| DirectorySizes.Part2 | src/d07.rs:51-64 | an entry at least (largest - 40000000), and no larger than any other such entry; the largest entry must be at least 40000000 |
| DirectorySizes.Run | src/d07.rs:15-42 | the run fails exactly when some line is neither a command, nor a directory entry, nor starts with a size, whatever the state; a log of commands and directory entries only leaves the table unchanged |
| DirectorySizes.ParseInput | src/d07.rs:11-45 | no table exactly when some line would make the source's `unwrap` panic; a log without file lines gives an empty table |
| TreeGrid.MulIsProduct | src/d08.rs:21-23 | the repeated-addition product equals multiplication |
| TreeGrid.IndexOfInRange | src/d08.rs:21-23 | row * size + col lies inside the square for row, col < size |
| TreeGrid.IndexOfInjective | src/d08.rs:21-23 | different cells have different flat indices |
| TreeGrid.GetNew | src/d08.rs:15-19 | every cell of a new grid holds the initial value |
| TreeGrid.Set | src/d08.rs:29-32 | writing inside the square always succeeds and keeps the grid square |
| TreeGrid.GetSet | src/d08.rs:25-32 | a read after a write returns the written value at that cell and the old value everywhere else |
| TreeGrid.Height | src/d08.rs:45 | a digit's height is its value; the subtraction fails exactly below '0' |
| TreeGrid.ParseSquare | src/d08.rs:37-50 | a square of digit lines parses to the grid whose cell (r, c) is the value of line r's character c |
| TreeGrid.ScanFrom | src/d08.rs:58-98 | a scan marks the tree visible exactly when every tree between it and the edge is shorter |
| TreeGrid.InteriorVisible | src/d08.rs:55-99 | an interior tree is visible exactly when it is taller than all trees in one of the four directions |
| TreeGrid.Part1 | src/d08.rs:52-109 | between 4 * size - 4 and size * size trees are visible, the border ones always |
| TreeGrid.Blocker | src/d08.rs:118-149 | the first tree at least as tall, with all trees before it shorter |
| TreeGrid.ViewFrom | src/d08.rs:116-158 | a viewing distance counts the trees before the first blocker, plus the blocker unless it is at the skipped edge position, and all trees when nothing blocks |
| TreeGrid.MaxFrom | src/d08.rs:162-165 | the running maximum is at least every score and is either the start value or one of the scores |
| TreeGrid.Part2 | src/d08.rs:111-171 | at least every interior cell's score, and either 0 or the score of some interior cell |
| TreeGrid.ParseInput | src/d08.rs:37-50 | no grid for an input without lines, where the source panics; a square of digit lines gives the grid whose cell (r, c) is the value of line r's character c |
| Rope.ParseDirection | src/d09.rs:24-30 | "U", "D", "L" and "R" map to the four directions and nothing else parses |
| Rope.ParseStepRoundTrip | src/d09.rs:20-35 | a printed motion "D n" parses back to the same direction and count |
| Rope.ParseAll | src/d09.rs:20-35 | one motion per line, failing exactly when some line does not parse |
| Rope.Distance | src/d09.rs:46-53 | the distance exceeds 1 exactly when the knots do not touch, and is 0 exactly for equal positions |
| Rope.StepOnce | src/d09.rs:55-62 | exactly one coordinate changes, by one unit in the named direction |
| Rope.UnitsLength | src/d09.rs:71-72 | the unit steps number the sum of the motions' counts |
| Rope.Move1 | src/d09.rs:73-79 | after a unit step the tail touches the head; the tail either stays or jumps to the head's previous position, which is recorded |
| Rope.Run1 | src/d09.rs:71-81 | the visited set only grows, holds the final tail and gains at most one position per unit step |
| Rope.Part1 | src/d09.rs:65-84 | at most one position per unit step, and at least one when there is a step |
| Rope.Follow | src/d09.rs:99-101 | a following knot moves at most one unit per axis and then touches a predecessor at most two units away |
| Rope.PullFrom | src/d09.rs:95-105 | knots before the pull start are unchanged, and once a knot stays put no later knot moves |
| Rope.PullRestores | src/d09.rs:95-105 | pulling a rope with one stretched link makes every link touch again |
| Rope.Move | src/d09.rs:92-106 | after a unit step every pair of consecutive knots touches and the last knot is recorded |
| Rope.Run | src/d09.rs:91-108 | all links touch throughout; the visited set only grows, holds the last knot and gains at most one position per step |
| Rope.Part2 | src/d09.rs:86-111 | at most one position per unit step, and at least one when there is a step |
| Rope.JumpIsFollow | src/d09.rs:76-78 | for a touching pair, jumping to the head's previous position is the same as stepping towards the head |
| Rope.ShortRopeIsTwoKnots | src/d09.rs:65-111 | part 1's rope behaves exactly like part 2's rope with two knots |
| Rope.ParseInput | src/d09.rs:20-35 | one motion per line, each the direction and count its line names; no result exactly when some line does not parse, where the source panics |
| Text.SplitOnceJoin | src/d09.rs:23 | splitting "x c y" at the first `c` gives back x and y when x has no `c` |
| CathodeRay.ParseCommand | src/d10.rs:13-22 | "noop" is exactly Noop; any other line is AddX of the number after its first space |
| CathodeRay.ParseAddX | src/d10.rs:13-22 | "addx n" parses back to AddX(n) |
| CathodeRay.Cycles | src/d10.rs:27-32 | AddX takes 2 cycles and Noop 1 |
| CathodeRay.CountBelow | src/d10.rs:24 | the number of sample cycles below a count, with the next sample cycle at or above it |
| CathodeRay.CheckedTarget | src/d10.rs:50-63 | when a sample is taken, `checked` is below 6, a previous command exists, and the indexed sample cycle is the one just reached or jumped over by an addx |
| CathodeRay.SignalStep | src/d10.rs:50-73 | one command keeps the sample counter equal to the sample cycles passed, adds the command's cycles and argument, and takes at most one sample |
| CathodeRay.SignalRun | src/d10.rs:39-77 | part 1 never indexes out of range and takes at most six samples |
| CathodeRay.Completed | src/d10.rs:88-108 | the longest prefix of commands whose cycles do not exceed the given 0-based cycle |
| CathodeRay.CursorIsCompletedSum | src/d10.rs:88-108 | the cursor at a cycle is 1 plus the addx arguments of the commands completed by then |
| CathodeRay.DrawFrom | src/d10.rs:84-113 | drawing from a cycle on keeps the screen's shape and leaves the pixels of earlier cycles alone |
| CathodeRay.DrawnPixels | src/d10.rs:84-113 | pixel (row, col) is set by cycle row * 40 + col only, and is lit when the sprite covers it |
| CathodeRay.PixelCycle | src/d10.rs:85-86 | cycle row * 40 + col has row `row` and column `col` |
| CathodeRay.PictureLit | src/d10.rs:84-112 | a pixel of the picture is lit exactly when the column is within one of the cursor at that pixel's cycle |
| CathodeRay.ParseAll | src/d10.rs:35-37 | one command per line, in order; no result exactly when some line does not parse, where the source panics |
| CathodeRay.ParseInput | src/d10.rs:35-37 | the commands of the text's lines, one per line; no result exactly when some line does not parse |
| CathodeRay.XDuringAt | src/d10.rs:39-77 | X during 1-based cycle t is 1 plus the addx arguments of the commands finished before t, i.e. X is changed only after an addx's second cycle |
| CathodeRay.RunAgrees | src/d10.rs:39-77 | the loop's running signal, after each command, is the strength summed over the sample cycles it has checked, each sample being the cycle times X during that cycle |
| CathodeRay.Part1 | src/d10.rs:39-77 | 0 for no commands; otherwise the sum of cycle times X-during-that-cycle over the sample cycles 20, 60, ..., 220 that are at most the number of cycles run before the last command (samples inside the last command are not taken) |
| CathodeRay.Part2 | src/d10.rs:79-120 | the answer is 0; the printed picture has pixel (row, col) lit exactly when `col` is within one of the cursor at cycle row * 40 + col |
| MonkeyBusiness.ApplyCongruent | src/d11.rs:118-122 | addition, multiplication and squaring each map numbers equal modulo n to numbers equal modulo n |
| MonkeyBusiness.ModDivisor | src/d11.rs:147-168 | numbers equal modulo the common divisor are equal modulo each monkey's divisor, so the divisibility test is unchanged by the reduction |
| MonkeyBusiness.Target | src/d11.rs:126-130 | the item goes to the true target exactly when the worry level is divisible, otherwise to the false target |
| MonkeyBusiness.Throw | src/d11.rs:115-132 | the front item leaves the thrower's queue and is appended to the target's queue with its new worry level; every other queue is unchanged |
| MonkeyBusiness.ThrowKeepsItems | src/d11.rs:115-132 | a throw neither creates nor loses an item |
| MonkeyBusiness.Turn | src/d11.rs:113-135 | after its turn a monkey holds nothing, its count grew by the number of items it held, no other count changed, and the item total is kept |
| MonkeyBusiness.Round | src/d11.rs:111-137 | a round keeps the number of monkeys and items and never lowers a count |
| MonkeyBusiness.Rounds | src/d11.rs:111-137 | any number of rounds keeps the number of monkeys and items and never lowers a count |
| MonkeyBusiness.ThrowCongruent | src/d11.rs:152-170 | a throw that passes the remainder and one that passes the full worry level pick the same target and leave queues equal modulo the common divisor |
| MonkeyBusiness.TurnCongruent | src/d11.rs:150-172 | a reduced and an unreduced turn from congruent queues give the same counts and congruent queues |
| MonkeyBusiness.RoundCongruent | src/d11.rs:149-173 | a reduced and an unreduced round from congruent queues give the same counts and congruent queues |
| MonkeyBusiness.ReductionKeepsCounts | src/d11.rs:147-174 | with a modulus every divisor divides, any number of reduced rounds give exactly the counts of the unreduced rounds |
| MonkeyBusiness.CommonDivisorDividesAll | src/d11.rs:147 | the product of the divisors is positive and a multiple of every divisor |
| MonkeyBusiness.Part1 | src/d11.rs:107-141 | after twenty rounds with worry divided by three, the answer is the largest product of two different monkeys' inspection counts: no pair beats it and some pair reaches it |
| MonkeyBusiness.Part2 | src/d11.rs:143-179 | the largest product of two different monkeys' counts after ten thousand rounds with unbounded worry levels, although the run keeps only remainders |
| MonkeyBusiness.Part2Unreduced | src/d11.rs:143-179 | part 2's answer equals the answer of ten thousand rounds with unbounded worry levels |
| MonkeyBusiness.BusinessIsBest | src/d11.rs:138-140 | the product of the two largest counts is at least the product of any two different monkeys' counts |
| MonkeyBusiness.BusinessIsAchieved | src/d11.rs:138-140 | the answer is the product of two different monkeys' counts |
| MonkeyBusiness.ParseOperation | src/d11.rs:16-32 | a '+' anywhere gives addition; otherwise a line ending in "old" gives squaring and any other line multiplication |
| MonkeyBusiness.ParseOperationLine | src/d11.rs:16-32 | each of the three operation lines reads back as its operation |
| MonkeyBusiness.ParseInput | src/d11.rs:48-105 | a parsed input has one rule and one item queue per blank-line-separated block |
| Text.WordsAppendWord | src/d11.rs:21 | the words of a line ending in a space and a word are the words before it followed by that word |
| Text.LastWordAfterSpace | src/d11.rs:21 | the last whitespace-separated word of such a line is that word |
| Text.ParseNats | src/d04.rs:13-20 | a list of pieces parses exactly when every piece is a number, one number per piece |
| HillClimb.ParseInput | src/d12.rs:54-61 | the map is the input's lines joined, and the column count is the length of the first line; an input without lines has no maze |
| HillClimb.Keep | src/d12.rs:23-40 | the kept candidates are exactly the admitted ones: in the map, not the start, and at most one level up |
| HillClimb.NeighborsAsWritten | src/d12.rs:17-43 | a cell is returned exactly when it is one of index-1, index+1, index-cols, index+cols and is admitted |
| HillClimb.RowWrapAsWritten | src/d12.rs:18-24 | in the map "ab" over "bc" the last cell of the first row reaches the first cell of the second, which is not adjacent to it |
| HillClimb.Neighbors | src/d12.rs:17-43 | with the row wrap removed, a cell is returned exactly when it is a same-row left/right or an up/down candidate and is admitted |
| HillClimb.CandidatesAdjacent | src/d12.rs:18-24 | every corrected candidate inside the map is a grid neighbour: same row and next column, or same column and next row |
| HillClimb.NeighborsAreSteps | src/d12.rs:25-39 | every neighbour lies inside the map, is not 'S', is grid-adjacent, and is at most one level above with 'S' read as 'a' and 'E' as 'z' |
| HillClimb.Unvisited | src/d12.rs:76-81 | the filtered neighbours are exactly those with no entry in the visited table |
| HillClimb.Insert | src/d12.rs:83-86 | the table only grows, every new entry has the expanded node as parent, and every listed cell ends up in the table |
| HillClimb.AppendKeepsTree | src/d12.rs:83-85 | entering an unvisited neighbour of a visited node keeps the table a tree rooted at the start |
| HillClimb.InsertKeepsTree | src/d12.rs:83-86 | entering all unvisited neighbours keeps the table a tree: distinct cells, each non-start cell's parent entered earlier and reaching it |
| HillClimb.TableBound | src/d12.rs:65 | a table of distinct map cells has at most as many entries as the map has cells |
| HillClimb.Expand | src/d12.rs:76-86 | expanding a node keeps the tree, grows the table whenever a new cell was found, and enters every cell it queues |
| HillClimb.Moves | src/d12.rs:17-43 | the search's steps are `reachable_neighbors` as written, or with the row wrap removed; either way every step is admitted |
| HillClimb.NeighborsWithinAsWritten | src/d12.rs:17-43 | every move of the corrected rule is also a move as written |
| HillClimb.Explore | src/d12.rs:64-87 | the search, as written or corrected, ends with a tree rooted at the start that extends the table it began with |
| HillClimb.Walk | src/d12.rs:89-98 | following parents back from an entry leads to the start: the walk begins at the start and ends at the entry |
| HillClimb.WalkIsPath | src/d12.rs:89-98 | every step of that walk is a move of the rule the search used: as written (with the row wrap) or corrected |
| HillClimb.FindBfs | src/d12.rs:63-101 | a non-zero answer is the number of moves on a path from the start to the finish under the rule searched; with `corrected` false that is `reachable_neighbors` as written, for any column count including 0 |
| HillClimb.CorrectedPathAsWritten | src/d12.rs:17-43 | a path under the corrected rule is also a path as written |
| HillClimb.Part1 | src/d12.rs:103-105 | an answer exists exactly when the map has an 'S' and an 'E'; a non-zero answer is the length of a path from the first 'S' to the first 'E'; with `corrected` false the search is the source's, row wrap included, and is defined for a map of 0 columns as the source is |
| HillClimb.NoColumnsAsWritten | src/d12.rs:17-43 | an input whose first line is empty parses to a map of 0 columns, and the source's search on it still answers: for "\nSbE\n" part 1 is 0 |
| HillClimb.Find | src/d12.rs:45-51 | the position found holds the character and no earlier position does; none exactly when the character is absent |
| HillClimb.Lowest | src/d12.rs:108-113 | the collected starts are exactly the positions holding 'a' |
| HillClimb.MinNonZero | src/d12.rs:115-120 | the result is a non-zero element no larger than any other non-zero element, and is absent exactly when all are zero |
| HillClimb.Part2IsBest | src/d12.rs:107-121 | part 2 is the result of the search from some 'a', no non-zero search from an 'a' is shorter, and it is absent exactly when every such search gives 0; with `corrected` false every search is the source's, row wrap included, for any column count |
| HillClimb.Part2 | src/d12.rs:107-121 | no answer when the map has no 'E'; an answer is never 0, because the zero searches are dropped before the minimum |
| FallingSand.ParseI16 | src/d14.rs:17 | a parsed coordinate lies in the 16-bit signed range |
| FallingSand.ParseShowPoint | src/d14.rs:16-17 | a point printed as "x,y" within the 16-bit range reads back as itself |
| FallingSand.ParseInput | src/d14.rs:11-22 | a parsed input has one path per line |
| FallingSand.SegmentContents | src/d14.rs:29-48 | an axis-aligned segment covers exactly the cells between its two corners, both included; a zero-length one covers its single cell |
| FallingSand.PathBlocksContents | src/d14.rs:28-49 | a path covers exactly the cells of its consecutive-corner segments |
| FallingSand.InitBlocksContents | src/d14.rs:24-53 | the rock is exactly the cells covered by some path |
| FallingSand.Deepest | src/d14.rs:56-61 | the abyss depth is at least 0 and at least the y of every corner |
| FallingSand.Cone | src/d14.rs:66-91 | the cells a grain from the source can reach down to a depth form a finite set |
| FallingSand.Fall | src/d14.rs:67-89 | a grain that rests has all three cells below it taken and lies no deeper than the abyss; a grain that moved rests on a free cell |
| FallingSand.FreeShrinks | src/d14.rs:89 | resting on a free cell of the cone reduces the free cells of the cone |
| FallingSand.Pour | src/d14.rs:63-94 | the blocks only grow, the growth equals the number of grains at rest, every new grain lies in the source's cone with all three cells below taken, and the loop ends when the next grain falls past the lowest rock; no result when a grain rests on the source, where the source loops forever |
| FallingSand.Part1 | src/d14.rs:55-95 | the answer is the size of a set of grains, disjoint from the rock, each in the source's cone with all three cells below taken, after which the next grain falls past the lowest rock; no answer only when some grain would rest on the source |
| FallingSand.FallToFloor | src/d14.rs:113-139 | a grain rests on the floor row or with all three cells below taken; a grain that moved rests on a free cell |
| FallingSand.PourToFloor | src/d14.rs:105-148 | the blocks only grow, the source ends covered, the growth is at most the number of grains poured, and every new grain lies in the cone and rests on the floor or with all three cells below taken |
| FallingSand.Part2 | src/d14.rs:97-153 | the answer is the size of a set of grains, disjoint from the rock, that covers the source, each in the cone and resting on the floor two below the lowest rock or with all three cells below taken; it is at most the number of grains poured, and exactly that number when the source was free of rock |
| FallingSand.Growth | src/d14.rs:105-153 | the blocks a pour onto the floor adds are at most the grains poured, exactly that many while the source was free of rock, and form such a set of grains |
| FallingSand.ExactWhenFree | src/d14.rs:121-147 | while the source is free of rock, each grain adds exactly one block |
| SensorCoverage.ParseLine | src/d15.rs:14-22 | a parsed line has at least the ten words whose positions the source indexes |
| SensorCoverage.ParseInput | src/d15.rs:10-25 | one sensor/beacon pair per input line, or nothing where a slice or parse panics |
| SensorCoverage.ParseShowLine | src/d15.rs:11-22 | the puzzle's sensor line reads back as exactly its sensor and beacon coordinates |
| SensorCoverage.CoordDistIsAbs | src/d15.rs:27-33 | `coord_dist` is the absolute difference: non-negative, zero only for equal inputs, symmetric |
| SensorCoverage.ToSensor | src/d15.rs:43-44 | a sensor's radius is the Manhattan distance to its beacon, never negative |
| SensorCoverage.ToSensors | src/d15.rs:72-76 | one sensor per parsed pair, in input order |
| SensorCoverage.RowInterval | src/d15.rs:46-52 | the scan over `sy - d ..= sy + d` yields an interval for the row exactly when the row is within the radius |
| SensorCoverage.RowIntervalCovers | src/d15.rs:46-52 | a cell of the row lies in the sensor's interval if and only if the sensor covers it |
| SensorCoverage.Span | src/d15.rs:57-61 | the inserted cells of `from..=to` are exactly the numbers between the bounds |
| SensorCoverage.CellsCovered | src/d15.rs:41-61 | the collected cells of the row are exactly the cells some sensor covers |
| SensorCoverage.CellsOfRow | src/d15.rs:56-61 | a column is in the set of cells built from the row's intervals exactly when some sensor covers it on that row, so the set is empty exactly when no sensor reaches the row |
| SensorCoverage.Part1 | src/d15.rs:35-64 | the answer is one less than the number of columns some sensor covers on the row, and it is absent exactly when no sensor reaches the row, where the unsigned subtraction underflows |
| SensorCoverage.FirstCovering | src/d15.rs:81-89 | the first sensor in order whose radius reaches the cell, or none exactly when no sensor does |
| SensorCoverage.JumpCovers | src/d15.rs:82-87 | the jump target lies strictly past the current cell and every cell skipped on the row is covered by that sensor |
| SensorCoverage.ScanRow | src/d15.rs:79-91 | a cell found on a row lies within the limits and no sensor covers it |
| SensorCoverage.ScanRowSkipsCovered | src/d15.rs:80-89 | every cell of the row before the one found, or all of it when none is found, is covered |
| SensorCoverage.Scan | src/d15.rs:78-92 | a found cell lies in the search square and no sensor covers it |
| SensorCoverage.ScanIsFirst | src/d15.rs:78-92 | every cell of the square before the found one in row order is covered, and all of it when none is found |
| SensorCoverage.Part2 | src/d15.rs:66-95 | the tuning frequency `x * 4000000 + y` of a cell in the square that no sensor covers |
| ValvePressure.TrimComma | src/d16.rs:30-36 | a tunnel word loses one trailing comma if it has one and is otherwise unchanged |
| ValvePressure.ParseRate | src/d16.rs:20-26 | a rate is read only from a word with the `rate=` prefix and the `;` suffix |
| ValvePressure.ParseRateRoundTrip | src/d16.rs:20-26 | printing `rate=N;` and reading it back gives N |
| ValvePressure.ParseValve | src/d16.rs:16-43 | a line parses exactly when it has five words and the fifth is `rate=N;` with N a number; the name is the second word, the rate is N, and the tunnels are the words from the tenth on, each less a trailing comma |
| ValvePressure.ParseValveRoundTrip | src/d16.rs:16-43 | printing a valve's line as the puzzle does, commas after all tunnels but the last, and parsing it back gives the valve |
| ValvePressure.ParseInput | src/d16.rs:14-45 | one valve per input line |
| ValvePressure.VolcanoMap | src/d16.rs:82 | the map is keyed by exactly the valve names, the last valve of a name giving its tunnels |
| ValvePressure.PushedContents | src/d16.rs:62-68 | the pushed entries are exactly the tunnels other than the one leading back, each marked with the popped valve |
| ValvePressure.SuccessorsContents | src/d16.rs:60-68 | a popped entry pushes exactly the tunnels of its valve that do not lead straight back |
| ValvePressure.NextLayerContents | src/d16.rs:52-69 | the entries one hop further are exactly those pushed by some entry of the current hop count |
| ValvePressure.LayerSound | src/d16.rs:48-68 | every queue entry at hop count d ends a walk of d tunnels from the start, reached from the valve it names |
| ValvePressure.LayerComplete | src/d16.rs:48-68 | every walk that never turns straight back is in the queue at the hop count of its length |
| ValvePressure.DropBacktracks | src/d16.rs:62-65 | a walk between two valves can be shortened to one that never turns straight back |
| ValvePressure.SearchFromLayers | src/d16.rs:52-58 | the search stops at the first hop count whose entries include the target; every hop count before it had entries but not the target |
| ValvePressure.WalkReaches | src/d16.rs:47-72 | a walk to the target puts the target in the queue at a hop count no larger than the walk |
| ValvePressure.PopLayerMeaning | src/d16.rs:52-60 | popping a layer passes it exactly when no entry is the target and every entry has a line; meets a missing valve exactly when one comes before any entry for the target; stops at the target only when the layer holds it |
| ValvePressure.ShortestDistance | src/d16.rs:47-72 | no answer exactly when the queue pops a valve with no line before the target, within the hop bound |
| ValvePressure.LayerInGraph | src/d16.rs:60-68 | when every tunnel leads to a valve of the map, every queue entry names a valve of the map |
| ValvePressure.ClosedNeverPanics | src/d16.rs:47-72 | when every tunnel leads to a valve of the map, the search from a valve of the map never panics |
| ValvePressure.ClosedTableNeverPanics | src/d16.rs:80-97 | when every tunnel leads to a valve of the input, building the table never panics |
| ValvePressure.DistanceTableEntry | src/d16.rs:84-94 | between two different valves the table holds the search's answer |
| ValvePressure.SearchMeaning | src/d16.rs:47-72 | a found hop count is the length of a shortest walk to the target; an emptied queue means there is no walk at all |
| ValvePressure.DistanceTableDiagonal | src/d16.rs:84-94 | the table has an entry for every ordered pair of valves, with 0 from a valve to itself |
| ValvePressure.DistanceTableShortest | src/d16.rs:84-94 | between two different valves the table holds the length of a shortest walk through the tunnels |
| ValvePressure.ProductiveValves | src/d16.rs:99-105 | exactly the name and flow of every valve whose flow rate is positive |
| ValvePressure.NewSystemReady | src/d16.rs:80-97 | the table built from the input answers `min_distance` between any productive valves and from any valve of the input |
| ValvePressure.ReleaseOpensOnce | src/d16.rs:118-123 | an admissible opening order never opens a seen valve and opens each valve at most once |
| ValvePressure.PressureFromCovers | src/d16.rs:118-131 | the best over the productive valves is at least each admissible candidate `(30 - t') * flow` plus the best after it |
| ValvePressure.PressureIsBest | src/d16.rs:111-134 | no admissible opening order within 30 minutes releases more pressure than `highest_pressure` |
| ValvePressure.PressureIsAchieved | src/d16.rs:111-134 | some admissible opening order releases exactly `highest_pressure`, 0 when no valve can be opened in time |
| ValvePressure.PressureFromAchieved | src/d16.rs:116-133 | the best over the valves from a given index on is released by some opening order starting at or after that index |
| ValvePressure.PressureOptimal | src/d16.rs:111-134 | `highest_pressure` is released by some opening order and by no order less |
| ValvePressure.Part1 | src/d16.rs:136-139 | no answer exactly when building the table panics or AA has no line while some valve is productive; always an answer when every tunnel leads to a valve of the input and AA is there; an answer is released by some opening order from AA within 30 minutes and no such order releases more |
| ValvePressure.UndeclaredTunnel | src/d16.rs:47-70 | with a tunnel from AA to a valve ZZ that has no line, the map is not closed, yet the search never pops ZZ and part 1 answers 140 |
| ValvePressure.ExampleTable | src/d16.rs:80-97 | for that input the table never panics and holds 1 hop from AA to BB and 0 from BB to itself |
| ValvePressure.ExamplePressure | src/d16.rs:111-134 | with BB the only productive valve, of flow 5 and one hop from AA, the best release from AA is 140 |
| ValvePressure.ExampleSearch | src/d16.rs:47-70 | in a two-valve map whose start's first tunnel is the target, the search does not panic and finds the target at one hop |
| ValvePressure.ReleaseWithHelperOpensOnce | src/d16.rs:155-161 | with the shared visited set, the two never open the same valve twice nor a visited one |
| ValvePressure.PressureWithHelperFromCovers | src/d16.rs:155-172 | the best is at least each admissible candidate of the agent whose turn it is, plus the best after it with the turn passed |
| ValvePressure.PressureWithHelperIsBest | src/d16.rs:142-176 | no turn-taking opening order within 26 minutes releases more than `highest_pressure_with_helper` |
| ValvePressure.PressureWithHelperIsAchieved | src/d16.rs:142-176 | some turn-taking opening order releases exactly `highest_pressure_with_helper` |
| ValvePressure.PressureWithHelperFromAchieved | src/d16.rs:153-175 | the best from a given index on is released by some turn-taking order |
| ValvePressure.PressureWithHelperOptimal | src/d16.rs:142-176 | `highest_pressure_with_helper` is released by some turn-taking order and by no order less |
| ValvePressure.Part2 | src/d16.rs:178-181 | no answer exactly when part 1 has none, and always one on a closed map holding AA; both from valve AA at minute 0, my turn first, an answer is released by some turn-taking order within 26 minutes and no such order releases more |
| PyroclasticFlow.FromStepPeriod | src/d17.rs:24-33 | the shapes repeat every five steps in the order minus, plus, L, I, square |
| PyroclasticFlow.TakenShape | src/d17.rs:53-73 | each shape has 4 or 5 distinct cells inside its width-by-height box, reaching its top row |
| PyroclasticFlow.LeftOfIsFront | src/d17.rs:75-85 | the cells checked before a push left are exactly those the shape would newly cover one column left |
| PyroclasticFlow.RightOfIsFront | src/d17.rs:87-97 | the cells checked before a push right are exactly those the shape would newly cover one column right |
| PyroclasticFlow.BelowIsFront | src/d17.rs:99-107 | the cells checked before a fall are exactly those the shape would newly cover one row down |
| PyroclasticFlow.WellIncludes | src/d17.rs:110-112 | true exactly when some listed cell is occupied |
| PyroclasticFlow.FloorContents | src/d17.rs:128-131 | the initial well is exactly the seven floor cells at height -1 |
| PyroclasticFlow.InitInv | src/d17.rs:120-131 | the first shape spawns two from the left wall, three above the floor, clear of rock |
| PyroclasticFlow.PushKeepsFit | src/d17.rs:140-156 | a jet push never moves a shape into a wall or into rock |
| PyroclasticFlow.FloorStops | src/d17.rs:128-131 | a shape on the bottom row always finds the floor below it |
| PyroclasticFlow.FallKeepsFit | src/d17.rs:158-173 | when nothing is below a shape, falling one row keeps it clear of rock and above the floor |
| PyroclasticFlow.SettleKeepsInv | src/d17.rs:158-166 | adding a resting shape keeps every rock inside the well and below the new highest point, which some rock reaches |
| PyroclasticFlow.StepKeepsInv | src/d17.rs:135-173 | one push-and-fall keeps the falling shape clear of rock and the highest point equal to the top of the rock |
| PyroclasticFlow.RestsWhenBlocked | src/d17.rs:158-173 | a shape comes to rest exactly when one row lower it would overlap rock or the floor |
| PyroclasticFlow.Step | src/d17.rs:136-138 | the jet index steps round the jet pattern cyclically |
| PyroclasticFlow.Run | src/d17.rs:135-174 | the loop ends with exactly the requested number of shapes at rest and the well still consistent |
| PyroclasticFlow.RunRaises | src/d17.rs:162 | the highest point never goes down while shapes fall |
| PyroclasticFlow.Part1 | src/d17.rs:118-177 | after 2022 shapes have come to rest, every rock lies inside the well and the answer is the top of the highest rock, which some rock reaches |
| PyroclasticFlow.SkipAsWrittenPassesStop | src/d17.rs:222-224 | the skip never passes the shape count, and lands exactly on it when the remainder is a whole number of cycles |
| PyroclasticFlow.SkipAsWrittenExample | src/d17.rs:222-262 | the arithmetic of the skip on one instance: a 1000-shape cycle found after 2000 shapes puts the counter exactly on a trillion, one short of what the next rest makes it (the loop itself is in `SkipOntoCountDiverges`) |
| PyroclasticFlow.AtWrap | src/d17.rs:208-230 | each pass through the jets is recorded; a pass that repeats the previous one skips whole cycles without passing the count; `None` on a zero-shape cycle |
| PyroclasticFlow.Run2 | src/d17.rs:203-266 | the loop ends with exactly a trillion shapes at rest or skipped over |
| PyroclasticFlow.WrapAsWritten | src/d17.rs:207-231 | the bookkeeping at the end of a pass is the corrected one while the counter has not passed the count; past it, a repeated pass panics on the underflow of `BLOCK_COUNT - blocks_fallen` |
| PyroclasticFlow.TurnAsWritten | src/d17.rs:202-264 | one turn of the loop as written keeps the well consistent, never lowers the counter, adds at most one resting shape, and at a wrap agrees with the corrected bookkeeping while the count is not passed |
| PyroclasticFlow.StepCounts | src/d17.rs:249-263 | one jet and fall adds at most one shape to the count |
| PyroclasticFlow.Run2AsWritten | src/d17.rs:202-264 | when the loop as written answers, the counter stands exactly at the requested count and the bookkeeping is consistent |
| PyroclasticFlow.PastCountNeverStops | src/d17.rs:222-260 | once the counter has reached the count, the loop as written never answers |
| PyroclasticFlow.TurnPastCount | src/d17.rs:222-260 | a turn that leaves the counter at or past the count before its jet leaves the loop as written without an answer |
| PyroclasticFlow.SkipOntoCountStops | src/d17.rs:218-226 | when a skip lands exactly on the count, the corrected loop answers |
| PyroclasticFlow.SkipOntoCountMissed | src/d17.rs:218-260 | when a skip lands exactly on the count, the loop as written never answers, however many turns it is given |
| PyroclasticFlow.SkipOntoCountDiverges | src/d17.rs:218-260 | the two loops part exactly there: the corrected one answers and the one as written does not |
| PyroclasticFlow.Part2 | src/d17.rs:179-276 | answers exactly when the corrected loop reaches a trillion shapes (a zero-shape repeated pass gives no answer); when no cycle was skipped, the answer is the height the loop reached |
| BoilingBoulders.ParseCubes | src/d18.rs:10-20 | a parsed list has one cube per line, each line read as its first three comma-separated 64-bit integers |
| BoilingBoulders.ParseInput | src/d18.rs:10-20 | one cube per line of the text; no result exactly when some line's first three comma-separated pieces are not all 64-bit integers, where the source panics |
| BoilingBoulders.ParseInputShown | src/d18.rs:10-20 | cubes within the 64-bit range written one "x,y,z" per line read back as the same list |
| BoilingBoulders.ParseShowCube | src/d18.rs:12-17 | a cube written as "x,y,z" reads back as the same cube |
| BoilingBoulders.NeighboursAtDistanceOne | src/d18.rs:29-36 | the six face neighbours are distinct and are exactly the cubes at Manhattan distance one |
| BoilingBoulders.NeighbourBack | src/d18.rs:29-36 | stepping through a face and back through the opposite face returns to the cube |
| BoilingBoulders.CountOutIsSize | src/d18.rs:29-40 | the faces counted for a cube are the number of distinct neighbours outside the droplet |
| BoilingBoulders.ExposedBound | src/d18.rs:22-44 | each cube adds the size of its set of neighbours outside the droplet, so the total is at most six per cube |
| BoilingBoulders.Part1 | src/d18.rs:22-44 | the surface area is at most six times the number of cubes, and exactly six times it when no two cubes share a face |
| BoilingBoulders.CountOutNone | src/d18.rs:29-40 | a cube none of whose neighbours is in the droplet adds all its faces |
| BoilingBoulders.AllOpen | src/d18.rs:22-44 | cubes with no neighbour in the droplet expose six faces each |
| BoilingBoulders.IsolatedExposed | src/d18.rs:22-44 | when no two cubes are at distance one, every face of every cube is exposed |
| BoilingBoulders.MinOf | src/d18.rs:49-59 | the running minimum is at most the seed and every value, and equals one of them |
| BoilingBoulders.MaxOf | src/d18.rs:49-59 | the running maximum is at least the seed and every value, and equals one of them |
| BoilingBoulders.BoundsContain | src/d18.rs:49-59 | every cube lies between the per-axis bounds |
| BoilingBoulders.Visit | src/d18.rs:66-91 | a neighbour is flooded and queued only when it is inside the grown box, not a cube, and neither flooded nor queued; every air neighbour ends up flooded; nothing is queued twice |
| BoilingBoulders.ReachStep | src/d18.rs:66-91 | an air cell next to a cell reached in k steps is reached in k + 1 |
| BoilingBoulders.StepFloodedOk | src/d18.rs:83-90 | cells flooded while visiting a popped cell are air reachable from the start |
| BoilingBoulders.StepClosed | src/d18.rs:63-92 | after a visit, every cell no longer queued has all its air neighbours flooded |
| BoilingBoulders.FloodStep | src/d18.rs:63-92 | one pop and visit keeps the flood's invariant and either floods a new cell of the box or shortens the queue |
| BoilingBoulders.Flood | src/d18.rs:61-92 | the flood ends with an empty queue, every flooded cell air reachable from the start, and every popped cell closed |
| BoilingBoulders.ReachFlooded | src/d18.rs:61-92 | with the queue empty, every cell reachable from the start through air is flooded or is the start |
| BoilingBoulders.StartFlooded | src/d18.rs:62-90 | an air start at the low corner is flooded back from the cell on its left |
| BoilingBoulders.FloodIsReach | src/d18.rs:61-92 | the flood is exactly the set of air cells in the grown box reachable from its low corner |
| BoilingBoulders.FloodedMeaning | src/d18.rs:46-92 | the flood never holds a cube of the droplet, stays inside the grown box, and holds exactly the air reachable from the low corner |
| BoilingBoulders.TouchingAtMostExposed | src/d18.rs:94-112 | counting faces against flooded cells never exceeds counting faces against non-cubes |
| BoilingBoulders.FloodedIsOutside | src/d18.rs:46-92 | the flooded set equals the air of the grown box reachable from its low corner, and is disjoint from the droplet |
| BoilingBoulders.Part2 | src/d18.rs:46-112 | the exterior surface area counts the faces touching the air reachable from outside, and is at most the whole surface area |
| NotEnoughMinerals.AddTo | src/d19.rs:94-101 | adding to one material's stock raises exactly that material by the amount and leaves the other three unchanged |
| NotEnoughMinerals.ParseShowBlueprint | src/d19.rs:34-49 | reading back a blueprint line printed in the puzzle's wording gives the same four robot costs (words 6, 12, 18, 21, 27 and 30) |
| NotEnoughMinerals.BlueprintWordsAreWords | src/d19.rs:37 | every piece of the printed line is a non-empty run without blanks, so splitting on whitespace finds exactly those pieces |
| NotEnoughMinerals.ParseInput | src/d19.rs:70-72 | a parsed input has one blueprint per line |
| NotEnoughMinerals.RobotsForGeode | src/d19.rs:52-67 | the ore cap is the largest ore cost of the four robots and is one of them; no robot costs more ore, clay or obsidian than the caps |
| NotEnoughMinerals.MineAll | src/d19.rs:103-117 | one minute of mining adds each robot count to its material's stock and changes nothing else |
| NotEnoughMinerals.CanAffordCovers | src/d19.rs:119-134 | a robot is affordable exactly when the stock covers its whole cost, material by material |
| NotEnoughMinerals.AffordAfterMining | src/d19.rs:177-182 | what the factory can afford before mining it can still afford after mining, so building after `mine_all` never underflows |
| NotEnoughMinerals.BuildRobot | src/d19.rs:136-152 | building takes exactly the robot's cost out of the stock and adds one robot of that kind, leaving the other robot counts and the clock alone |
| NotEnoughMinerals.StepAndBuild | src/d19.rs:177-185 | a step uses one minute; without a build the stock grows by the robots; with a build the stock grows by the robots minus the cost and that robot count grows by one |
| NotEnoughMinerals.FreeRunClosed | src/d19.rs:158-163 | the free-run bound equals the stock plus robots times minutes plus minutes times minutes-less-one over two, the closed form the source computes |
| NotEnoughMinerals.MaxNoCostIsFreeRun | src/d19.rs:158-163 | `max_no_cost_geodes` is the count reached by building a geode robot every remaining minute at no cost |
| NotEnoughMinerals.StepFreeRun | src/d19.rs:158-163 | no step, with or without a build, raises the free-run bound of what follows above the current one |
| NotEnoughMinerals.PlanBound | src/d19.rs:158-163 | no affordable build order over the remaining minutes opens more geodes than the free-run bound |
| NotEnoughMinerals.NewFactoryBound | src/d19.rs:82-88 | from a new factory with one ore robot, no build order opens more than minutes times minutes-less-one over two geodes |
| NotEnoughMinerals.Actions | src/d19.rs:221-249 | the pushed choices always include waiting, and every robot choice is affordable and, but for geode robots, below its cap |
| NotEnoughMinerals.ActionsKeepCaps | src/d19.rs:193-240 | from a factory within the caps, every pushed choice stays affordable after mining and keeps the robot counts within the caps |
| NotEnoughMinerals.MaxedScore | src/d19.rs:165-175 | whenever the corrected shortcut scores a factory, the shortcut as written gives the same score |
| NotEnoughMinerals.SearchBound | src/d19.rs:210-212 | the value the search gives a factory never exceeds its free-run bound, so dropping factories whose bound cannot beat the best loses nothing |
| NotEnoughMinerals.SearchAllCovers | src/d19.rs:221-249 | the value of a factory's choices is at least that of each choice |
| NotEnoughMinerals.SearchAchieved | src/d19.rs:188-253 | with the corrected shortcut, the value the search gives a factory is reached by some affordable build order over the remaining minutes |
| NotEnoughMinerals.GeodeEveryMinute | src/d19.rs:165-175 | a factory that can pay for a geode robot every minute reaches the free-run bound, which is when the shortcut's score is real |
| NotEnoughMinerals.Dfs | src/d19.rs:197-250 | the stack search with the repeated-state check and the best-so-far cut-off returns the larger of the best so far and the factory's search value |
| NotEnoughMinerals.DfsAll | src/d19.rs:221-249 | searching the pushed choices in pop order returns the larger of the best so far and the best choice's value, and every state it adds is below the factory's minute |
| NotEnoughMinerals.BestGeodeCount | src/d19.rs:188-253 | `best_geode_count` equals the search value of a new factory: the cut-offs and the repeated-state check change nothing |
| NotEnoughMinerals.BestGeodeCountAchieved | src/d19.rs:188-253 | the corrected geode count is reached by an affordable build order from a new factory |
| NotEnoughMinerals.QualitySum | src/d19.rs:258-268 | the sum over the blueprints of the 1-based id times the cut-off search's geode count equals the same sum over the plain search's counts |
| NotEnoughMinerals.Part1 | src/d19.rs:255-269 | part 1 is the sum of id times geodes over 24 minutes, each count the plain search's value; with `corrected` false that is the source's search, shortcut as written |
| NotEnoughMinerals.GeodeProduct | src/d19.rs:274-280 | the product of the cut-off search's geode counts equals the product of the plain search's counts |
| NotEnoughMinerals.ProductCons | src/d19.rs:280 | the product of a sequence with a value put in front is that value times the product of the rest |
| NotEnoughMinerals.Part2 | src/d19.rs:271-281 | part 2 is the product of the geode counts over 32 minutes of the first three blueprints, or of all when there are fewer; with `corrected` false the search is the source's |
| NotEnoughMinerals.CheapSixMinutes | src/d19.rs:82-88 | with every cost one, no build order opens a geode within six minutes |
| NotEnoughMinerals.PushesScores | src/d19.rs:221-249 | a factory's value is at least that of any factory the search pushes from it |
| NotEnoughMinerals.AsWrittenReachesOverclaim | src/d19.rs:165-175 | with every cost one, the search as written gives a new six-minute factory a value of at least one |
| NotEnoughMinerals.MaxedScoreAsWrittenOverclaims | src/d19.rs:165-175 | with every cost one over six minutes, the count as written is at least one, though no build order opens a geode |
| NotEnoughMinerals.CorrectedFindsNoGeode | src/d19.rs:165-175 | with every cost one over six minutes, the count with the corrected shortcut is zero |
| GrovePositioning.TaggedEntry | src/d20.rs:17-25 | every entry of a rearranged buffer is the input number at its original index |
| GrovePositioning.Locate | src/d20.rs:32-36 | the search returns the first position whose entry started at the index, and nothing exactly when no entry did |
| GrovePositioning.FindStart | src/d20.rs:32-36 | the linear search stops at the position the first-match definition names |
| GrovePositioning.Target | src/d20.rs:38-39 | the new index lies in [0, len - 1), which needs at least two numbers |
| GrovePositioning.Move | src/d20.rs:31-48 | a move keeps the length, and fails exactly when no entry started at the index |
| GrovePositioning.MovePermutes | src/d20.rs:46-47 | removing and reinserting only rearranges the buffer: the multiset of entries is unchanged |
| GrovePositioning.MoveKeepsOthers | src/d20.rs:46-47 | the moved entry lands on its target, and without it the buffer is what it was before, so the others keep their relative order |
| GrovePositioning.StartUnique | src/d20.rs:46-47 | no two positions of a rearranged buffer hold the same original index |
| GrovePositioning.TaggedLocate | src/d20.rs:31-36 | in a rearranged buffer every original index is found, holding its own number, so the `unwrap` never fails |
| GrovePositioning.StepsTagged | src/d20.rs:31-48 | a pass over the original indices never fails and leaves a rearrangement of the input |
| GrovePositioning.Rounds | src/d20.rs:72-91 | the passes keep the buffer's length; see RoundsTagged for what they keep of a tagged input |
| GrovePositioning.RoundsTagged | src/d20.rs:72-91 | any number of passes never fails and leaves a rearrangement of the input |
| GrovePositioning.MixOnce | src/d20.rs:27-48 | the in-place loop computes the same buffer as the pass of moves, and it is a rearrangement of the input |
| GrovePositioning.Coordinates | src/d20.rs:50-59 | the coordinates exist exactly when some entry holds zero |
| GrovePositioning.TaggedZero | src/d20.rs:50-59 | a rearranged buffer holds a zero exactly when the input does |
| GrovePositioning.Part1 | src/d20.rs:27-60 | an answer exactly when there are at least two numbers and one of them is zero, and it is the grove coordinates of a rearrangement of the input |
| GrovePositioning.Part2 | src/d20.rs:62-103 | after scaling by the key and mixing ten rounds, an answer under the same condition, the grove coordinates of a rearrangement of the scaled input |
| GrovePositioning.SampleAnswer | src/d20.rs:107 | the example list 1, 2, -3, 3, -2, 0, 4 gives grove coordinates summing to 3 |
| Text.SplitOnceOnJoin | src/d21.rs:44 | splitting "x: y" at the first ": " gives back x and y when x has no colon |
| MonkeyMath.ParseOpChar | src/d21.rs:17-27 | each of the four operator characters reads back as its operation |
| MonkeyMath.ParseMonkey | src/d21.rs:41-55 | the name is the text before the first ": "; a rest without a space is the signed number it spells, any other rest gives words 0 and 2 as operands and word 1 as the operator; no result where the source panics |
| MonkeyMath.ParseShowMonkey | src/d21.rs:41-55 | a printed number line or "left op right" line reads back as the same monkey, for a colon-free name and space-free operand names |
| MonkeyMath.FromMonkeys | src/d21.rs:65-69 | the pack holds exactly the names that occur on the lines |
| MonkeyMath.FromMonkeysLast | src/d21.rs:65-69 | a name's job is the one on its last line |
| MonkeyMath.ParseMonkeys | src/d21.rs:170-172 | one monkey per line, in order; no result exactly when some line does not parse |
| MonkeyMath.ParseInput | src/d21.rs:170-172 | one monkey per input line, each line's own; no result exactly when some line does not parse |
| MonkeyMath.Shout | src/d21.rs:71-86 | a number job is shouted as it is, so only an operation can fail |
| MonkeyMath.ShoutFailsIff | src/d21.rs:71-86 | a monkey's shout fails exactly when a chain of operands leads from it to a division whose right operand shouts 0 |
| MonkeyMath.ShoutRankFree | src/d21.rs:71-86 | the shout does not depend on which acyclic ranking is used, so the ranking is only a termination witness |
| MonkeyMath.Part1 | src/d21.rs:174-178 | a root with a number job shouts it, and folding the human-free operations first, as part 2 does, leaves root's number unchanged; only the monkeys the root reaches need to be ranked |
| MonkeyMath.UnreachedIgnored | src/d21.rs:174-178 | a pack with a self-referencing monkey that names a missing monkey still has part 1 answer 5 when root never reaches it |
| MonkeyMath.Affected | src/d21.rs:124-132 | a monkey depends on the human only when the human is reached and has a number job, and the human with a number job depends on itself |
| MonkeyMath.AffectedIffPath | src/d21.rs:124-132 | a monkey depends on the human iff a chain of operands leads from it to the human's number job |
| MonkeyMath.ReduceOnce | src/d21.rs:134-154 | a reduction keeps the names and the acyclic ranking |
| MonkeyMath.ReduceShrinks | src/d21.rs:134-154 | `false` leaves the pack unchanged; `true` turns exactly one operation into a number |
| MonkeyMath.ReduceFolds | src/d21.rs:144-150 | every reduction only replaces human-free operations by the number they shout |
| MonkeyMath.FoldedShout | src/d21.rs:71-86 | such a folding changes no monkey's shouted number |
| MonkeyMath.FoldedAffected | src/d21.rs:124-132 | such a folding changes no monkey's dependence on the human |
| MonkeyMath.FoldedTrans | src/d21.rs:156-158 | two foldings in a row are one folding, so repeated reduction stays one |
| MonkeyMath.Normalize | src/d21.rs:156-158 | the normalized pack keeps the names and the ranking |
| MonkeyMath.NormalizeFolds | src/d21.rs:156-158 | the normalized pack is a folding of the input and a further reduction at root finds nothing |
| MonkeyMath.IrreducibleSibling | src/d21.rs:134-154 | in a fully reduced pack, the human-free operand of a one-sided operation is a number, which is what the part 2 walk relies on |
| MonkeyMath.UnaffectedIgnoresHuman | src/d21.rs:124-132 | a human-free monkey shouts the same whatever number the human gets |
| MonkeyMath.FoldedSetHuman | src/d21.rs:156-158 | the normalized pack and the input agree on every monkey for every number given to the human |
| MonkeyMath.InvertLeftSound | src/d21.rs:214-232 | when the division is exact, the undone value `h` satisfies `h op k == r` |
| MonkeyMath.InvertRightSound | src/d21.rs:205-240 | when the division is exact, the undone value `h` satisfies `k op h == r` |
| MonkeyMath.InvertLeftUnique | src/d21.rs:214-232 | for +, - and * by a non-zero number, `h op k == r` holds iff `h` is the undone value |
| MonkeyMath.InvertRightUnique | src/d21.rs:205-240 | for +, - and * by a non-zero number, `k op h == r` holds iff `h` is the undone value |
| MonkeyMath.SolveDown | src/d21.rs:194-257 | when every step divides exactly, giving the human the solved number makes the branch shout the target |
| MonkeyMath.SolveComplete | src/d21.rs:194-257 | on a walk of +, - and * by non-zero numbers, the only number that makes the branch shout the target is the solved one |
| MonkeyMath.Branches | src/d21.rs:160-190 | an answer exactly when root has an operation; its left operand first when that depends on the human, its right operand first otherwise |
| MonkeyMath.Part2 | src/d21.rs:180-259 | no answer when normalizing fails; when the walk down the human's side divides exactly, the answer makes root's two operands shout the same number in the pack as given |
| MonkeyMath.SolvedBalances | src/d21.rs:180-259 | the solved number, given to the human in the pack as given, makes both of root's operands shout the human-free side's number |
| MonkeyMath.Part2Complete | src/d21.rs:180-259 | on a walk of +, - and * by non-zero numbers, every number that makes root's operands equal is the part 2 answer |
| MonkeyMath.ToBufferBalanced | src/d21.rs:88-115 | the printed expression has as many `)` as `(` |
| MonkeyMath.ToBufferHuman | src/d21.rs:88-115 | `x` is printed iff part 2 prints a monkey that depends on the human; `=` only in part 2 |
| MonkeyMap.RotateLaws | src/d22.rs:127-148 | a turn one way undoes a turn the other way; four turns the same way are the identity; a clockwise turn adds one to the facing score modulo 4 |
| MonkeyMap.FacingScoreInjective | src/d22.rs:141-148 | the four facings have four different scores below 4 |
| MonkeyMap.ParseShowAction | src/d22.rs:28-38 | "L", "R" and a number read back as the turn or move they print |
| MonkeyMap.ParseShowPath | src/d22.rs:55-57 | a path written without separators reads back as the same actions when no two moves are adjacent |
| MonkeyMap.FirstNonSpace | src/d22.rs:70-74 | the index of the first non-space character, with only spaces before it; none for a blank line |
| MonkeyMap.LastNonSpace | src/d22.rs:75-81 | the index of the last non-space character, with only spaces after it; none for a blank line |
| MonkeyMap.RowWrap | src/d22.rs:67-84 | a row's span runs from its first to its last non-space column; a blank row is an error |
| MonkeyMap.RowWraps | src/d22.rs:67-84 | one span per row, each that row's span; an error iff some row is blank |
| MonkeyMap.ParseInput | src/d22.rs:40-112 | the board is the lines before the first blank line and the path the actions after it; each row's span and each column's first and last spanning rows are recorded; the start is row 0 at the first '.' of the first line, or column 0 without one; no result without a blank line or with a blank board row |
| MonkeyMap.FirstSpanning | src/d22.rs:88-93 | the first row whose span holds the column |
| MonkeyMap.LastSpanning | src/d22.rs:96-101 | the last row whose span holds the column |
| MonkeyMap.ColWrap | src/d22.rs:86-105 | a column's span runs from the first to the last row whose span holds it; an error iff no row does |
| MonkeyMap.ColWraps | src/d22.rs:86-105 | one span per column up to the widest line, each that column's span |
| MonkeyMap.MaxLen | src/d22.rs:44 | the width is the longest line's length |
| MonkeyMap.FirstOpen | src/d22.rs:59-65 | the start column is the first '.' of the first line |
| MonkeyMap.Spot | src/d22.rs:46-53 | only open tiles and walls are on the board |
| MonkeyMap.SpanCycle | src/d22.rs:154-182 | inside a span, a flat step is the cyclic successor or predecessor in that span, and the two undo each other |
| MonkeyMap.WrapSimple | src/d22.rs:154-182 | a flat step keeps the direction |
| MonkeyMap.WrapSimpleInverse | src/d22.rs:154-182 | from a cell inside its spans, a flat step stays in the row or column span, and stepping back the opposite way returns |
| MonkeyMap.WrapCube | src/d22.rs:184-266 | a cube step from a tile of the six faces is defined and lands on a tile of the six faces |
| MonkeyMap.Walk | src/d22.rs:268-299 | zero steps stay put; a walk that starts on an open tile ends on an open tile; a flat walk keeps its direction and a cube walk that starts on a face ends on a face |
| MonkeyMap.WalkBlocked | src/d22.rs:289-291 | a wall straight ahead leaves the walker where it stands |
| MonkeyMap.WalkSplit | src/d22.rs:268-299 | walking a steps and then b steps is walking a + b steps |
| MonkeyMap.FollowAppend | src/d22.rs:326-341 | following two paths in turn is following their concatenation |
| MonkeyMap.Follow | src/d22.rs:326-341 | following a path from an open tile ends on an open tile, and with the cube wrap from a face ends on a face |
| MonkeyMap.PasswordDecodes | src/d22.rs:345-346 | the password's remainder mod 4 is the facing score; for columns below 249 its thousands are row + 1 and the rest divided by 4 is column + 1 |
| MonkeyMap.PasswordInjective | src/d22.rs:345-346 | for columns below 249, two final states with the same password are the same state |
| MonkeyMap.Traverse | src/d22.rs:326-347 | an empty path gives the start's password; otherwise the password is that of a reached state, on an open tile when the start is open and on a face of the cube when the cube wrap starts on one |
| MonkeyMap.Part1 | src/d22.rs:349-351 | the flat-wrap answer is the password of a state on an open tile (the empty path: the start's) |
| MonkeyMap.Part2 | src/d22.rs:353-355 | the cube-wrap answer is the password of a state on an open tile of one of the six faces |
| MonkeyCube.RingStep | src/d22.rs:184-266 | every cube step moves one place along one of the closed rings of 4 * 50 states |
| MonkeyCube.FlyCycle | src/d22.rs:302-309 | on a closed ring, n steps move n places |
| MonkeyCube.RingClosed | src/d22.rs:184-266 | each ring closes up after 4 * 50 steps |
| MonkeyCube.Locate | src/d22.rs:184-266 | every tile of the six faces, in every direction, lies on some ring |
| MonkeyCube.FlyAroundReturns | src/d22.rs:302-309 | 4 * 50 steps straight ahead from any tile of the cube, in any direction, return to it with the same direction |
| MonkeyCube.WrapCubeInverse | src/d22.rs:184-266 | a cube step from the cube lands on the cube, and turning round and stepping back undoes it |
| MonkeyCube.Face1Corners | src/d22.rs:312-323 | round each corner of face 1, in both directions, three steps and turns return to the start |
| MonkeyCube.Face2Corners | src/d22.rs:312-323 | the same for face 2 |
| MonkeyCube.Face3Corners | src/d22.rs:312-323 | the same for face 3 |
| MonkeyCube.Face4Corners | src/d22.rs:312-323 | the same for face 4 |
| MonkeyCube.Face5Corners | src/d22.rs:312-323 | the same for face 5 |
| MonkeyCube.Face6Corners | src/d22.rs:312-323 | the same for face 6 |
| UnstableDiffusion.CompassExact | src/d23.rs:70-79 | the eight candidate offsets are exactly the cells adjacent to an elf, one neighbour label per offset |
| UnstableDiffusion.NeighborsOf | src/d23.rs:81-87 | a label is reported exactly when the cell at its offset holds an elf; at most eight labels |
| UnstableDiffusion.Lonely | src/d23.rs:94-97 | no neighbour is reported exactly when all eight adjacent cells are empty |
| UnstableDiffusion.InitialSound | src/d23.rs:29-39 | the initial order looks north, south, west, east, three directions each, and each step is the first direction's one-cell offset |
| UnstableDiffusion.Choose | src/d23.rs:98-105 | the chosen intent is the first one whose three directions are all free; none when no intent is free |
| UnstableDiffusion.ProposeFree | src/d23.rs:93-107 | an elf proposes only when it has company, and then proposes an empty cell one step in a free intent's direction; a lonely elf proposes nothing |
| UnstableDiffusion.RotateLeft | src/d23.rs:122 | rotating the intent order keeps its length |
| UnstableDiffusion.RotateLeftPermutes | src/d23.rs:122 | rotating only reorders the intents: the same intents, as often each |
| UnstableDiffusion.Step | src/d23.rs:89-125 | one round keeps the number of elves and, for a non-empty order, leaves the order rotated left once |
| UnstableDiffusion.RotateLeftIndex | src/d23.rs:122 | after the rotation, intent i is the old intent i + 1, wrapping round |
| UnstableDiffusion.RotationsSplit | src/d23.rs:122 | n rotations of the order, for n up to its length, put its first n intents at the end |
| UnstableDiffusion.RotationsRestore | src/d23.rs:122 | as many rotations as the order is long restore it; for the four initial intents, every fourth round uses the same order |
| UnstableDiffusion.RotateSound | src/d23.rs:122 | rotating keeps every intent's step equal to its first direction |
| UnstableDiffusion.ClaimsOnce | src/d23.rs:102 | a proposed cell has at least one claim, and exactly one when no other elf proposed it |
| UnstableDiffusion.ClaimsNone | src/d23.rs:111 | a cell has no claims exactly when no elf proposed it |
| UnstableDiffusion.Scatter | src/d23.rs:89-125 | a round keeps the number of elves and moves the first intent to the back of the order |
| UnstableDiffusion.ScatterMovesIff | src/d23.rs:89-125 | an elf changes cell exactly when it proposed a cell no other elf proposed, and then it lands on that cell, which was empty |
| UnstableDiffusion.ScatterStep | src/d23.rs:89-125 | a lonely elf stays put, and any elf moves by at most one orthogonal step |
| UnstableDiffusion.ScatterDistinct | src/d23.rs:109-120 | no two elves end a round on the same cell |
| UnstableDiffusion.ScatterCount | src/d23.rs:109-124 | the reported count is the number of elves that changed cell, so it is zero exactly when nobody moved |
| UnstableDiffusion.LandsIffMoved | src/d23.rs:111-118 | an elf passes the claim test exactly when it changes cell |
| UnstableDiffusion.ApplyMovesAtOnce | src/d23.rs:109-120 | the one-at-a-time loop over the wanted moves ends with every uniquely claimed move applied at once, counts one per such move and keeps the number of elves |
| UnstableDiffusion.ScatterAnyOrder | src/d23.rs:109-120 | whatever order the loop visits the wanted moves in, it ends with the cells and the count of the positional model |
| UnstableDiffusion.EnumerationExists | src/d23.rs:110 | some visiting order lists every proposing elf once |
| UnstableDiffusion.ScatterKeepsCells | src/d23.rs:115-116 | a round keeps the number of occupied cells |
| UnstableDiffusion.StepKeeps | src/d23.rs:89-125 | a round keeps the number of elves, their distinctness and the soundness of the order, and rotates the order once |
| UnstableDiffusion.IterateKeeps | src/d23.rs:147-149 | n rounds keep those facts and leave the order rotated n times |
| UnstableDiffusion.Rounds | src/d23.rs:144-149 | from a sound, non-empty order, n rounds keep the number of elves and their distinctness, and use the order rotated n times |
| UnstableDiffusion.BoundsUnique | src/d23.rs:62-65 | the minima and maxima of the rows and columns determine one box |
| UnstableDiffusion.BoundingBox | src/d23.rs:62-65 | for a non-empty crowd, the computed box is the bounding box |
| UnstableDiffusion.RectSize | src/d23.rs:66 | a box of r rows and c columns holds r * c cells |
| UnstableDiffusion.BoxHoldsElves | src/d23.rs:66-67 | distinct elves inside a box number at most its area, so the subtraction does not underflow |
| UnstableDiffusion.CountEmpties | src/d23.rs:61-68 | no answer for no elves; otherwise the answer plus the number of elves is the bounding box's area |
| UnstableDiffusion.Dedup | src/d23.rs:31 | the set built from the list has the same members, once each |
| UnstableDiffusion.GridElves | src/d23.rs:134-140 | an elf is read at row r and column c exactly when line r has '#' at column c |
| UnstableDiffusion.ParseInput | src/d23.rs:130-142 | no answer for input without lines; otherwise the first line's length and exactly the '#' cells |
| UnstableDiffusion.Part1 | src/d23.rs:144-152 | after ten rounds from the initial order, the empty cells of the bounding box; none for no elves |
| UnstableDiffusion.SettleSound | src/d23.rs:157-162 | the counting loop reports the first round with no move, and reports one whenever such a round lies within the fuel |
| UnstableDiffusion.Part2 | src/d23.rs:154-163 | the answer is the first round, counted from 1, in which no elf moves, and there is an answer whenever such a round comes within the fuel |
| BlizzardBasin.TryFrom | src/d24.rs:38-50 | only the four arrow characters name a direction; every other character is rejected |
| BlizzardBasin.CharRoundTrip | src/d24.rs:19-50 | reading back the character a direction is drawn with gives that direction, and a character reads as a direction exactly when it is that direction's character |
| BlizzardBasin.Of | src/d24.rs:28-35 | a step in any direction moves to a cell at grid distance one |
| BlizzardBasin.OppositeOf | src/d24.rs:28-35 | a step followed by the step in the opposite direction returns to the starting cell |
| BlizzardBasin.GapsInWalls | src/d24.rs:80-86 | on a valley of at least three rows and columns the entrance and exit are distinct cells of the grid, both in the wall, and the cells below the entrance and above the exit are inside the walls |
| BlizzardBasin.ClearIff | src/d24.rs:186-188 | a cell is clear exactly when no blizzard, of any direction, stands on it |
| BlizzardBasin.Wrapped | src/d24.rs:109-125 | a row or column on the wall wraps to the opposite inner row or column, and any other row or column is kept |
| BlizzardBasin.MoveBlizzards | src/d24.rs:127-146 | moving is defined exactly when every blizzard's step and its wrapped step stay on the grid; it keeps the dimensions and the new blizzards are exactly the moved old ones |
| BlizzardBasin.MovedInside | src/d24.rs:127-146 | a blizzard inside the walls keeps its direction and stays inside: it takes one step, or wraps to the far edge of its row or column when the step hits the wall |
| BlizzardBasin.UnmovedMoved | src/d24.rs:127-146 | moving a blizzard inside the walls can be undone by stepping it back |
| BlizzardBasin.MovedUnmoved | src/d24.rs:127-146 | every blizzard position inside the walls is reached by moving exactly one earlier blizzard |
| BlizzardBasin.MoveInterior | src/d24.rs:127-146 | when all blizzards are inside the walls, moving them never leaves the grid and keeps them inside the walls |
| BlizzardBasin.MoveKeepsCounts | src/d24.rs:127-146 | moving keeps the number of blizzards, in total and for each direction |
| BlizzardBasin.ImageSize | src/d24.rs:140 | moving a set of blizzards that land on distinct places gives as many blizzards as before |
| BlizzardBasin.MovesAt | src/d24.rs:191-210 | at most five cells are offered: waiting and the four directions |
| BlizzardBasin.MovesAtIff | src/d24.rs:191-210 | a cell is offered exactly when it is the current clear cell, or the neighbour in a direction the direction test lets through |
| BlizzardBasin.GapMoves | src/d24.rs:149-166 | from the entrance the only move is down, and from the exit the only move is up |
| BlizzardBasin.FreeIff | src/d24.rs:149-183 | from an open cell with all blizzards inside the walls, a direction is free exactly when its neighbour is the entrance, the exit or a cell inside the walls, and that neighbour is clear |
| BlizzardBasin.MovesOpen | src/d24.rs:191-210 | every offered cell is open and clear, so the expedition never enters a wall or a blizzard |
| BlizzardBasin.Walk | src/d24.rs:191-210 | from an open cell of a valley with its blizzards inside the walls, every later cell of a walk is open and clear of blizzards at its minute |
| BlizzardBasin.WalkOpen | src/d24.rs:191-210 | the i-th cell of such a walk is open, and clear at minute i |
| BlizzardBasin.SpreadSource | src/d24.rs:229-233 | every newly reached cell was offered from some cell reached the minute before |
| BlizzardBasin.SpreadInto | src/d24.rs:229-233 | every cell offered from a reached cell is reached the next minute |
| BlizzardBasin.WalkReaches | src/d24.rs:217-238 | the last cell of any walk is in the set the flood has reached after that many minutes |
| BlizzardBasin.WalkPrefix | src/d24.rs:229-233 | dropping the last cell of a walk leaves a walk, whose last cell offered that cell |
| BlizzardBasin.ReachWalk | src/d24.rs:217-238 | every cell the flood reaches after t minutes is the end of a walk of t steps |
| BlizzardBasin.WalkSnoc | src/d24.rs:229-233 | a walk extended by a cell offered from its last cell is still a walk |
| BlizzardBasin.BlizzardsAfterAdd | src/d24.rs:251-253 | moving the blizzards for a minutes and then for b more is the same as moving them for a + b minutes |
| BlizzardBasin.BlizzardsInterior | src/d24.rs:226 | blizzards that start inside the walls stay inside, on a grid of the same size, however many minutes pass |
| BlizzardBasin.SearchSound | src/d24.rs:221-237 | the search loop stops at the first minute its set contains the target, returns that minute's state, and always stops when the target is reached within the fuel |
| BlizzardBasin.MinuteState | src/d24.rs:221-237 | after t passes of the loop the state holds the blizzards after t minutes and exactly the cells reachable in t minutes |
| BlizzardBasin.SpreadOffered | src/d24.rs:228-233 | one pass of the loop's spreading equals one step of the reachability relation |
| BlizzardBasin.FloodFirst | src/d24.rs:217-238 | a reported minute is the first at which the target is reachable, and the returned blizzards are those of that minute |
| BlizzardBasin.FloodComplete | src/d24.rs:217-238 | when the target is reachable within the fuel, a minute is reported |
| BlizzardBasin.FloodFewest | src/d24.rs:217-238 | the reported minute is the length of some walk to the target, and no walk reaches it sooner |
| BlizzardBasin.FloodFinds | src/d24.rs:217-238 | any walk to the target within the fuel makes the search report an answer |
| BlizzardBasin.ParseMaze | src/d24.rs:64-78 | no valley for an empty input or for a direction character past the first line's length; otherwise as many rows as lines, as many columns as the first line, and a blizzard for exactly each arrow character at its row and column |
| BlizzardBasin.Part1 | src/d24.rs:240-245 | an answer to part one is the first minute at which the exit is reachable from the entrance, and there is one whenever the exit is reachable within the fuel |
| BlizzardBasin.Legs | src/d24.rs:247-253 | each of the three legs takes the fewest minutes for its trip, starting from the blizzards the previous leg left, which are those after the minutes already spent |
| BlizzardBasin.LegsSound | src/d24.rs:251-253 | three floods run one after the other make a trip whose legs are each first and whose blizzards are handed on unchanged |
| BlizzardBasin.EntranceAfter | src/d24.rs:251-253 | on such a trip the blizzards back at the entrance are those out + back minutes after the start |
| BlizzardBasin.Part2 | src/d24.rs:247-255 | the answer to part two is the sum of the three legs' minutes |

## Left out

- `src/utils.rs`: reading the input file, timing, and the `generate_main!`/`generate_tests!` macros are I/O; each model takes the input text (or parsed values) as a parameter, and the puzzle answers checked by those tests are replayed only where a row says so.
- Printing helpers (`Maze::print` of day 24, `Elves::print` of day 23, `print_blocks` of day 17, the screen dump of day 10) only write to the terminal.
- Fixed-width integers: Rust's `usize`, `u32`, `i16`, `i64` and `i128` are modelled as unbounded `int`/`nat`; a subtraction that would underflow a `usize` is modelled as a `None` result or a precondition where it matters, and wrap-around on overflow is not modelled.
- Hash-container iteration order: `HashSet` and `HashMap` are sets, maps or duplicate-free sequences, and "the first element" of a hash set is "some element" (days 3, 7, 16, 23, 24).
- Text.Words: the input is taken to be ASCII. `Words` splits on the ASCII whitespace characters, where src/d02.rs:98 uses `split_whitespace`, which also splits on other Unicode spaces; and a string's length `|s|` counts characters, where `len()` in src/d12.rs:57-59, src/d22.rs:81, src/d23.rs:131 and src/d24.rs:66 counts UTF-8 bytes. The two agree on ASCII input, which is what the puzzles give.
- Calories.Part1: requires at least one group, where the source's `max().unwrap()` would panic.
- Rucksacks.Part1: takes rucksacks as `Rucksack::from` builds them (`WellFormed`), which is how the parser makes every rucksack the source scores.
- Rucksacks.CommonChar: picks some element of the intersection, since the source's choice depends on hash order; `CommonCharUnique` pins it down when only one item type is shared, as the puzzle promises.
- DirectorySizes: the properties of the directory table are proved for logs that never `cd ..` at the root (`WellNested`); the source pops an empty path there without complaint.
- TreeGrid.ViewFrom: part 2's edge adjustments are modelled as the code computes them; whether they match the puzzle's viewing distance is not stated.
- CathodeRay.Part2: the source prints the screen and returns 0; the model returns the screen beside the 0 instead of printing it.
- MonkeyBusiness: monkeys that throw to themselves are excluded (`WellFormed`); the source would loop forever on such a monkey holding two items.
- HillClimb: that the breadth-first search finds a shortest path is not proved; the model proves that a non-zero answer is the length of an allowed path.
- Packets: the `nom` parsers of day 13 are a third-party library and are left out; packets are given as `Item` values. The sort of part 2 is modelled as "one more than the number of packets comparing Less"; this matches the stable sort because the dividers come first in the vector, but transitivity of the comparison is not proved.
- FallingSand: part 1 of the source never stops when a grain rests on the source cell (it re-inserts the same cell); the model returns `None` there. The `i16` arithmetic on coordinates is not bounded.
- SensorCoverage: the row of part 1 and the side of part 2's square are parameters, with the source's constants 2000000 and 4000000 given as constants; part 2 returns `None` where the source reaches `unreachable!()`.
- ValvePressure: the hop-count search is run for at most as many layers as there are valves, and gives 999999999 both when the queue empties and when that bound runs out (the source can loop forever between unreachable valves of a cyclic graph). Within that bound, popping a valve with no line of its own is modelled as the source's panic (`None`); past it, it is not.
- PyroclasticFlow.Run2AsWritten: `fuel` bounds the number of turns, so `None` stands both for the panic and for running out of turns; `SkipOntoCountMissed` holds for every fuel.
- PyroclasticFlow.Part2: returns `None` when a detected cycle has zero period (the source divides by it); that the cycle heuristic gives the true height is not stated.
- NotEnoughMinerals: that the robot caps and the best-so-far cut-off never lose the best build order is not proved; the model proves the cut-off by the free-run bound is sound and that the corrected search value is achieved. The set of seen factories is a set of `Factory` values.
- MonkeyMath: the folding lemmas assume the human's job is a number (`HumanLeaf`); part 2 is proved complete only for walks of +, - and * by non-zero numbers, since truncating division loses information. No sample evaluation for day 21.
- MonkeyMath.Part1: requires a ranking (`Ranked`) of the monkeys root listens to, directly or not: every name they mention is in the pack and no chain of references leads back to itself. The source panics on the `unwrap` of a missing name (src/d21.rs:71-86) and recurses without end on a cycle; neither is modelled.
- MonkeyMath.Part2: requires the same ranking as part 1, so a missing name (the `unwrap` panic of src/d21.rs:71-86) and a cycle of references (recursion without end) that root reaches are not modelled.
- MonkeyCube: the cube wrap is the source's hand-written layout for faces of side 50; no other net is modelled.
- GrovePositioning.Rounds: that the mixing passes only rearrange the numbers is proved (`RoundsTagged`) for a buffer that is a rearrangement of the tagged input, which is the only buffer the source mixes; for an arbitrary buffer only the length is stated.
- UnstableDiffusion: the elves' hash set is a duplicate-free sequence, and the source's move loop over a hash map is modelled over every enumeration order (proved equal). Part 2 takes a `fuel` bound on the rounds; a result of `None` means the elves had not settled within it. The sample answers 110 and 20 are not replayed.
- UnstableDiffusion.Step: an empty intent order is left unchanged, which its contract does not state, and `RotateLeft` requires a non-empty order; the source always has four.
- BlizzardBasin: `usize` coordinates are modelled as `int`. Each leg is searched for at most `fuel` minutes, and `None` means the target was not reached in time; the source loops forever on an unreachable target. Part 1 and part 2 give no answer unless the valley has at least two rows and two columns and every blizzard is inside the walls (`Runs`); otherwise the source may underflow a `usize` or index outside its grid. The sample answers 18 and 54 are not replayed.
- Snafu: a character outside the five SNAFU digits is a precondition, where the source panics.

## Findings

| source | as written | input that shows it | evidently intended | confidence | as-written member | corrected member |
|---|---|---|---|---|---|---|
| src/d12.rs:18-24 | the left and right candidates are index-1 and index+1 in the flattened map, with no check that they stay in the same row | the map "ab" over "bc": from index 1 (row 0, column 1) the cell at index 2 (row 1, column 0) is offered as a neighbour | moves only to the four grid-adjacent cells, as the up and down candidates already are | high; not executed | HillClimb.RowWrapAsWritten | HillClimb.CandidatesAdjacent |
| src/d17.rs:222-262 | after a repeated cycle the counter jumps by whole cycles, and the stop test `blocks_fallen == BLOCK_COUNT` is only made after the next shape comes to rest | a cycle of 1000 shapes detected after 2000 shapes: the jump lands exactly on 10^12, the next test sees 10^12 + 1, and the loop runs on until `BLOCK_COUNT - blocks_fallen` underflows | stop as soon as the jump lands on the count | medium: the arithmetic is certain, whether a given jet pattern meets the divisibility is not; not executed | PyroclasticFlow.SkipOntoCountDiverges | PyroclasticFlow.Run2 |
| src/d19.rs:165-175 | `maxed_score` reports the free-run bound as soon as the robot counts reach `robots_for_geode`, whether or not a geode robot can be paid for in the minutes left | a blueprint where every robot costs 1 of each material it needs, over 6 minutes: the search as written reports at least 1 geode, while no build order opens one | report the free-run bound only when the stock already pays for a geode robot, so one can be built every remaining minute | high for the blueprint shown; not executed | NotEnoughMinerals.MaxedScoreAsWrittenOverclaims | NotEnoughMinerals.SearchAchieved |
