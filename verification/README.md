# Advent of Code 2024 in Rust, modelled in Dafny

This project models the Rust solutions of the 2024 Advent of Code puzzles in
`2024/rust`. It proves properties of the model.

The centre of the model is the day 15 warehouse. A robot walks over a floor
plan and pushes boxes in front of it.
- The first warehouse has one-cell boxes.
- The second warehouse draws the map twice as wide. Its boxes span two cells,
  `[` and `]`. Pushing such a box up or down can shove a whole tree of boxes
  at once.

The other puzzles from day 2 to day 14 are modelled at the level of their
`process` functions:
- reactor reports (day 2);
- corrupted `mul` instructions (day 3);
- a word search (day 4);
- print-queue ordering rules (day 5);
- a patrolling guard (day 6);
- calibration equations (day 7);
- antenna antinodes (day 8);
- disk compaction (day 9);
- hiking trails (day 10);
- splitting stones (day 11);
- garden regions and their fences (day 12);
- claw machines (day 13);
- robots on a torus (day 14).

## Modules

Each `.dfy` file holds one module:
- `Common`: the shared vocabulary. It has `Option`, grid positions, the four directions, sums over sets and decimal digit counts.
- `Text`: the Rust string functions the solutions use. These are `lines`, `split_once`, `split_whitespace`, `trim` and integer `parse`.
- `Layout`: reads a warehouse map into a sparse floor plan.
- `Push`: the chain push shared by both warehouses.
- `Narrow`: the first warehouse.
- `Wide`: the second warehouse.
- One module per puzzle for the others: `Reports`, `Memory`, `Search`, `Manual`, `Patrol`, `Calibration`, `Antennas`, `Disk`, `Trails`, `Stones`, `Garden`, `Claw` and `Robots`.

Pure logic is written as functions. The loops that the proofs depend on are written as methods with invariants:
- the wave commit of the wide warehouse;
- the stone counter;
- the flood fill;
- the trail searches;
- the loop count of the guard.

## Model

| member | source | states |
|---|---|---|
| Narrow.ItemOf | 2024/rust/day15/src/types.rs:46-52 | `#` is read as a wall and `O` as a box; nothing else becomes an item |
| Narrow.FromText | 2024/rust/day15/src/types.rs:35-65 | the floor plan holds exactly the walls and boxes the text shows, at their row and column; the robot is the last `@` in reading order, or (0, 0) when there is none; a shown robot stands on floor |
| Narrow.MoveOf | 2024/rust/day15/src/part1.rs:24-29 | only `>`, `v`, `<` and `^` are moves |
| Narrow.ParseMoveChars | 2024/rust/day15/src/part1.rs:19-33 | the move list exists exactly when every character is a move, and it holds one move per character, in order |
| Narrow.ParseMoveCharsRoundTrip | 2024/rust/day15/src/part1.rs:24-29 | writing moves as characters and reading them back gives the same moves |
| Narrow.ParseMovesSkipsLineBreaks | 2024/rust/day15/src/part1.rs:19-33 | line breaks between move lines are ignored: the moves of a multi-line text are the moves of its lines put end to end |
| Narrow.SplitInput | 2024/rust/day15/src/part1.rs:17 | without a blank line both halves are empty; otherwise the input is the map, the blank line and the moves |
| Narrow.Parse | 2024/rust/day15/src/part1.rs:16-35 | parsing succeeds exactly when the move half holds only moves, and the warehouse is the one read from the map half |
| Narrow.TryMove | 2024/rust/day15/src/types.rs:98-113 | floor accepts the push unchanged; a wall refuses it unchanged; a refused push changes nothing; a successful push leaves the pushed cell empty |
| Narrow.TryMoveLiftsFirstBox | 2024/rust/day15/src/types.rs:102-111 | a successful push of a row of boxes is the same as taking away the first box and putting a box on the first free cell past the row |
| Narrow.TryMoveKeepsItems | 2024/rust/day15/src/types.rs:98-113 | a push never moves a wall and never creates or destroys a box |
| Narrow.BoxScore | 2024/rust/day15/src/types.rs:115-127 | the score of the boxes: walls add nothing and each box adds its GPS coordinate (`Narrow.WallsDoNotScore`, `Narrow.BoxesScore`) |
| Narrow.WallsDoNotScore | 2024/rust/day15/src/types.rs:115-127 | walls add nothing to the GPS score |
| Narrow.BoxesScore | 2024/rust/day15/src/types.rs:115-127 | each box adds 100 times its row plus its column to the score |
| Narrow.TryMoveScore | 2024/rust/day15/src/types.rs:98-127 | a successful push changes the score by exactly one box's move from the pushed cell to the free cell past the row |
| Narrow.MoveRobot | 2024/rust/day15/src/part1.rs:6-11 | the robot steps exactly when the push in front of it succeeds, and otherwise nothing changes; walls and the box count are kept; the robot stays on floor |
| Narrow.Simulate | 2024/rust/day15/src/part1.rs:6-11 | after any move list the walls and the box count are unchanged and the robot is still on floor |
| Narrow.SimulateAppend | 2024/rust/day15/src/part1.rs:6-11 | running two move lists one after the other is running their concatenation |
| Layout.ScanRow | 2024/rust/day15/src/types.rs:44-60 | the column loop adds exactly the cells of the line that show an item, with that item, and moves the robot to the last `@` of the line |
| Layout.ScanRows | 2024/rust/day15/src/types.rs:42-62 | the row loop adds exactly the cells of the remaining rows that show an item; the robot ends on the last `@` in reading order, or stays put when there is none |
| Layout.ScanContents | 2024/rust/day15/src/types.rs:35-65 | the scanned floor plan has a key exactly where the text shows an item; the robot is the last `@`, or (0, 0) when the text has none |
| Layout.ScanKeys | 2024/rust/day15/src/types.rs:42-62 | a cell is in the floor plan exactly when the text shows an item there, and it holds that item |
| Layout.ScanRobotFree | 2024/rust/day15/src/types.rs:49 | a robot that the text shows stands on a cell without an item |
| Push.StepCoordinates | 2024/rust/day15/src/types.rs:93-96 | a step along a direction adds one to the coordinate that direction moves along and keeps the other coordinate |
| Push.CoordinatesDetermine | 2024/rust/day15/src/types.rs:93-96 | the lane and the distance along a direction together pin down a cell |
| Push.TranslateMember | 2024/rust/day15/src/types.rs:105-106 | a cell is in a translated set exactly when the cell one vector back is in the original set |
| Push.ShiftCells | 2024/rust/day15/src/types.rs:105-106 | after shifting a set of cells, the keys are the unshifted keys plus the shifted cells at their new places |
| Push.ShiftCellsAddCell | 2024/rust/day15/src/types.rs:105-106 | shifting one more cell is one more removal and insertion, as each level of the recursion does |
| Push.ShiftCellsEmpty | 2024/rust/day15/src/types.rs:98-101 | shifting no cells changes nothing |
| Push.ShiftCellsItems | 2024/rust/day15/src/types.rs:105-106 | after a shift, the items of each kind are the unshifted ones plus the shifted ones at their new places |
| Push.TranslateSum | 2024/rust/day15/src/types.rs:115-127 | translating a set adds a fixed amount per element to any sum over it that grows linearly along the vector |
| Push.TranslateRemove | 2024/rust/day15/src/types.rs:105-106 | taking an element out of a set takes its image out of the translated set |
| Push.ShiftCellsSum | 2024/rust/day15/src/types.rs:115-127 | a shift changes a linear sum over the items of a kind by a fixed amount for each shifted item |
| Push.ShiftCellsKeepsCount | 2024/rust/day15/src/types.rs:105-106 | a shift whose target cells are free or being vacated never changes the number of items of any kind |
| Push.KeysAheadShrinks | 2024/rust/day15/src/types.rs:104 | each level of the recursive push has fewer keys ahead of it, so the recursion ends |
| Push.Along | 2024/rust/day15/src/types.rs:104 | the cell i steps ahead stays in the same lane, i further along the direction |
| Push.RunLength | 2024/rust/day15/src/types.rs:98-113 | the run in front of the robot is a maximal row of non-wall items, ended by a free cell or a wall |
| Push.RunExtends | 2024/rust/day15/src/types.rs:102-104 | a non-wall item in front of a run makes the run one longer |
| Push.RunCell | 2024/rust/day15/src/types.rs:98-113 | every cell of the run is one of its steps and holds no wall |
| Push.RunUnfold | 2024/rust/day15/src/types.rs:102-104 | the run from a pushable cell is that cell plus the run from the next cell |
| Push.ChainPush | 2024/rust/day15/src/types.rs:98-113 | a push succeeds exactly when the cell past the run is free; a refused push changes nothing; a successful one empties the pushed cell |
| Push.ChainPushShifts | 2024/rust/day15/src/types.rs:98-113 | a successful push moves the whole run exactly one step, and nothing else |
| Push.ChainPushFrame | 2024/rust/day15/src/types.rs:98-113 | cells off the run and off the cell just past it are untouched |
| Push.ChainPushTargets | 2024/rust/day15/src/types.rs:102-111 | the cells the run moves into are cells of the run or free cells |
| Push.ChainPushKeepsCount | 2024/rust/day15/src/types.rs:98-113 | pushing never changes how many items of any kind the floor plan holds |
| Push.ChainPushKeepsWalls | 2024/rust/day15/src/types.rs:98-113 | pushing never moves, adds or removes a wall |
| Wide.Widen | 2024/rust/day15/src/types.rs:170-176 | each of `#`, `O`, `@` and `.` widens to two characters, and any other character is refused |
| Wide.WidenLine | 2024/rust/day15/src/types.rs:165-179 | a line widens exactly when all its characters do; the widened line is twice as long, and characters 2j and 2j+1 are the widening of character j |
| Wide.WidenAt | 2024/rust/day15/src/types.rs:165-179 | character c of a widened line is half c mod 2 of the widening of character c/2 |
| Wide.WidenLines | 2024/rust/day15/src/types.rs:165-179 | the map widens exactly when every line does, line by line |
| Wide.WideItemOf | 2024/rust/day15/src/types.rs:185-193 | `#` is a wall, `[` a left box half and `]` a right box half |
| Wide.FromText | 2024/rust/day15/src/types.rs:158-206 | the wide warehouse exists exactly when the map widens; its box halves are paired; a shown robot stands on floor |
| Wide.WidenedLinePaired | 2024/rust/day15/src/types.rs:170-176 | in a widened line, `[` appears exactly where `]` follows |
| Wide.WidenedCellPaired | 2024/rust/day15/src/types.rs:181-198 | in the widened map, a left half has a right half just to its right, and the other way round |
| Wide.WidenedPaired | 2024/rust/day15/src/types.rs:158-206 | the floor plan read from a widened map pairs every box half with its partner |
| Wide.WidenedRobot | 2024/rust/day15/src/types.rs:170-176 | the robot of the original map is in the widened map, at twice its column |
| Wide.WidenedRobotFree | 2024/rust/day15/src/types.rs:158-206 | a robot shown on the original map stands on floor in the wide warehouse |
| Wide.Parse | 2024/rust/day15/src/part2.rs:15-34 | parsing succeeds exactly when the map widens and the moves parse, and gives those two results |
| Wide.ShiftKeepsPaired | 2024/rust/day15/src/types.rs:239-323 | shifting whole boxes into free or vacated cells keeps every box half paired |
| Wide.SidewaysRunWhole | 2024/rust/day15/src/types.rs:240-267 | sideways, the run pushed from a floor cell is made of whole boxes |
| Wide.SidewaysPartner | 2024/rust/day15/src/types.rs:246-265 | the other half of every box half in a sideways run is in the run too |
| Wide.KeysBeyondShrinks | 2024/rust/day15/src/types.rs:354-383 | each level of the box search looks at fewer keys further ahead, so it ends |
| Wide.Normalise | 2024/rust/day15/src/types.rs:331-334 | a box is named by its left half, in the same row |
| Wide.FindMovable | 2024/rust/day15/src/types.rs:325-388 | a failed search returns no boxes; a successful one starts its list with the box it was asked about |
| Wide.FindMovableSound | 2024/rust/day15/src/types.rs:325-388 | the boxes found are left halves, and no found box is held up by a wall or by a box outside the set |
| Wide.GatherJoin | 2024/rust/day15/src/types.rs:354-385 | a box with both front cells clear, together with the boxes found in front of it, can move together |
| Wide.FindMovableLeast | 2024/rust/day15/src/types.rs:325-388 | if any set of boxes that can move together contains the start, the search succeeds and finds a subset of it |
| Wide.CellsMember | 2024/rust/day15/src/types.rs:309-312 | the cells of a set of boxes are their left halves and the cells just right of them |
| Wide.GatheredCells | 2024/rust/day15/src/types.rs:296-316 | a found set covers only whole boxes, no walls, exactly its own left halves, and targets only cells of the set or free cells |
| Wide.TryBigMove | 2024/rust/day15/src/types.rs:239-323 | floor accepts the push unchanged; a wall refuses it unchanged; a refused push changes nothing |
| Wide.TryBigMoveKeeps | 2024/rust/day15/src/types.rs:239-323 | a push from a cell the robot could stand behind keeps the halves paired, keeps the walls and the box count, and empties the pushed cell on success |
| Wide.VerticalPushLeast | 2024/rust/day15/src/types.rs:268-318 | up or down, the push succeeds when some set of boxes containing the pushed one can move together; the set it moves is the least such set |
| Wide.PairedGathered | 2024/rust/day15/src/types.rs:296-316 | a set the search finds meets everything the commit loop needs |
| Wide.Spaced | 2024/rust/day15/src/types.rs:296-316 | no two found boxes overlap |
| Wide.UnmovedCells | 2024/rust/day15/src/types.rs:303-306 | a box held back is neither a moved cell nor the target of one |
| Wide.NotShifted | 2024/rust/day15/src/types.rs:308 | a found box that has not moved yet still stands where it stood, so the source's `assert_eq` holds |
| Wide.LiftShifts | 2024/rust/day15/src/types.rs:309-312 | the source's two removals and two insertions for a box with a free target extend the shift by that box |
| Wide.LiftUpward | 2024/rust/day15/src/types.rs:296-316 | moving a box with a free target never leaves a box in front of it unmoved |
| Wide.FrontCellFree | 2024/rust/day15/src/types.rs:300-306 | a clear cell beyond every unmoved box is free at this point of the commit |
| Wide.FurthestIsFree | 2024/rust/day15/src/types.rs:296-316 | the unmoved box furthest along the direction always has room, so every wave moves a box |
| Wide.WaveShrinks | 2024/rust/day15/src/types.rs:296-316 | every wave leaves fewer boxes for the next one, so the commit loop ends |
| Wide.AllMoved | 2024/rust/day15/src/types.rs:296-316 | once no box is left to move, every found box has moved |
| Wide.CommitWave | 2024/rust/day15/src/types.rs:297-315 | one wave moves at least one box, holds the others back, and leaves the floor plan shifted by exactly the boxes moved so far |
| Wide.CommitBox | 2024/rust/day15/src/types.rs:300-313 | one box of a wave either moves or is held back, and the loop's invariant is kept |
| Wide.CommitWaves | 2024/rust/day15/src/types.rs:296-316 | the commit loop leaves the floor plan shifted one step along the direction by exactly the cells of the found boxes |
| Wide.BigMove | 2024/rust/day15/src/types.rs:239-323 | the source's mutating push, waves included, gives the same verdict and floor plan as the functional push |
| Wide.WeightAdd | 2024/rust/day15/src/types.rs:390-402 | the GPS coordinate grows linearly along any vector |
| Wide.BoxScore | 2024/rust/day15/src/types.rs:390-402 | the score of the left halves: a push changes it by the number of boxes carried times the GPS step (`Wide.ShiftCarries`, `Wide.TryBigMoveCarries`) |
| Wide.ShiftCarries | 2024/rust/day15/src/types.rs:390-402 | shifting cells moves the left halves among them and changes the score by their number times the GPS weight of the step |
| Wide.TryBigMoveCarries | 2024/rust/day15/src/types.rs:239-323 | a successful push moves exactly the carried boxes one cell, and the score changes by their number times the weight of the step |
| Wide.MoveRobot | 2024/rust/day15/src/part2.rs:6-11 | the robot steps exactly when the push in front of it succeeds; the halves stay paired, the robot stays on floor, and walls and the box count are kept |
| Wide.Simulate | 2024/rust/day15/src/part2.rs:6-11 | after any move list the warehouse is still valid, with the same walls and box count |
| Wide.SimulateAppend | 2024/rust/day15/src/part2.rs:6-11 | running two move lists one after the other is running their concatenation |
| Reports.Rising | 2024/rust/day02/src/part1.rs:18-20 | true exactly when every step rises by 1 to 3 |
| Reports.Falling | 2024/rust/day02/src/part1.rs:21-23 | true exactly when every step falls by 1 to 3 |
| Reports.IsSafe | 2024/rust/day02/src/part1.rs:17-26 | a report of fewer than two levels is safe; two equal neighbours make it unsafe |
| Reports.RisingReversed | 2024/rust/day02/src/part1.rs:17-26 | read backwards, a rising report is a falling one |
| Reports.FallingReversed | 2024/rust/day02/src/part1.rs:17-26 | read backwards, a falling report is a rising one |
| Reports.SafeReversed | 2024/rust/day02/src/part1.rs:17-26 | safety does not depend on the direction in which the report is read |
| Reports.Remove | 2024/rust/day02/src/part2.rs:32 | removing index i shortens the report by one and keeps every other level in order |
| Reports.DampenedFrom | 2024/rust/day02/src/part2.rs:29-39 | true exactly when removing some level at index `from` or later leaves a safe report |
| Reports.Dampened | 2024/rust/day02/src/part2.rs:29-39 | true exactly when removing some single level leaves a safe report |
| Reports.SafeAfterDampen | 2024/rust/day02/src/part2.rs:29-39 | the remove-and-reinsert loop answers true exactly when removing some single level leaves a safe report |
| Reports.CountedIff | 2024/rust/day02/src/part2.rs:10 | a report passes part two (safe, or safe after dampening) exactly when it is empty or can be dampened |
| Reports.Levels | 2024/rust/day02/src/part1.rs:7 | only words that parse as `i32` become levels, so every level is in the `i32` range |
| Reports.CountMonotone | 2024/rust/day02/src/part2.rs:10 | a more permissive test counts at least as many reports |
| Reports.Reports | 2024/rust/day02/src/part1.rs:4-8 | one report per line, read in order |
| Reports.PartsOrdered | 2024/rust/day02/src/part2.rs:1-15 | the dampener never makes a safe report unsafe, so part two counts at least as many reports as part one |
| Memory.DigitRun | 2024/rust/day03/src/part1.rs:32-36 | the leading digits are a maximal run of digits |
| Memory.U32 | 2024/rust/day03/src/part1.rs:32-36 | a number token is the whole leading run of digits, its value is below 2^32, and it is followed by a non-digit or by the end |
| Memory.MulAt | 2024/rust/day03/src/part1.rs:30-38 | a match starts with `mul(` and ends with `)`, at least eight characters long |
| Memory.InstrAt | 2024/rust/day03/src/part2.rs:49-55 | a match consumes at least one character; without the switches only `mul` is recognised |
| Memory.Scan | 2024/rust/day03/src/part1.rs:40-42 | without the switches every instruction found is a `mul` |
| Memory.Parse | 2024/rust/day03/src/part1.rs:40-42 | parsing fails exactly when no instruction is found, as `many1` does |
| Memory.U32Show | 2024/rust/day03/src/part1.rs:32-36 | a rendered `u32` followed by a non-digit is read back with its exact length |
| Memory.DigitRunOf | 2024/rust/day03/src/part1.rs:32-36 | the digit run of a digit string followed by a non-digit is that string |
| Memory.MulAtRender | 2024/rust/day03/src/part1.rs:30-38 | a rendered `mul(a,b)` with `u32` operands is read back as that instruction, consuming exactly its text |
| Memory.MulAtParts | 2024/rust/day03/src/part1.rs:30-38 | `mul(`, a number, `,`, a number and `)` make one `mul` of the two numbers |
| Memory.MulAtOf | 2024/rust/day03/src/part1.rs:30-38 | the `mul` parser succeeds on any text that has the right pieces at the right offsets |
| Memory.InstrAtRender | 2024/rust/day03/src/part2.rs:49-55 | every rendered instruction is read back as itself, consuming exactly its text; `don't()` is not taken for `do()` |
| Memory.ScanRender | 2024/rust/day03/src/part1.rs:40-42 | a rendered instruction is collected, and scanning goes on right after it |
| Memory.ScanSkipsJunk | 2024/rust/day03/src/part1.rs:40-42 | text where no instruction can start is skipped one character at a time and adds nothing |
| Memory.Products | 2024/rust/day03/src/part1.rs:20-25 | the sum of the products is at least each single product and zero when there is no `mul` |
| Memory.Run | 2024/rust/day03/src/part2.rs:28-35 | the fold never decreases the running total |
| Memory.RunAtMost | 2024/rust/day03/src/part2.rs:28-35 | switching only drops products, so the total is at most the sum of all products |
| Memory.RunAllEnabled | 2024/rust/day03/src/part2.rs:28-35 | without switches, the fold adds every product |
| Memory.RunDisabled | 2024/rust/day03/src/part2.rs:28-35 | after `don't()`, products are dropped until a `do()` comes |
| Memory.Part1 | 2024/rust/day03/src/part1.rs:16-27 | part one has an answer exactly when some `mul` is found |
| Memory.Part2 | 2024/rust/day03/src/part2.rs:26-37 | part two has an answer exactly when some instruction is found |
| Memory.Part2Bound | 2024/rust/day03/src/part2.rs:26-37 | the second answer never exceeds the sum of the products read |
| Search.Read | 2024/rust/day04/src/part1.rs:16-22 | a position on the grid reads its letter; any other position reads `.` |
| Search.PassOne | 2024/rust/day04/src/part1.rs:51-53 | the row-major scan passes each cell once, and includes it when it holds the letter |
| Search.Scan | 2024/rust/day04/src/part1.rs:48-56 | the scan adds the score of every cell holding the letter, each once |
| Search.CountSpelled | 2024/rust/day04/src/part1.rs:35-43 | counting over some directions gives at most one per direction |
| Search.XmasCount | 2024/rust/day04/src/part1.rs:24-44 | at most eight `XMAS` start from one cell |
| Search.CountSpelledSet | 2024/rust/day04/src/part1.rs:35-43 | counting along distinct directions counts the set of directions that spell the word |
| Search.SpellsMeans | 2024/rust/day04/src/part1.rs:37-41 | `XMAS` continues along a direction exactly when the next three cells read `M`, `A` and `S` |
| Search.XmasCountMeans | 2024/rust/day04/src/part1.rs:24-44 | the count is the number of the eight directions along which the next three cells read `M`, `A`, `S` |
| Search.Part1 | 2024/rust/day04/src/part1.rs:48-56 | the answer sums the `XMAS` counts of every `X`, and is at most eight per `X` |
| Search.Crossmas | 2024/rust/day04/src/part2.rs:37-44 | both diagonals through the cell read one `M` and one `S` (`Search.MasPairMeans`); never on the border (`Search.BorderNever`) |
| Search.MasPairMeans | 2024/rust/day04/src/part2.rs:42-44 | a diagonal passes exactly when its two ends are one `M` and one `S`, in either order |
| Search.BorderNever | 2024/rust/day04/src/part2.rs:37-44 | an `A` on the top row, left column or bottom row never passes, because one diagonal end reads `.` |
| Search.Part2 | 2024/rust/day04/src/part2.rs:49-59 | the answer is the number of `A` cells whose two diagonals each read `MS` or `SM` |
| Search.CountOver | 2024/rust/day04/src/part2.rs:52-56 | adding one for each passing cell counts the passing cells |
| Manual.Position | 2024/rust/day05/src/part1.rs:35-36 | the first index of a page, or none when the page is missing |
| Manual.ValidUpdate | 2024/rust/day05/src/part1.rs:32-43 | an update is valid exactly when every rule holds of it |
| Manual.PositionOfDistinct | 2024/rust/day05/src/part1.rs:35-36 | without repeated pages, the first index of a page is its index |
| Manual.ValidIffNoInversion | 2024/rust/day05/src/part1.rs:32-43 | without repeated pages, an update is valid exactly when no page comes after a page that a rule says must follow it |
| Manual.NoRulesAllValid | 2024/rust/day05/src/part1.rs:32-43 | with no rules every update is valid |
| Manual.AbsentPageRule | 2024/rust/day05/src/part1.rs:38-40 | a rule that names a page missing from the update has no effect on it |
| Manual.Compare | 2024/rust/day05/src/part2.rs:46-54 | `Less` exactly when a rule puts a before b; `Greater` exactly when no rule does but one puts b before a |
| Manual.CompareFlips | 2024/rust/day05/src/part2.rs:46-54 | when a compares `Greater` than b, b compares `Less` than a, so the comparator is consistent both ways round |
| Manual.Insert | 2024/rust/day05/src/part2.rs:45-56 | insertion adds exactly one page and keeps a settled list settled |
| Manual.EmptyUpdateValid | 2024/rust/day05/src/part1.rs:32-43 | an empty update names no page, so every rule holds of it and part two never takes its middle |
| Manual.FixOrder | 2024/rust/day05/src/part2.rs:45-56 | reordering is a permutation of the update, and no neighbouring pair compares `Greater` |
| Manual.SettledChains | 2024/rust/day05/src/part2.rs:45-56 | under a strict total order on its pages, a settled list of distinct pages follows the rules for every pair |
| Manual.DistinctPermutation | 2024/rust/day05/src/part2.rs:45-56 | reordering keeps the pages distinct |
| Manual.FixOrderValid | 2024/rust/day05/src/part2.rs:81-94 | when the rules order an update's distinct pages strictly and totally, the reordered update is valid |
| Manual.Middle | 2024/rust/day05/src/part1.rs:93-94 | the middle page is a page of the update with as many pages before it as after it, or one more before it for an even length |
| Manual.PartsPartition | 2024/rust/day05/src/part2.rs:81-94 | every update counts in exactly one part: the two answers add up to the middle pages of all updates once ordered |
| Manual.NoRulesSums | 2024/rust/day05/src/part1.rs:85-97 | without rules part two is zero and part one sums every middle page |
| Patrol.Set | 2024/rust/day06/src/part2/maze.rs:59-67 | writing changes exactly the one cell, and only when it is on the map |
| Patrol.SetTwice | 2024/rust/day06/src/part2/maze.rs:59-67 | of two writes to one cell only the second remains, so resetting the obstacle restores the map |
| Patrol.Position | 2024/rust/day06/src/part1/maze.rs:14-23 | the first column holding the character, or none |
| Patrol.FindGuard | 2024/rust/day06/src/part1/maze.rs:14-23 | the search finds the first `^` in reading order, or none when there is none |
| Patrol.Home | 2024/rust/day06/src/part1/maze.rs:14-23 | the guard starts at the first `^` in reading order, or at (0, 0) when there is none |
| Patrol.FromText | 2024/rust/day06/src/part1/maze.rs:12-31 | the map is the input's lines and the guard faces up |
| Patrol.Move | 2024/rust/day06/src/part1/maze.rs:35-47 | the walk ends exactly when the cell ahead is off the map; otherwise the guard turns in place or steps onto an open cell |
| Patrol.TraceShift | 2024/rust/day06/src/part1/maze.rs:35-47 | k + j rounds are k rounds and then j more |
| Patrol.TraceNext | 2024/rust/day06/src/part1/maze.rs:35-47 | each state is one move from the one before |
| Patrol.TraceEarlier | 2024/rust/day06/src/part1/maze.rs:35-47 | a guard still on the map was on it at every earlier round |
| Patrol.TraceStays | 2024/rust/day06/src/part1/maze.rs:35-47 | the guard is always on the map or at its start |
| Patrol.Walk | 2024/rust/day06/src/part1/maze.rs:35-47 | the visited set holds the start and otherwise only open cells of the map |
| Patrol.WalkLeaves | 2024/rust/day06/src/part1/maze.rs:35-47 | the walk finishes within its fuel exactly when the guard has left the map by then |
| Patrol.WalkVisits | 2024/rust/day06/src/part1/maze.rs:35-47 | the visited set is exactly the positions the guard takes before leaving |
| Patrol.WalkMoreFuel | 2024/rust/day06/src/part1/maze.rs:35-47 | more fuel does not change a walk that has finished |
| Patrol.Part1 | 2024/rust/day06/src/part1.rs:4-8 | part one has an answer exactly when the guard leaves within the fuel |
| Patrol.Loops | 2024/rust/day06/src/part2/maze.rs:76-95 | decides whether the guard is caught: true exactly when a state repeats, false exactly when it leaves (`Patrol.LoopsIff`) |
| Patrol.LoopsIff | 2024/rust/day06/src/part2/maze.rs:76-95 | the loop test says yes exactly when some state of the guard comes round again, and no exactly when the guard leaves |
| Patrol.LoopsFrom | 2024/rust/day06/src/part2/maze.rs:76-95 | the loop's verdict from any round of the walk is the verdict for the whole walk |
| Patrol.RepeatsStay | 2024/rust/day06/src/part2/maze.rs:76-95 | a guard whose state comes round again never leaves |
| Patrol.CycleOn | 2024/rust/day06/src/part2/maze.rs:76-95 | once two rounds agree, the guard is on the map at every later round |
| Patrol.Looping | 2024/rust/day06/src/part2/maze.rs:69-98 | with an `O` placed, the answer is true exactly when the guard repeats a state and false exactly when it leaves; the map is left with `.` at that cell |
| Patrol.MoveAlike | 2024/rust/day06/src/part2/maze.rs:89 | two maps that block at the same cells move the guard alike |
| Patrol.LoopsAlike | 2024/rust/day06/src/part2/maze.rs:76-95 | the loop test sees a map only through where it blocks |
| Patrol.ObstacleIsWall | 2024/rust/day06/src/part2/maze.rs:89 | a placed `O` blocks exactly as a `#` would |
| Patrol.CountLoops | 2024/rust/day06/src/part2.rs:8-11 | the count is at most the number of path cells; when they are open it is exactly the number of cells where an `O` traps the guard |
| Patrol.TryAlike | 2024/rust/day06/src/part2/maze.rs:69-98 | a try on the map left by the previous try gives the same verdict as on the original map |
| Patrol.PathOpen | 2024/rust/day06/src/part2.rs:4-13 | the cells of the walk are open when the map has a guard and no `O` |
| Patrol.Part2 | 2024/rust/day06/src/part2.rs:4-13 | part two has an answer exactly when the walk finishes; the answer is at most the path length, and for a map with a guard and no `O` it is the number of trapping cells |
| Calibration.Concat | 2024/rust/day07/src/part2.rs:19-22 | the result's last digits are b and the digits before them are a |
| Calibration.ConcatDigits | 2024/rust/day07/src/part2.rs:19-22 | joining two numbers adds their digit counts |
| Calibration.ConcatExample | 2024/rust/day07/src/part2.rs:19-22 | joining 15 and 6 gives 156 |
| Calibration.Outcomes | 2024/rust/day07/src/part2.rs:28-34 | one result per operator, in operator order |
| Calibration.Tally | 2024/rust/day07/src/part2.rs:25-36 | one candidate per candidate-operator pair; a value is a candidate exactly when some earlier candidate and operator give it |
| Calibration.CandidatesCount | 2024/rust/day07/src/part2.rs:39-43 | each factor multiplies the number of candidates by the number of operators |
| Calibration.CandidatesReach | 2024/rust/day07/src/part2.rs:39-43 | the candidates are exactly the left-to-right values of some choice of operators |
| Calibration.Eval | 2024/rust/day07/src/part1.rs:21-26 | the fold evaluates left to right; with only `+` the value is the plain sum |
| Calibration.EvalLast | 2024/rust/day07/src/part1.rs:21-26 | there is no precedence: the last operator is applied last, to the value of everything before it |
| Calibration.EvalExample | 2024/rust/day07/src/part1.rs:21-26 | `2 + 3 * 4` evaluates to 20 |
| Calibration.Solve | 2024/rust/day07/src/part1.rs:17-28 | with a single factor, the equation is true exactly when the total is that factor |
| Calibration.SolveIff | 2024/rust/day07/src/part2.rs:17-44 | the fold decides exactly whether some choice of operators makes the equation true |
| Calibration.MoreOperators | 2024/rust/day07/src/part2.rs:25-36 | an equation true with `+` and `*` stays true once `||` is allowed |
| Calibration.CalibrationSum | 2024/rust/day07/src/part1.rs:4-15 | every true equation's total is counted, nothing when none is true, and never more than all totals |
| Calibration.PartsOrdered | 2024/rust/day07/src/part2.rs:4-15 | the second sum is never below the first |
| Calibration.ParseLine | 2024/rust/day07/src/part1.rs:33-41 | a line without `:` is skipped |
| Calibration.ParseLineOf | 2024/rust/day07/src/part1.rs:33-41 | a line parses to the total before its first `:` and the numbers after it |
| Calibration.ParseJoined | 2024/rust/day07/src/part1.rs:33-41 | a plain total, `:`, a space and number words parse to that equation |
| Calibration.ParseRender | 2024/rust/day07/src/part1.rs:30-43 | an equation of `u64` numbers, written in the puzzle's format, parses back to itself |
| Antennas.LineAntennas | 2024/rust/day08/src/part1.rs:42-60 | every non-`.` character of a line is an antenna of its frequency, at its row and column |
| Antennas.MapAntennas | 2024/rust/day08/src/part1.rs:42-60 | the antennas of the map are exactly its non-`.` cells |
| Antennas.Group | 2024/rust/day08/src/part1.rs:42-60 | each frequency present has a group, holding exactly its antennas |
| Antennas.FromText | 2024/rust/day08/src/part1.rs:38-63 | the map is the input's lines, and the groups hold exactly the antennas of each frequency |
| Antennas.Pairs | 2024/rust/day08/src/part1.rs:71-82 | the pairs are exactly the ordered pairs of distinct antennas of the same frequency |
| Antennas.Signal | 2024/rust/day08/src/part1.rs:84-97 | every antinode lies on the map |
| Antennas.SignalMeans | 2024/rust/day08/src/part1.rs:84-97 | an antinode is a map cell beyond one antenna by its distance from a partner of the same frequency |
| Antennas.SignalHalfway | 2024/rust/day08/src/part1.rs:89-94 | every antinode has such a pair of antennas |
| Antennas.HalfwaySignal | 2024/rust/day08/src/part1.rs:89-94 | every map cell beyond a pair in that way is an antinode |
| Antennas.Width | 2024/rust/day08/src/part2.rs:98-103 | the width bounds every row of the map |
| Antennas.RoomShrinks | 2024/rust/day08/src/part2.rs:98-103 | each step of a ray uses up room, so the ray loop ends |
| Antennas.Ray | 2024/rust/day08/src/part2.rs:98-103 | a ray holds its start exactly when the start is on the map, and holds only map cells |
| Antennas.RayOnly | 2024/rust/day08/src/part2.rs:98-103 | every point of a ray is a whole number of steps from its start, with every point before it on the map |
| Antennas.RayReaches | 2024/rust/day08/src/part2.rs:98-103 | a ray reaches every point whose earlier points are all on the map |
| Antennas.Harmonics | 2024/rust/day08/src/part2.rs:90-107 | every antinode lies on the map |
| Antennas.HarmonicsMeans | 2024/rust/day08/src/part2.rs:90-107 | the antinodes are exactly the map cells a whole number of steps beyond an antenna, away from a partner, with the way there on the map |
| Antennas.AntennaResonates | 2024/rust/day08/src/part2.rs:90-107 | an antenna with a partner is itself an antinode |
| Antennas.SignalWithinHarmonics | 2024/rust/day08/src/part2.rs:90-107 | every antinode of part one is an antinode of part two |
| Antennas.PartsOrdered | 2024/rust/day08/src/part2.rs:111-113 | part two never counts fewer antinodes than part one |
| Disk.Parse | 2024/rust/day09/src/part1.rs:15-39 | one block per digit; on a map of digits, block k is file k/2 for even k and free space for odd k, of the digit's size |
| Disk.ParseLength | 2024/rust/day09/src/part1.rs:15-39 | every digit gives one block and nothing else does |
| Disk.ParseDigits | 2024/rust/day09/src/part1.rs:20-37 | block k is a file with id k/2 when k is even and free space when k is odd, of the digit's size |
| Disk.ParseIgnoresTail | 2024/rust/day09/src/part1.rs:15-39 | characters after the last digit, such as a line break, add no block |
| Disk.Expand | 2024/rust/day09/src/part1.rs:43-54 | a block of size s becomes s one-cell blocks of the same kind |
| Disk.Decompress | 2024/rust/day09/src/part1.rs:43-54 | the disk has one cell per unit of size, each of size one |
| Disk.DecompressAppend | 2024/rust/day09/src/part1.rs:43-54 | decompressing a concatenation decompresses its parts |
| Disk.DecompressCell | 2024/rust/day09/src/part1.rs:43-54 | each cell of the decompressed disk comes from the block that covers it |
| Disk.Checksum | 2024/rust/day09/src/part1.rs:74-84 | the sum over positions of position times file id, with free blocks adding nothing |
| Disk.ChecksumIndexed | 2024/rust/day09/src/part1.rs:74-84 | the running checksum from a start position is the indexed sum with positions shifted by that start |
| Disk.ChecksumShift | 2024/rust/day09/src/part1.rs:74-84 | starting the count some cells later adds that many cells times the sum of the file ids |
| Disk.ChecksumAppend | 2024/rust/day09/src/part1.rs:74-84 | the second part of a concatenation counts from where the first ends |
| Disk.FreeIsWorthNothing | 2024/rust/day09/src/part2.rs:88-98 | a free block adds nothing to the checksum, whatever its size |
| Disk.Files | 2024/rust/day09/src/part1.rs:56-72 | the file blocks, in order |
| Disk.FilesAppend | 2024/rust/day09/src/part1.rs:56-72 | the files of a concatenation are the files of its parts |
| Disk.LastFile | 2024/rust/day09/src/part1.rs:56-72 | the last file block, with only free space after it, or none when the disk is all free |
| Disk.Defragment | 2024/rust/day09/src/part1.rs:56-72 | the compacted disk holds only file blocks |
| Disk.DefragmentPermutes | 2024/rust/day09/src/part1.rs:56-72 | compaction only reorders the files: it keeps each one and adds none |
| Disk.DefragmentFillsFromRight | 2024/rust/day09/src/part1.rs:56-72 | a file never moves right: a file already in place stays, and every cell is filled from itself or from further right |
| Disk.Fill | 2024/rust/day09/src/part2.rs:66-78 | the backwards pass takes files that fit into the free space, leaves the blocks after it alone, and accounts for every free cell |
| Disk.ReplaceByFree | 2024/rust/day09/src/part2.rs:71-75 | moving a file out leaves free space of its size, and the disk has one file fewer |
| Disk.FillKeeps | 2024/rust/day09/src/part2.rs:66-81 | the backwards pass loses no cell and no file |
| Disk.DefragByBlock | 2024/rust/day09/src/part2.rs:56-86 | no empty free block is left |
| Disk.DefragByBlockMovesLeft | 2024/rust/day09/src/part2.rs:59-78 | whole-file compaction never moves a file right: each file is found at a block starting at or before its old start cell |
| Disk.FileFrontMovesLeft | 2024/rust/day09/src/part2.rs:61 | a file at the front stays first, and the rest is compacted behind it |
| Disk.FreeFrontMovesLeft | 2024/rust/day09/src/part2.rs:62-81 | behind a free block at the front, a file either moves into the span or stays behind it and is compacted with the rest, never moving right |
| Disk.TakenMovesLeft | 2024/rust/day09/src/part2.rs:71-72 | a file taken into the span starts within the free space it fills |
| Disk.KeptMovesLeft | 2024/rust/day09/src/part2.rs:79-81 | a file left behind starts after the span, which covers exactly the front free space |
| Disk.FillTracks | 2024/rust/day09/src/part2.rs:66-78 | the backwards pass leaves each file in place or takes it into the span |
| Disk.FillSizes | 2024/rust/day09/src/part2.rs:71-75 | the backwards pass keeps the size of every block, so the files it passes over keep their start cells |
| Disk.DefragByBlockCellsLeft | 2024/rust/day09/src/part2.rs:56-86 | in cells: a file's first cell on the expanded disk is at its start, and after compaction it has a cell at or before that |
| Disk.DefragByBlockKeeps | 2024/rust/day09/src/part2.rs:56-86 | whole-file compaction keeps the disk size and every file with its size |
| Disk.SpanKeeps | 2024/rust/day09/src/part2.rs:66-81 | filling a free span keeps its size and the files of the rest |
| Trails.TerrainOf | 2024/rust/day10/src/part1.rs:11-14 | one row of heights per line |
| Trails.RowHeads | 2024/rust/day10/src/part1.rs:16-25 | the trail heads of a row are exactly its cells of height 0, from left to right |
| Trails.HeadsFrom | 2024/rust/day10/src/part1.rs:16-25 | the trail heads from a row on are exactly its cells of height 0, in reading order |
| Trails.Heads | 2024/rust/day10/src/part1.rs:16-25 | the trail heads are every cell of height 0, each once |
| Trails.ClimbAlong | 2024/rust/day10/src/part1.rs:49-55 | each step goes to a neighbour exactly one higher |
| Trails.ClimbAlongIff | 2024/rust/day10/src/part1.rs:49-55 | the search steps to a neighbour exactly when it is one higher |
| Trails.Climb | 2024/rust/day10/src/part1.rs:49-55 | at most four steps, each one higher |
| Trails.ClimbIff | 2024/rust/day10/src/part1.rs:49-55 | the search steps exactly to the orthogonal neighbours one higher |
| Trails.Score | 2024/rust/day10/src/part1.rs:39-61 | the score is the number of height-9 cells reachable from the head by climbing |
| Trails.ReachTrans | 2024/rust/day10/src/part1.rs:39-61 | what a reachable cell reaches is reachable |
| Trails.ClosedHoldsReach | 2024/rust/day10/src/part1.rs:39-61 | once the stack is empty, the visited set holds every reachable cell |
| Trails.Rating | 2024/rust/day10/src/part2.rs:42-62 | the rating is the number of distinct climbs from the head to height 9 |
| Trails.ScoreAtMostRating | 2024/rust/day10/src/part2.rs:42-62 | every reachable 9 ends at least one climb, so the score never exceeds the rating |
| Trails.Part1 | 2024/rust/day10/src/part1.rs:65-75 | the answer is the sum of the scores of all trail heads |
| Trails.Part2 | 2024/rust/day10/src/part2.rs:66-75 | the answer is the sum of the ratings of all trail heads |
| Trails.ScoresAtMostRatings | 2024/rust/day10/src/part2.rs:66-75 | the first answer never exceeds the second |
| Stones.Rule | 2024/rust/day11/src/part1.rs:33-47 | 0 becomes 1; a number with an even digit count splits in two; any other number is multiplied by 2024 |
| Stones.SplitRecombines | 2024/rust/day11/src/part1.rs:36-44 | the two halves, put back together, give the number |
| Stones.SplitHalves | 2024/rust/day11/src/part1.rs:36-44 | the left half has exactly half the digits, and the right half at most half |
| Stones.Blink | 2024/rust/day11/src/part1.rs:28-50 | a blink never loses a stone and at most doubles the row |
| Stones.BlinkAppend | 2024/rust/day11/src/part1.rs:28-50 | blinking a row is blinking its parts |
| Stones.BlinkLength | 2024/rust/day11/src/part1.rs:28-50 | a blink adds one stone for each stone that splits |
| Stones.BlinksGrow | 2024/rust/day11/src/part1.rs:52 | the row never shrinks from one blink to a later one |
| Stones.Parse | 2024/rust/day11/src/part1.rs:10-17 | only words that parse as `u64` become stones |
| Stones.BlinkImage | 2024/rust/day11/src/part2.rs:33-67 | the blinked row holds the same stones as blinking the bag of stones, so order is irrelevant to the count |
| Stones.ImageUnion | 2024/rust/day11/src/part2.rs:37-64 | blinking a union of bags blinks each bag |
| Stones.ContentCount | 2024/rust/day11/src/part2.rs:18-23 | a counter holds, for every number, how many stones of its bag carry it |
| Stones.Bump | 2024/rust/day11/src/part2.rs:18-23 | an entry update adds to one count and leaves every other count alone |
| Stones.BumpContent | 2024/rust/day11/src/part2.rs:18-23 | adding n to an entry adds n stones of that number to the bag |
| Stones.Count | 2024/rust/day11/src/part2.rs:10-26 | the initial counter holds the multiplicity of every number in the row |
| Stones.AddReplacements | 2024/rust/day11/src/part2.rs:37-64 | carrying an entry adds what its stones become |
| Stones.BlinkCounter | 2024/rust/day11/src/part2.rs:33-67 | one blink of the counter stands for one blink of its bag |
| Stones.Total | 2024/rust/day11/src/part2.rs:68 | the sum of the counts is the number of stones |
| Stones.CountAfter | 2024/rust/day11/src/part2.rs:30-69 | the counter gives the length of the row after that many blinks |
| Stones.Part2 | 2024/rust/day11/src/part2.rs:30-69 | the answer is the number of stones after 75 blinks of the row read from the input |
| Garden.LinePlots | 2024/rust/day12/src/part1.rs:16-37 | every character of a line is a plot at its row and column |
| Garden.RowsPlots | 2024/rust/day12/src/part1.rs:16-37 | the plots are exactly the map cells from a row on, with their characters |
| Garden.FromText | 2024/rust/day12/src/part1.rs:16-37 | every map cell is a plot, holding its character |
| Garden.CompassesAreCompasses | 2024/rust/day12/src/part2.rs:12-17 | both compass lists hold the four unit steps once each |
| Garden.Windows | 2024/rust/day12/src/part2.rs:87 | each direction is paired with the next, and the last with the first |
| Garden.RoundTurns | 2024/rust/day12/src/part2.rs:12-17 | going round the second compass, each direction is a quarter turn of the one before |
| Garden.CompassOpposes | 2024/rust/day12/src/part1.rs:3-8 | the first part's order would pair south with north, which is why the second part reorders it |
| Garden.ComponentsMeet | 2024/rust/day12/src/part1.rs:50-69 | every plot of a region has the same region |
| Garden.Visit | 2024/rust/day12/src/part1.rs:58-67 | visiting takes out exactly the matching neighbours and pushes them |
| Garden.Flood | 2024/rust/day12/src/part1.rs:50-69 | the flood fill finds exactly the 4-connected region of the start and takes it out of the plots |
| Garden.FillStep | 2024/rust/day12/src/part1.rs:50-69 | visiting a new plot keeps the flood fill's invariant and records one plot of the region |
| Garden.FillDone | 2024/rust/day12/src/part1.rs:50-69 | once the stack is empty, the recorded plots are the whole region |
| Garden.Exposed | 2024/rust/day12/src/part1.rs:74-82 | a plot has at most four exposed sides |
| Garden.FindPlots1 | 2024/rust/day12/src/part1.rs:49-84 | the area is the size of the region, and the perimeter counts the exposed sides of its plots, at most four per plot |
| Garden.CornerAt | 2024/rust/day12/src/part2.rs:98-110 | one window gives at most one corner |
| Garden.Corners | 2024/rust/day12/src/part2.rs:84-113 | a plot has at most four corners |
| Garden.LoneCorners | 2024/rust/day12/src/part2.rs:107-110 | a plot whose neighbours all grow something else has four corners |
| Garden.FindPlots2 | 2024/rust/day12/src/part2.rs:52-82 | the area is the size of the region, and the sides count the corners of its plots on the unchanged map, at most four per plot |
| Garden.RegionStays | 2024/rust/day12/src/part1.rs:88-96 | a region of the plots left is a region of the whole map |
| Garden.FenceOne | 2024/rust/day12/src/part1.rs:91-94 | fencing one more region keeps the outer loop's invariant and shrinks the plots left |
| Garden.FencedAll | 2024/rust/day12/src/part1.rs:88-96 | with no plots left, every region of the map has been fenced |
| Garden.Fence1 | 2024/rust/day12/src/part1.rs:91-94 | one region costs its area times its perimeter |
| Garden.Fence2 | 2024/rust/day12/src/part2.rs:117-126 | one region costs its area times its number of sides |
| Garden.PriceNext | 2024/rust/day12/src/part1.rs:91-94 | fencing the region of a plot left adds its price |
| Garden.Process1 | 2024/rust/day12/src/part1.rs:88-96 | the answer is the sum, over every region of the map, of its area times its perimeter |
| Garden.Process2 | 2024/rust/day12/src/part2.rs:117-126 | the answer is the sum, over every region of the map, of its area times its number of sides |
| Garden.Part1 | 2024/rust/day12/src/part1.rs:88-96 | the answer for an input is the perimeter price of all its regions |
| Garden.Part2 | 2024/rust/day12/src/part2.rs:117-126 | the answer for an input is the side price of all its regions |
| Claw.QuotExact | 2024/rust/day13/src/part2.rs:51-54 | Rust's division gives the factor back from an exact multiple, whatever the signs |
| Claw.Quot | 2024/rust/day13/src/part2.rs:51-54 | Rust's division truncates toward zero: the remainder is smaller than the divisor and has the dividend's sign |
| Claw.PressesB | 2024/rust/day13/src/part2.rs:51-52 | whenever some presses land on the moved prize, Cramer's rule gives their presses of B |
| Claw.CramerB | 2024/rust/day13/src/part2.rs:51-52 | presses that land make the numerator the determinant times the presses of B, so the division is exact |
| Claw.PressesA | 2024/rust/day13/src/part2.rs:54 | whenever some presses land on the moved prize, the second equation gives their presses of A |
| Claw.CramerA | 2024/rust/day13/src/part2.rs:54 | given the presses of B, the rest of the prize's y is an exact multiple of A's y step |
| Claw.CountTokens | 2024/rust/day13/src/part2.rs:8-66 | a cost is returned exactly when the computed presses land on the moved prize, and it is 3m + n |
| Claw.CountTokensComplete | 2024/rust/day13/src/part2.rs:46-64 | whenever some presses land on the prize, the machine finds exactly those presses |
| Claw.CountTokensMeans | 2024/rust/day13/src/part2.rs:8-66 | a cost is returned exactly when some presses land on the prize |
| Claw.NegativePresses | 2024/rust/day13/src/part2.rs:56-62 | a negative number of presses is accepted: one machine's cost comes from pressing A minus thirty trillion times |
| Claw.Process | 2024/rust/day13/src/part2.rs:69-76 | the answer is the sum of the machines' costs, with nothing for a machine without one |
| Claw.CostMeans | 2024/rust/day13/src/part2.rs:8-66 | a machine adds 3m + n for the presses that land on its prize, and nothing when none do |
| Robots.Wrap | 2024/rust/day14/src/part1.rs:11 | wrapping lands on the floor |
| Robots.Step | 2024/rust/day14/src/part1.rs:10-12 | one second leaves the robot on the floor with its velocity unchanged |
| Robots.StepsClosed | 2024/rust/day14/src/part1.rs:9-13 | after k seconds a robot stands where its straight walk, position plus k times velocity, wraps to |
| Robots.QuadrantsPartition | 2024/rust/day14/src/part1.rs:16-23 | the quadrants do not overlap and miss the middle lines, and every other floor cell lies in one of them |
| Robots.CountsCover | 2024/rust/day14/src/part1.rs:18-33 | every robot on the floor is counted once, in one quadrant or on a middle line |
| Robots.Safety | 2024/rust/day14/src/part1.rs:25-33 | the safety factor is a count product, zero exactly when some quadrant is empty |
| Robots.After | 2024/rust/day14/src/part1.rs:9-13 | the simulation keeps every robot |
| Robots.Tick | 2024/rust/day14/src/part1.rs:10-12 | the in-place update moves every robot one second |
| Robots.Process | 2024/rust/day14/src/part1.rs:7-36 | the answer is the product of the quadrant counts after a hundred seconds |
| Robots.Tally | 2024/rust/day14/src/part1.rs:28-31 | the filter counts the robots in the quadrant |
| Robots.HundredSeconds | 2024/rust/day14/src/part1.rs:9-13 | after a hundred seconds each robot stands at its position plus a hundred times its velocity, wrapped |
| Common.Offset | 2024/rust/day06/src/part1/maze.rs:81-88 | a step moves the guard by one cell along exactly one axis |
| Common.Turn | 2024/rust/day06/src/part1/maze.rs:90-97 | turning right rotates the step a quarter clockwise, so the guard never keeps its direction |
| Common.FourTurnsIdentity | 2024/rust/day06/src/part1/maze.rs:90-97 | four turns bring the guard back to its direction, and no fewer do |
| Common.Digits | 2024/rust/day11/src/part1.rs:36 | the digit count k is the one with 10^(k-1) <= n < 10^k, and 1 for zero |
| Common.DigitsUnique | 2024/rust/day11/src/part1.rs:36 | no other count has that property |
| Text.FindFrom | 2024/rust/day15/src/part1.rs:17 | the first occurrence of the separator at or after a start, or none |
| Text.SplitOnce | 2024/rust/day15/src/part1.rs:17 | the text is the part before, the separator and the part after, cut at the first occurrence; no occurrence means no split |
| Text.SplitOnceJoin | 2024/rust/day07/src/part1.rs:34 | splitting recovers the parts around the first separator |
| Text.Lines | 2024/rust/day15/src/types.rs:42 | no line holds a line break, and only empty text has no lines |
| Text.LinesJoinLines | 2024/rust/day15/src/types.rs:42 | reading lines undoes writing them, one line break after each |
| Text.TrimStart | 2024/rust/day07/src/part1.rs:35 | only leading white space is removed, and all of it |
| Text.TrimEnd | 2024/rust/day07/src/part1.rs:35 | only trailing white space is removed, and all of it |
| Text.SplitWhitespace | 2024/rust/day07/src/part1.rs:37 | every piece is a non-empty run without white space |
| Text.SplitUnwords | 2024/rust/day07/src/part1.rs:37 | splitting words joined by spaces gives the words back |
| Text.ShowNatValue | 2024/rust/day07/src/part1.rs:35 | the rendering of a number reads back as that number |
| Text.ParseUnsigned | 2024/rust/day07/src/part1.rs:35 | a parsed number fits the width |
| Text.ParseShowNat | 2024/rust/day07/src/part1.rs:35 | an in-range number, rendered with or without a `+`, parses back to itself |
| Text.ParseRefuses | 2024/rust/day07/src/part1.rs:38 | empty text, a lone sign and any other non-digit are refused |
| Text.ParseSigned | 2024/rust/day02/src/part1.rs:7 | a parsed `i32` lies in the `i32` range |
| Text.ParseShowInt | 2024/rust/day02/src/part1.rs:7 | an in-range number, rendered with a `-` when negative, parses back to itself |
| Text.Naturals | 2024/rust/day07/src/part1.rs:36-39 | at most one number per word, each in range |
| Text.NaturalsShowNats | 2024/rust/day07/src/part1.rs:36-39 | rendered in-range numbers parse back to themselves, none dropped |

## Left out

- Integer widths: the model uses unbounded integers where the source uses `u32`, `u64`, `i32`, `i64` and `usize` sums and products, so an overflow that would panic in a debug build or wrap in a release build is not modelled. Parsing does honour the widths: a number that does not fit is refused, as `parse` and nom's `u32` refuse it.
- Calibration.Concat: `concat_num` computes the digit count of `b` as `floor(log10(b)) + 1` in floating point. The model uses the exact integer digit count, with one digit for zero. The two agree for zero, where `log10` gives minus infinity and the saturating cast gives 0. They may differ for values near powers of ten above 2^53, where floating point rounds.
- Manual.FixOrder: the source sorts with the library's `sort_by`. When the rules do not order the update's pages totally, the order that sort returns is unspecified, and the sort may panic. In that case the model returns the result of its own insertion sort with the same comparator: a permutation with no neighbouring pair comparing `Greater`. That is a property of the insertion sort, not a promise of the source. FixOrder matches the source only when the rules order the update's distinct pages strictly and totally (`TotalOn`). There the sorted order is unique, and Manual.FixOrderValid proves it valid.
- The nom parsers of days 5, 13 and 14 are not modelled. `Manual`, `Claw.Process` and `Robots.Process` take the parsed records. The day 3 parser is modelled because it is the puzzle.
- The example answers of the tests are not encoded. Only a few small facts are checked by proof, such as `15 || 6 == 156`.
- The iteration order of `HashMap` and `HashSet` is not modelled. Every sum over a set is shown to be independent of order (`Common.SumOverRemove`).
- Patrol.Walk and Patrol.Part1 take a fuel bound. The source's walk ends only because the guard leaves the map. The model says the answer exists exactly when the guard has left within the fuel.
- Patrol.Part2 takes the same fuel for its initial walk. The loop test itself needs no fuel: it is bounded by the finite set of guard states.
- Patrol.CountLoops: the exact count is claimed only when the path's cells are open. For the walk of a map with a guard and no `O` this is proved in `Patrol.PathOpen`.
- Garden: `Planted` asks that no plot hold `.`. The source uses `.` as its removal marker, so a `.` plot would make its flood fill misbehave. Puzzle maps hold only letters.
- Garden: the number of corners of a region is not proved equal to its number of sides. The model proves the price the source computes: area times the corner count.
- Trails: characters that are not digits are dropped from a row, as `to_digit` with `filter_map` does. The columns of later characters then shift, as in the source.
- Search, Patrol.FromText and Antennas.FromText: the source reads the maps as bytes (`line.bytes()` in day04, in day06 `part1/maze.rs:13` and `part2/maze.rs:14`, and in day08 `part1.rs:39` and `part2.rs:45`) and the model reads characters; the two agree on ASCII maps. `Scannable` asks that no row be shorter than the first row, because the source indexes `bytes[row][col]` up to the first row's length and would panic otherwise.
- Claw.CountTokens: the source does not ask for a non-negative number of presses, and neither does the model (`Claw.NegativePresses`). `Solvable` rules out a zero determinant or a zero `a.y`, where the source panics on division by zero.
- Robots: the second part, which searches for a picture, is not modelled. `GRID_SIZE` is chosen by `cfg!(test)` in the source. The model takes the size as a parameter and names both values.
- The `Display` implementations, the binary entry points, the tracing attributes and day 16 are not modelled. Nor are the first part of day 13 and the day 12 part-one playground (`part1pg.rs`, which uses petgraph's `condensation`).
- The warehouses' `height` and `width` only serve rendering and are not kept.
- Wide.FromText: the source's `unreachable!()` for a character outside `#`, `O`, `@`, `.` is modelled as `None`. `Narrow.Parse` and `Wide.Parse` give `None` where the source panics on a bad move character.
- Wide.MoveRobot and Wide.Simulate ask for a valid warehouse: paired halves and the robot on floor. A warehouse read from a map that shows the robot is valid (`Wide.FromText`). `Wide.Process` asks that the map show the robot.
- Narrow.Process, Wide.Process, Disk.CellChecksum, Disk.FileChecksum, Reports.Part1, Reports.Part2, Manual.Part1, Manual.Part2, Calibration.Part1, Calibration.Part2, Antennas.Part1, Antennas.Part2 and Stones.Part1 compose the modelled operations without `ensures` of their own. Their properties are the lemmas about their parts, such as `Reports.PartsOrdered` and `Antennas.PartsOrdered`. Some of them carry a `requires` that stands for a panic of the source:
  - Manual.Part1 asks that no update be empty, because `update[update.len() / 2]` panics on an empty update (day05 `part1.rs:93-94`). `Manual.Middle` asks the same. Every parsed manual meets this requirement: `separated_list1` reads at least one page per update (day05 `part1.rs:81`, `part2.rs:77`). Manual.Part2 needs no such requirement. An empty update is valid (`Manual.EmptyUpdateValid`), and part two takes the middle only of invalid updates (`part2.rs:87-91`).
  - Calibration.Part1 and Calibration.Part2 ask that every parsed equation have a factor (`HasFactors`). A line such as `5:` parses to a total with no factors, and `factors[0]` then panics (day07 `part1.rs:21`, `part2.rs:42`).
  - Wide.Process asks that the map show the robot, as stated above.
