# Advent of Code 2019 in Rust (days 1 to 5), modelled in Dafny

This project models the puzzle solutions of an Advent of Code 2019 repository written in Rust, and proves properties about them.

- **Day 1: fuel.** The fuel for a module is a third of its mass, rounded toward zero, less two. The answer is the sum over all modules.
- **Day 2: the minimal Intcode machine.** It has add, multiply and halt, uses position mode only, and always moves four words. `part1` patches in the noun 12 and the verb 2. `part2` searches nouns and verbs from 0 to 98 for the run that leaves 19690720 in cell 0.
- **Day 3: two wires on a grid.**
  - Parsing `U16,U07,...` into moves.
  - The `GridVector` iterator over the points of one move.
  - The map from each visited point to the number of steps taken to first reach it.
  - The crossing nearest the origin, by Manhattan distance and by combined steps.
- **Day 4: password rules.** The digits of the number's decimal display must never decrease and must contain a doubled digit (part one) or a run of exactly two (part two). The answers count the valid numbers in a range.
- **The extended Intcode machine** of `src/intcode.rs`, which day 5 runs:
  - opcode and mode-digit decoding;
  - operand fetch, where a destination is always read raw;
  - the nine instructions;
  - `run_program`, which faults when an instruction follows a nonzero output and returns the last output.

Every Rust panic is an explicit error value in the model: `unwrap` on `None`, an index out of range, an unknown opcode or mode digit, `min()` of nothing, or a slice past the end of a string. Rust's `/` and `%` truncate toward zero. `Arith.TruncDiv` and `Arith.TruncRem` model them, so a negative instruction word never decodes. A negative `i32` cast to `usize` is an out-of-range address. Values are unbounded integers.

The modules, one per file:

| module | file | models |
|---|---|---|
| `Results` | `results.dfy` | `Option` and `Result` |
| `Arith` | `arith.dfy` | truncating division and remainder; powers of ten |
| `Text` | `text.dfy` | `i32` display and parsing, `to_digit`, `split` |
| `Loops` | `loops.dfy` | a fuel-bounded driver, with invariant and simulation lemmas |
| `Intcode` | `intcode.dfy` | `src/intcode.rs` |
| `IntcodeFacts` | `intcode_facts.dfy` | its properties and test vectors |
| `MinimalIntcode` | `minimal_intcode.dfy` | `src/bin/day2/main.rs` |
| `Fuel` | `fuel.dfy` | `src/bin/day1/main.rs` |
| `Wires` | `wires.dfy` | `src/bin/day3/main.rs` |
| `Passwords` | `passwords.dfy` | `src/bin/day4/main.rs` |

## Model

| member | source | states |
|---|---|---|
| Intcode.DecodeOpcode | src/intcode.rs:29-42 | The word decodes exactly when its truncated remainder modulo 100 is one of 1..8 or 99. The opcode's number is that remainder. Only positive words decode, and any other word is a `BadOpcode` fault. |
| IntcodeFacts.DecodeCode | src/intcode.rs:29-42 | Decoding inverts each opcode's number, whatever mode digits sit above it. |
| IntcodeFacts.DecodeByRemainder | src/intcode.rs:29-30 | The decoded opcode depends on the word only through its truncated remainder. |
| IntcodeFacts.DecodeExamples | src/intcode.rs:23-28 | 12304 is Out, 12301 is Add and 12399 is Stop. -1, -99 and 100 are faults. |
| Intcode.OperandMode | src/intcode.rs:164-176 | A destination (the last operand of a writing opcode) is read immediate and its digit is never checked. Otherwise digit 0 means position mode, 1 means immediate, and any other digit is a `BadMode` fault carrying that digit. |
| Intcode.Arity | src/intcode.rs:119-131 | No opcode has more than three operands, and only Stop has none. |
| Intcode.Writes | src/intcode.rs:133-145 | Every writing opcode has an operand to write through. Stop, Out and both jumps write nothing. |
| Intcode.Operand | src/intcode.rs:164-185 | An immediate operand is `mem[pc+i]`. A position operand is `mem[mem[pc+i]]`, with both addresses in range. The faults come in the order the source raises them: a bad mode digit, then the operand's own address outside memory, then, in position mode, the address it holds outside memory. |
| Intcode.Args | src/intcode.rs:153-189 | `get_args` yields exactly `num_args` values, the i-th being operand i. A writing opcode's last value is the raw cell `mem[pc+arity]`. Stop faults with `StopHasNoArguments`. |
| Intcode.GetArgs | src/intcode.rs:153-189 | The source's loop, which shifts the mode digits right one place per operand, computes `Args`, faults included. |
| Intcode.ReadOperands | src/intcode.rs:159-188 | The `for` loop over operands 1 to `num_args` gives the values read left to right, or the fault of the first operand that fails. |
| Intcode.ReadOperand | src/intcode.rs:160-186 | One pass of that loop reads operand `i` with the current lowest mode digit, then shifts the mode digits right one place. |
| IntcodeFacts.ArgsFromOperands | src/intcode.rs:153-189 | The operand read yields `vals` if and only if each operand reads as the matching element of `vals`. |
| IntcodeFacts.DestinationDigitIgnored | src/intcode.rs:164-176 | Two words that agree on every non-destination mode digit read the same operands. |
| IntcodeFacts.GetArgsExample | src/intcode.rs:147-152 | `1002,4,3,4,33` is a multiply whose operands are `[33,3,4]`. |
| IntcodeFacts.DestinationDigitExample | src/intcode.rs:166-170 | A mode digit of 2 above a destination (`21101`) is no fault. |
| IntcodeFacts.BadModeExample | src/intcode.rs:171-175 | A mode digit of 2 above a value operand (`201`) is `BadMode(2)`. |
| Intcode.Execute | src/intcode.rs:70-117 | The per-opcode effects of `run_instruction`. A writing opcode changes only its destination cell: Add and Mul store the sum and product, Mov stores the input, Lt and Eq store 1 or 0 by the comparison. Other opcodes leave memory alone. A taken jump sets the pointer, and everything else moves it by `arity + 1`. Only Out emits. |
| Intcode.Step | src/intcode.rs:70-117 | One instruction: every operand is read before anything is written. Stop never executes and memory keeps its length. At most the destination cell changes. Once the operands read, the effect is exactly `Execute`'s for the opcode. Decode and operand faults surface unchanged. |
| Intcode.StepSucceeds | src/intcode.rs:70-117 | An instruction succeeds if and only if its operands read, an input instruction has an input, and a writing opcode's destination lies inside memory. |
| Intcode.Pass | src/intcode.rs:52-62 | One turn of `run_program`'s loop. Stop halts with the pending output and the memory. Any other instruction faults with `OutputProtocol` when the pending output is nonzero. Otherwise the turn continues exactly when the instruction steps, an output replaces the pending one, and a failing step ends the run with its fault. |
| Intcode.RunProgram | src/intcode.rs:44-64 | A run starts at address 0 with output 0. An empty tape faults at address 0, and a halted run's memory is as long as the tape. |
| IntcodeFacts.MoreFuel | src/intcode.rs:52-62 | Once a run halts or faults, more fuel gives the same outcome. |
| IntcodeFacts.HaltedReturnsLastOutput | src/intcode.rs:44-64 | A halted `run_program` returns the last value the program output (0 if none), every earlier output was 0, and the memory is that of an unchecked reference run that records all outputs. |
| IntcodeFacts.QuietRunHalts | src/intcode.rs:44-64 | Conversely, a reference run that halts after outputting only zeros is a `run_program` run that halts with output 0. |
| IntcodeFacts.NoisyRunFaults | src/intcode.rs:52-57 | With a nonzero output pending, an instruction other than Stop ends the whole run with `OutputProtocol` of that output. |
| IntcodeFacts.NoisyAddExample | src/intcode.rs:44-64 | `104,5,1101,0,0,7,99,0` shows why `QuietRunHalts` asks for all-zero outputs. Its reference run halts with the single output 5, but `run_program` faults at the add after the output. |
| IntcodeFacts.MissingInputExample | src/intcode.rs:83 | An input instruction without an input is a `MissingInput` fault. |
| IntcodeFacts.InputExample | src/intcode.rs:83 | With input 7, `3,0,99` stores 7 into cell 0. |
| IntcodeFacts.OutputThenStopExample | src/intcode.rs:52-63 | A nonzero output followed by Stop is the result. |
| IntcodeFacts.OutputProtocolExample | src/intcode.rs:53-55 | A nonzero output followed by another instruction is an `OutputProtocol` fault. |
| IntcodeFacts.ZeroOutputExample | src/intcode.rs:53-58 | A zero output may be followed by more instructions, and the last output wins. |
| IntcodeFacts.SelfModifyingExample | src/intcode.rs:147-152 | `1002,4,3,4,33` overwrites cell 4 with 99 and halts there. |
| IntcodeFacts.EqualsEightExample | src/intcode.rs:104-110 | `3,9,8,9,10,9,4,9,99,-1,8` outputs 1 for input 8 and 0 for input 7. |
| IntcodeFacts.JumpExample | src/intcode.rs:85-96 | A jump-if-nonzero with immediate operands is taken for input 5 (output 1). It is not taken for input 0, which runs the add that clears the output cell (output 0). |
| IntcodeFacts.JumpIfZeroExample | src/intcode.rs:91-96 | A jump-if-zero with immediate operands is taken for input 0 (output 1). It is not taken for input 5, which runs the add that clears the output cell (output 0). |
| MinimalIntcode.StepAt | src/bin/day2/main.rs:23-31 | The three operand cells are read first, then the opcode is checked: 1 or 2, or a `BadOpcode` fault. Only the destination cell changes, to the sum or product of the pre-step operand cells. Any address outside memory is a fault. |
| MinimalIntcode.Run | src/bin/day2/main.rs:19-35 | A halted run keeps the memory's length. A 99 at the position returns the memory unchanged, and a position past the end is a fault. |
| MinimalIntcode.RunIsSteps | src/bin/day2/main.rs:19-35 | A halted run is some number `k` of steps at `pos`, `pos+4`, ..., none of them at a 99, ending at the 99 at `pos+4k`. |
| MinimalIntcode.RunProgram | src/bin/day2/main.rs:16-36 | The run from position 0 of the model's own copy of the tape. A tape that starts with 99 comes back unchanged. |
| MinimalIntcode.AddExample | src/bin/day2/main.rs:3-6 | `1,0,0,0,99` ends as `2,0,0,0,99`. |
| MinimalIntcode.MultiplyExample | src/bin/day2/main.rs:7-10 | `2,4,4,5,99,0` ends as `2,4,4,5,99,9801`. |
| MinimalIntcode.SelfModifyingExample | src/bin/day2/main.rs:11-14 | `1,1,1,4,99,5,6,0,99` ends as `30,1,1,4,2,5,6,0,99`. |
| MinimalIntcode.Patch | src/bin/day2/main.rs:39-41 | Cells 1 and 2 become the noun and the verb, and nothing else changes. A tape shorter than 3 faults at the first missing cell. |
| MinimalIntcode.Part1 | src/bin/day2/main.rs:38-43 | Cell 0 of the run of the tape patched with 12 and 2, or the fault of the patch or the run. |
| MinimalIntcode.SearchFromSound | src/bin/day2/main.rs:51-60 | The search in noun-then-verb order over 0..98 has three results. A found candidate hits, and every candidate before it runs and misses. `None` means every candidate misses. A fault comes from a candidate whose run faults, with every candidate before it missing. |
| MinimalIntcode.Part2Answer | src/bin/day2/main.rs:45-62 | For a tape of at least three cells, `part2` is `100*noun+verb` of the first candidate whose run leaves 19690720 in cell 0. It is 0 when every run misses, and otherwise the fault of the first faulting run. A shorter tape faults at the patch. |
| MinimalIntcode.Part2Search | src/bin/day2/main.rs:45-62 | `part2` reports exactly what the search finds. |
| MinimalIntcode.RunCandidate | src/bin/day2/main.rs:53-58 | One candidate's run decides the search: a fault ends it, a hit is the answer and a miss moves to the next verb. |
| MinimalIntcode.SearchFrom | src/bin/day2/main.rs:51-60 | A candidate the search finds lies in the range 0..98 for both noun and verb, and does not come before the candidate the search started from. |
| MinimalIntcode.TryVerbs | src/bin/day2/main.rs:52-59 | The inner loop for one noun agrees with the search, and when every verb misses the search continues with the next noun. |
| MinimalIntcode.Part2Loops | src/bin/day2/main.rs:45-62 | The two nested loops with their early exit compute `Part2`. |
| MinimalIntcode.StepAgrees | src/bin/day2/main.rs:23-31 | An add or multiply of the minimal machine is one pass of the extended machine to the same memory, four words on. |
| MinimalIntcode.RunProgramAgrees | src/bin/day2/main.rs:16-36 | Every tape the minimal machine runs to completion halts, with enough fuel, on the extended machine with the same memory and output 0. |
| Fuel.FuelFor | src/bin/day1/main.rs:9-15 | The fuel is the mass divided by 3, rounded toward zero, less 2. It is stated as bounds on `3*(fuel+2)` for both signs of the mass. |
| Fuel.FuelExamples | src/bin/day1/main.rs:1-7 | 12 and 14 need 2, 1969 needs 654 and 100756 needs 33583. |
| Fuel.FuelMonotone | src/bin/day1/main.rs:9-15 | A heavier module never needs less fuel. |
| Fuel.FuelOfBlock | src/bin/day1/main.rs:9-15 | Masses `3k`, `3k+1` and `3k+2` all need `k-2`. |
| Fuel.FuelLowerBound | src/bin/day1/main.rs:9-15 | A module of non-negative mass needs at least -2. |
| Fuel.TotalFuel | src/bin/day1/main.rs:17-20 | The total is 0 for no modules and at least `-2` per module of non-negative mass. |
| Fuel.TotalFuelAppend | src/bin/day1/main.rs:17-20 | The total over a concatenation is the sum of the totals. |
| Fuel.TotalFuelAtLeast | src/bin/day1/main.rs:17-20 | Modules of mass 9 or more need at least one unit each. |
| Fuel.SumFuel | src/bin/day1/main.rs:17-20 | The front-to-back sum computes `TotalFuel`. |
| Wires.ParseDirection | src/bin/day3/main.rs:26-38 | Exactly `U`, `D`, `L` and `R` parse, each to the direction of that name. Anything else is `BadDirection`. |
| Wires.ParseName | src/bin/day3/main.rs:26-38 | Parsing a direction's name gives the direction back. |
| Wires.Manhattan | src/bin/day3/main.rs:112-114 | The distance is a natural number, and it is 0 exactly for equal points. |
| Wires.ManhattanMetric | src/bin/day3/main.rs:112-114 | The distance is symmetric and obeys the triangle inequality. |
| Wires.ManhattanShift | src/bin/day3/main.rs:112-114 | `k` steps in one direction cover a distance of `abs(k)`. |
| Wires.ManhattanExamples | src/bin/day3/main.rs:105-111 | The four test distances. |
| Wires.NewVector | src/bin/day3/main.rs:51-58 | A fresh vector keeps its origin, direction and distance, and its cursor sits on the line with no progress. So it is finished at once exactly when its distance is 0. |
| Wires.IterIsFinished | src/bin/day3/main.rs:60-67 | With the cursor on the line, the iterator is finished exactly when the cursor is `distance` steps along it. |
| Wires.Next | src/bin/day3/main.rs:88-102 | A finished iterator returns `None` and resets its cursor to the origin. Otherwise the cursor moves one step along the line and is returned. |
| Wires.Collect | src/bin/day3/main.rs:82-103 | From a cursor `j` steps along, the iterator produces `distance - j` points: the origin moved `j+1`, `j+2`, ... steps. |
| Wires.CollectIsSegment | src/bin/day3/main.rs:50-58 | A fresh vector of distance `n >= 0` produces exactly the `n` points after its origin. |
| Wires.IteratorExamples | src/bin/day3/main.rs:70-81 | U3 from the origin gives `(0,1),(0,2),(0,3)`, and L5 gives `(-1,0)` through `(-5,0)`. These are the points the test's `last` and `nth` pick from. |
| Wires.NegativeNeverFinishes | src/bin/day3/main.rs:60-67 | A vector with a negative distance is never finished: every call of `next` moves its cursor one step further from the end. |
| Wires.TraceSnoc | src/bin/day3/main.rs:134-142 | Each move's points start where the previous move ended, and the wire's end moves by the whole move. |
| Wires.RecordKeeps | src/bin/day3/main.rs:139 | `or_insert` never changes the step count of a point already in the map. |
| Wires.RecordFirstAt | src/bin/day3/main.rs:137-141 | A new point gets the step count of its first occurrence. |
| Wires.RecordKeys | src/bin/day3/main.rs:137-141 | The map's keys are the old keys plus the points recorded. |
| Wires.RecordRange | src/bin/day3/main.rs:137-141 | A point new to the map gets a step count after the steps already taken and no later than the last point recorded. |
| Wires.Visited | src/bin/day3/main.rs:129-144 | The map's keys are exactly the points the wire passes through. Every step count is at least 1 and at most the number of points on the wire. |
| Wires.TraceLength | src/bin/day3/main.rs:134-142 | The wire passes through one point per step: the number of points is the sum of the move distances. |
| Wires.VisitedFirst | src/bin/day3/main.rs:129-144 | `find_points_visited` holds exactly the points the wire passes through. Each maps to one plus the index of its first occurrence, which is the cumulative step count when it is first reached. |
| Wires.FindPointsVisited | src/bin/day3/main.rs:129-144 | The source's nested loops compute `Visited`. |
| Wires.VisitSegment | src/bin/day3/main.rs:136-141 | The inner loop records one move's points after the earlier ones and ends at the move's end. |
| Wires.VisitedExample | src/bin/day3/main.rs:116-128 | U3,L2 visits `(0,1):1, (0,2):2, (0,3):3, (-1,3):4, (-2,3):5`. |
| Wires.VisitedWithinReach | src/bin/day3/main.rs:129-144 | A point's step count is at least its distance from the origin, and at most the sum of the wire's move distances. |
| Wires.CrossingList | src/bin/day3/main.rs:171-172 | The points of the second wire's map that the first wire's map holds are exactly the crossings. |
| Wires.Part1 | src/bin/day3/main.rs:168-175 | `NoIntersection` exactly when the wires never cross. Otherwise it is the distance from the origin of some crossing, and no crossing is nearer. |
| Wires.Part2 | src/bin/day3/main.rs:177-189 | `NoIntersection` exactly when the wires never cross. Otherwise it is the combined first-visit step count of some crossing, and no crossing has fewer. |
| Wires.Part2AtLeastTwicePart1 | src/bin/day3/main.rs:168-189 | The two parts succeed together, and part two is at least twice part one. |
| Wires.ParsePiece | src/bin/day3/main.rs:163-164 | An empty piece is `EmptyPiece`. A bad first character is `BadDirection`. A piece parses exactly when its first character names a direction and the rest parses as an `i32`, and then the direction's name followed by that rest is the piece. |
| Wires.ParsePieces | src/bin/day3/main.rs:162-165 | One move per piece, in order. An error is the error of the first piece that fails, since the lazy `collect` panics there and never reaches later pieces. |
| Wires.ParseWire | src/bin/day3/main.rs:161-166 | One move per comma-separated piece, each the parse of the piece at its place. An error is that of the first piece that fails. |
| Wires.FirstBadPieceExample | src/bin/day3/main.rs:161-166 | `X1,` fails on the direction of `X1`, not on the empty piece after the comma. |
| Wires.ParsePiecesEach | src/bin/day3/main.rs:162-165 | Pieces that each parse make the list parse to their moves. |
| Wires.ParseShowWire | src/bin/day3/main.rs:161-166 | Parsing the text of any non-empty list of moves gives the moves back. |
| Wires.ParseWireExample | src/bin/day3/main.rs:146-160 | `U16,U07,U1,R9,L6,D9` parses to `(U,16),(U,7),(U,1),(R,9),(L,6),(D,9)`. |
| Text.LeadingZeroParse | src/bin/day3/main.rs:164 | `parse::<i32>` accepts leading zeros, so `07` reads as 7. |
| Text.ParseInt | src/bin/day3/main.rs:164 | `parse::<i32>` accepts an optional sign and at least one digit. An empty string is the `Empty` error. Unsigned and `+` digits read as their decimal value, and `-` digits as its negation. |
| Text.Show | src/bin/day4/main.rs:15 | `to_string` gives a minus sign exactly for negatives, no comma, and a string that parses back to the value. There is no padding: only zero itself starts with a 0, and no 0 follows the sign. |
| Text.SplitJoin | src/bin/day3/main.rs:162 | Splitting on the separator undoes joining pieces that do not contain it. |
| Text.Split | src/bin/day3/main.rs:162 | `split` gives at least one piece, none of which contains the separator, and joining the pieces with the separator gives the string back. |
| Text.DigitValue | src/bin/day4/main.rs:17 | `to_digit(10)` has a value exactly for `0`..`9`, and the value displays as that character. |
| Passwords.DigitsOf | src/bin/day4/main.rs:15-18 | The value of each character, or `NotADigit` with the first character that is not a digit, where `map(..unwrap())` panics. |
| Passwords.Digits | src/bin/day4/main.rs:15-18 | A password has digits exactly when it is non-negative, and their value is the password. There is no leading 0 except for zero itself. A negative password is `NotADigit('-')`. |
| Passwords.AscendingSorted | src/bin/day4/main.rs:25 | Each digit at most the next if and only if the whole list is in order. |
| Passwords.AnyAdjacentEqual | src/bin/day4/main.rs:25 | True exactly when some digit equals the one before it. |
| Passwords.IsValidPart1 | src/bin/day4/main.rs:14-26 | `NotADigit('-')` exactly for negatives. Otherwise valid if and only if the digits are in order and some two adjacent ones are equal. |
| Passwords.Part1Examples | src/bin/day4/main.rs:3-13 | 111111 and 111123 are valid. 223450 and 123789 are not. |
| Passwords.Scan | src/bin/day4/main.rs:61-74 | The loop panics only on fewer than six digits, and then at the index one past the last digit it reaches. |
| Passwords.ScanFinds | src/bin/day4/main.rs:61-74 | From position `i`, the loop answers `true` exactly when a run of exactly two ends at or after `i-1`. Otherwise it answers `false` on six or more digits, and on fewer it panics at the index one past the end. |
| Passwords.RepeatedExactlyOnce | src/bin/day4/main.rs:61-74 | On six or more digits, whether one of the first six closes a run of exactly two. On fewer digits, `true` if such a run ends before the last digit, and otherwise the index panic. |
| Passwords.RepeatedExactlyOnceExamples | src/bin/day4/main.rs:48-60 | The eight test vectors, plus `112233` and `111122`. |
| Passwords.IsValidPart2 | src/bin/day4/main.rs:38-46 | Negatives are `NotADigit('-')`, and a valid password's digits are in order. On six or more digits it is valid if and only if they are in order and the first six hold a run of exactly two. On fewer digits, digits out of order are invalid without the scan running, because `&&` short-circuits; digits in order get the scan's answer or its panic. |
| Passwords.Part2Examples | src/bin/day4/main.rs:28-37 | 112233 and 111122 are valid. 123444 is not. |
| Passwords.SixDigits | src/bin/day4/main.rs:15-18 | A password of at least 100000 has at least six digits. |
| Passwords.Part2ImpliesPart1 | src/bin/day4/main.rs:44-45 | For passwords of at least 100000, both checks succeed, and part-two validity implies part-one validity. |
| Passwords.CountValid | src/bin/day4/main.rs:76-78 | The count fails exactly when some number in the range panics. Otherwise it is the number of elements of the set of numbers in the range that the rule accepts, so at most the range's length. |
| Passwords.AcceptedFrom | src/bin/day4/main.rs:76-78 | Removing the lowest number from the range removes it from the accepted set, and that set shrinks by one exactly when the rule accepts that number. |
| Passwords.CountSplit | src/bin/day4/main.rs:76-78 | Counting over two adjacent ranges adds up. |
| Passwords.CountMonotone | src/bin/day4/main.rs:76-82 | A rule that holds wherever another holds counts at least as many. |
| Passwords.Part1 | src/bin/day4/main.rs:76-78 | Fails exactly when the range holds a negative number. Otherwise it is the number of part-one-valid numbers in the range, so at most the range's length. |
| Passwords.Part2 | src/bin/day4/main.rs:80-82 | Fails when the range holds a negative number. Otherwise it is the number of part-two-valid numbers in the range, so at most the range's length. |
| Passwords.Part2AtMostPart1 | src/bin/day4/main.rs:76-82 | Over numbers of at least 100000, neither part fails, and part two counts no more than part one. |

## Left out

- The `main` functions, the embedded puzzle inputs and the printed answers: this is I/O.
- `src/bin/day5/main.rs` only calls `run_program` with input 1, so it is not a separate model. The `util` crate's input parsing is not part of this model.
- `i32` overflow. Every value is an unbounded integer, so a debug-build panic or a release-build wrap on overflow is not modelled. This covers sums, products, `travelled`, fuel totals and the range check of `parse::<i32>`, which accepts any size of number here.
- A negative address or jump target is cast to `usize` in the source and then panics as an index out of range. The model reports the negative value itself in `AddressOutOfRange`, not the wrapped `usize`.
- `Intcode.RunProgram`: the extended machine may loop forever. Runs take a fuel bound, and `OutOfFuel` stands for "not finished within that many instructions".
- `Wires.Part1`: day 3 functions require every move distance to be non-negative (`Drawable`). With a negative distance the source's iterator never finishes, as `Wires.NegativeNeverFinishes` shows, until `i32` overflow, so those inputs have no result to model.
- `Wires.IteratorExamples`: the source's test calls the iterator adapters `last` and `nth`. The lemma states the test on the segment that a fresh iterator produces, as shown by `Wires.CollectIsSegment`.
- `Passwords.Part2`: the failure case is stated in one direction only (a negative number in the range makes it fail). On numbers below 100000, failure also depends on the digits, as `Passwords.RepeatedExactlyOnce` states.
- `MinimalIntcode.RunProgramAgrees` goes one way only, from the minimal machine to the extended one. A tape the minimal machine faults on may still run on the extended machine, because that machine knows more opcodes and modes.
- Slicing `s[0..1]` in `parse_wire_to_vec` panics on a first character wider than one byte. Strings here are sequences of characters, so this case is not modelled.
- The `BTreeMap` and its iteration order, and the minimum's iteration order. The maps are Dafny `map`s and only the minimum value is stated.
- Panic messages are not modelled; each panic is a distinct error constructor.
