# Advent of Code 2019, days 1 to 6, in Dafny

This project is a verified model of the puzzle solutions in the Rust
repository `advent-of-code-2k19`. It covers days 1 to 6, with part 1 only for
day 6. Each Rust file becomes one Dafny module, and every operation keeps the
form the Rust code gives it:

- pure folds and recursion become functions;
- loops that update variables or vectors in place become methods with loop
  invariants, proved against those functions;
- the day 5 interpreter becomes a class over an `array<int>`.

| module | file | models |
|---|---|---|
| `Results` | results.dfy | `Option` and `Result` |
| `Text` | text.dfy | the standard-library text operations the solutions call: `split`, `trim`, `lines`, `parse` for `u32`, `usize` and `i32`, and `to_string` of a number |
| `Fuel` | fuel.dfy | day 1: fuel for module masses, `src/day1.rs` |
| `ProgramAlarm` | program_alarm.dfy | day 2: the add and multiply interpreter and the noun and verb search, `src/day2.rs` |
| `Wires` | wires.dfy | day 3: two wires on a grid, `src/day3.rs` |
| `Passwords` | passwords.dfy | day 4: the password rules and the range filter, `src/day4.rs` |
| `IntcodeDigits` | intcode_digits.dfy | day 5: `digits`, `src/day5/utils.rs` |
| `IntcodeOperations` | intcode_operations.dfy | day 5: instruction decoding, `src/day5/operations.rs` |
| `IntcodeMachine` | intcode_machine.dfy | day 5: the interpreter loop, `src/day5/mod.rs` |
| `Orbits` | orbits.dfy | day 6: the orbit map and the orbit count, `src/day6.rs` |

A Rust panic becomes an explicit error value: `None`, or a `Fault` in day 5.
That covers a failed `unwrap`, an index out of range and `unreachable!()`.

The day 5 model follows the code, which differs from the puzzle's Intcode rules
in four ways:

- **No halt.** Opcode 99 has units digit 9, which the decoder rejects. So
  every run that ends, ends in a panic, and `solve_part1` and `solve_part2`
  return -1.
- **Always a four-word window.** Every step slices four words at the index,
  including the two-word instructions and 99.
- **A jump target of -1 is always taken.** A jump or comparison compares
  `operate`'s answer with its target, and -1 is also the "not taken" answer.
- **Only the units digit selects the instruction.** The tens digit is never
  read.

`opcode_digits` formats the word, maps each character to its digit and
reverses the list. The model states it by division, and
`IntcodeOperations.OpcodeDigitsIsTextual` proves that this equals the textual
pipeline for every word.

## Model

| member | source | states |
|---|---|---|
| Fuel.Quotient | src/day1.rs:33 | Rust's `/` rounds toward zero: bounds of the quotient for non-negative and negative dividends |
| Fuel.BaseFuel | src/day1.rs:32-34 | the base fuel is a third of the mass rounded toward zero, minus 2, stated as bounds for both signs of the mass |
| Fuel.FuelFor | src/day1.rs:36-42 | the fuel with surcharge is never negative; it is 0 when the base fuel is negative and at least the base fuel otherwise; the recursion terminates |
| Fuel.MapFuel | src/day1.rs:29 | `map` keeps the length and applies the fuel function at every index |
| Fuel.SolvePart1 | src/day1.rs:11-17 | the left fold adding the base fuel of each mass. No contract of its own: `Fuel.FoldIsSum`, `Fuel.Part2AtLeastPart1` and `Fuel.SolveExamples` state it |
| Fuel.SolvePart2 | src/day1.rs:19-25 | the left fold adding the fuel with surcharge of each mass. No contract of its own: `Fuel.FoldIsSum`, `Fuel.Part2AtLeastPart1` and `Fuel.SolveExamples` state it |
| Fuel.SolvePart2InParallel | src/day1.rs:27-30 | the sum of the mapped fuels with surcharge. No contract of its own: `Fuel.ParallelMatchesSequential` ties it to `Fuel.SolvePart2` |
| Fuel.FoldIsSum | src/day1.rs:12-25 | the left fold from an accumulator equals the accumulator plus the sum of the mapped fuels |
| Fuel.ParallelMatchesSequential | src/day1.rs:20-30 | the parallel map and sum equals the sequential fold of part 2 |
| Fuel.Part2AtLeastPart1 | src/day1.rs:11-25 | the part 2 total is never below the part 1 total |
| Fuel.BaseFuelExamples | src/day1.rs:58-63 | the unit test values 12→2, 14→2, 1969→654 and 100756→33583 |
| Fuel.FuelUnfold | src/day1.rs:37-41 | one unfolding of the surcharge recursion |
| Fuel.FuelExamples | src/day1.rs:66-71 | the unit test values 12→2, 14→2, 1969→966 and 100756→50346 |
| Fuel.SolveExamples | src/day1.rs:74-83 | the unit test totals of both parts for the four example masses |
| Fuel.InputGenerator | src/day1.rs:4-9 | `lines`, then a trimmed `i32` parse of each line, any failure panicking. No contract of its own: `Fuel.InputGeneratorReadsMasses` states its round trip and `Fuel.InputGeneratorExample` its unit test |
| Fuel.InputGeneratorReadsMasses | src/day1.rs:4-9 | any non-empty list of `i32` masses, printed one per line with or without a line feed after the last, is read back as those masses |
| Fuel.MassLine | src/day1.rs:7 | a printed `i32` holds no line feed, and trimming and parsing it gives the number back |
| Fuel.InputGeneratorExample | src/day1.rs:4-9 | the generator's unit test: `"1\n3\n4\n"` reads as `[1, 3, 4]` |
| Fuel.ParseSingleDigit | src/day1.rs:7 | a trimmed one-digit line parses as that digit |
| ProgramAlarm.Execute | src/day2.rs:19-31 | the loop over a memory rewritten step by step: a full four-word window, 99 returns cell 0, 1 and 2 store a sum or product, anything else panics. No contract of its own: `ProgramAlarm.SolveWithParams` proves the in-place array loop equal to it, and `HaltNeedsWindow`, `UnknownOpcodePanics` and `ExampleProgram` fix its halt, panics and arithmetic |
| ProgramAlarm.Run | src/day2.rs:14-18 | a copy of the program with cells 1 and 2 set to noun and verb, run from index 0; too short a program panics on the writes. No contract of its own: `ProgramAlarm.SolveWithParams` is its in-place counterpart |
| ProgramAlarm.SolveWithParams | src/day2.rs:14-33 | the in-place loop on a copied array returns exactly what the recursive `Execute` gives for the input with cells 1 and 2 set to noun and verb |
| ProgramAlarm.SolvePart1 | src/day2.rs:10-12 | part 1 is the run with noun 12 and verb 2 |
| ProgramAlarm.ExampleProgram | src/day2.rs:20-30 | the puzzle's example program leaves 3500 in cell 0 |
| ProgramAlarm.HaltNeedsWindow | src/day2.rs:20-22 | 99 needs a full four-word window: `1,0,0,0,99` panics, and the same program padded to eight words returns 2 |
| ProgramAlarm.UnknownOpcodePanics | src/day2.rs:25-28 | with a full four-word window, any opcode other than 1, 2 and 99 panics |
| ProgramAlarm.SolvePart2 | src/day2.rs:36-45 | the nested loops with early return compute the noun-major search from (0, 0) |
| ProgramAlarm.Search | src/day2.rs:36-45 | the noun-major search over 0..=98 for both, ended by the first hit or the first panic. No contract of its own: `SearchFindsFirst` and `SearchComplete` state both halves of "the answer is the first pair that yields 19690720" |
| ProgramAlarm.SearchFindsFirst | src/day2.rs:37-41 | an answer `100 * noun + verb` has noun and verb in 0..=98 and yields 19690720, and every earlier pair runs without panicking and yields something else |
| ProgramAlarm.SearchComplete | src/day2.rs:37-41 | a pair in range that yields 19690720, with every pair before it running without a panic, makes the search answer |
| ProgramAlarm.SearchFailure | src/day2.rs:37-44 | with no answer, either some pair panics and every pair before it runs without yielding 19690720, or every pair runs without yielding it |
| ProgramAlarm.InputGenerator | src/day2.rs:2-7 | split at commas, trim, parse each piece as a `usize`, any failure panicking. No contract of its own: `ProgramAlarm.GeneratorReadsNumerals` states that it reads back any program written out |
| ProgramAlarm.ParsePaddedNumeral | src/day2.rs:5 | a trimmed decimal numeral after white space parses as its value |
| ProgramAlarm.GeneratorReadsNumerals | src/day2.rs:2-7 | values written in decimal, each after any white space such as the line breaks of the unit test, and joined with commas, read back as the values |
| Wires.MoveIn | src/day3.rs:57-64 | `move_in` as a function giving the moved position. No contract of its own: `Wires.MoveInIsUnitStep` and `Wires.MoveInOpposite` state what a move does |
| Wires.Manhattan | src/day3.rs:66-68 | the sum of the absolute coordinates. No contract of its own: `Wires.ManhattanZero` and `Wires.ManhattanOfMove` characterise it |
| Wires.MoveInIsUnitStep | src/day3.rs:57-64 | a move changes exactly one coordinate by exactly one |
| Wires.MoveInOpposite | src/day3.rs:57-64 | a move is undone by the opposite move and always changes the position |
| Wires.ManhattanZero | src/day3.rs:66-68 | the distance is 0 exactly at the origin |
| Wires.ManhattanOfMove | src/day3.rs:57-68 | one move changes the distance by exactly one |
| Wires.DirectionsLength | src/day3.rs:91 | the flattened directions number the sum of the segment distances |
| Wires.WalkIsChain | src/day3.rs:92-95 | the scan's first position is one move from the start, and each later one is one move from its predecessor |
| Wires.WalkNeighbours | src/day3.rs:92-95 | each scanned position is at most one further from the origin than the previous one |
| Wires.WalkDistanceBound | src/day3.rs:92-95 | the position after `i + 1` moves is at most `i + 1` further from the origin than the start |
| Wires.Positions | src/day3.rs:87-96 | the positions after each unit move of the flattened segments. No contract of its own: `Wires.PositionsShape` and `Wires.WirePositions` state its shape and its in-place loop |
| Wires.PositionsShape | src/day3.rs:87-96 | a wire yields one position per unit of total distance; the first is adjacent to the origin, and consecutive ones are adjacent |
| Wires.PositionDistanceBound | src/day3.rs:87-96 | the `i`-th position is at most `i + 1` from the origin |
| Wires.WirePositions | src/day3.rs:87-96 | the loop that moves a current position in place yields exactly the wire's positions |
| Wires.Min | src/day3.rs:29-30 | `min` is absent exactly on an empty sequence; otherwise it is a member no larger than any element |
| Wires.Cells | src/day3.rs:19 | the set of a wire's cells holds exactly the positions visited |
| Wires.StepsToLastVisit | src/day3.rs:38 | a cell is in the step map exactly when visited, and its step count is that of its last visit |
| Wires.SharedDistancesMembers | src/day3.rs:20-28 | part 1's candidates are exactly the distances of second-wire cells that lie on the first wire |
| Wires.StepSumsMembers | src/day3.rs:39-46 | part 2's candidates are exactly the step sums of second-wire visits to cells on the first wire |
| Wires.CrossingsAgree | src/day3.rs:15-49 | part 1 has a candidate exactly when part 2 does |
| Wires.SumsDominate | src/day3.rs:15-49 | the fewest combined steps are at least twice the smallest crossing distance |
| Wires.PositionsNearOrigin | src/day3.rs:87-96 | every position of a wire is within its step count of the origin |
| Wires.AnswersAgree | src/day3.rs:14-49 | both answers exist exactly when the wires cross, and part 2's answer is at least twice part 1's |
| Wires.SolvePart1 | src/day3.rs:14-31 | `first()`, `last()`, the cells set and `min` of the shared distances. No contract of its own: `Wires.Part1Answer` states its meaning |
| Wires.Part1Answer | src/day3.rs:14-31 | part 1 gives `d` exactly when `d` is the least distance from the origin of a cell of the last wire that the first wire visits; an empty input has no answer |
| Wires.SolvePart2 | src/day3.rs:33-49 | the step map of the first wire, the step sums of the last wire and their `min`. No contract of its own: `Wires.Part2Answer` states its meaning |
| Wires.Part2Answer | src/day3.rs:33-49 | part 2 gives `t` exactly when `t` is the fewest steps along the last wire to a cell, plus the steps to the first wire's last visit of that cell, over all such cells; an empty input has no answer |
| Wires.ParseSegment | src/day3.rs:130-139 | the first character is the direction, the rest a `usize`; an empty string or another letter panics. No contract of its own: `Wires.ParseShowSegment` and `Wires.ParseSegmentExamples` characterise it |
| Wires.ParseWire | src/day3.rs:75-83 | comma-separated trimmed segments. No contract of its own: `Wires.ParseShowWire` states its round trip |
| Wires.InputGenerator | src/day3.rs:6-12 | one trimmed wire per line feed-separated piece. No contract of its own: `Wires.GeneratorReadsWires` states its round trip |
| Wires.ParseSegmentExamples | src/day3.rs:130-139 | `R75` and `U62` parse as in the parser test; the empty string and an unknown letter panic |
| Wires.ParseShowSegment | src/day3.rs:130-139 | a segment written as letter and distance parses back to itself |
| Wires.ParseShowWire | src/day3.rs:75-83 | a wire written with commas parses back to itself |
| Wires.GeneratorReadsWires | src/day3.rs:6-12 | wires written one per line, each indented, read back as the wires |
| Passwords.InputGenerator | src/day4.rs:4-11 | split at `-`, parse each piece as a `u32`, and take the first two as `a..b + 1`. No contract of its own: `Passwords.InputGeneratorReadsBounds` states its meaning |
| Passwords.InputGeneratorReadsBounds | src/day4.rs:4-11 | `a-b` reads as the half-open range `a..b + 1`, so `b` is included |
| Passwords.FindValidPasswordsIn | src/day4.rs:25-33 | the pushing loop returns exactly the filter of the range by the validator |
| Passwords.ValidIn | src/day4.rs:25-33 | the values of the range that the validator accepts, in order. No contract of its own: `Passwords.ValidInMeaning` states it |
| Passwords.ValidInMeaning | src/day4.rs:25-33 | a value is returned exactly when it is in the range and accepted, and the result is strictly ascending |
| Passwords.ValidInMonotone | src/day4.rs:13-23 | a stricter validator never accepts more values |
| Passwords.Numbers | src/day4.rs:54-58 | the digits of a password are at least one and each below 10 |
| Passwords.NumbersStep | src/day4.rs:54-58 | the digits of a number are those of its tens followed by its units digit |
| Passwords.ScanPassword | src/day4.rs:53-81 | the fold over the digits from `increasing` true and an empty pair map. No contract of its own: `Passwords.ScanPasswordMeaning` states its result |
| Passwords.ScanPrefixMeaning | src/day4.rs:60-80 | after `k` positions the fold's `increasing` holds exactly when no earlier digit exceeds its successor, and `double_count` holds exactly the digits with adjacent equal pairs, with their pair counts |
| Passwords.ScanPasswordMeaning | src/day4.rs:53-81 | `increasing` holds exactly when the digits never decrease; `double_count[d]` is the number of adjacent pairs of `d`, and a digit without a pair is absent |
| Passwords.PairCountPositive | src/day4.rs:66-71 | a digit has a pair count above zero exactly when some adjacent pair is made of it |
| Passwords.IsValidPasswordInPart1 | src/day4.rs:41-44 | `increasing` and a non-empty pair map. No contract of its own: `Passwords.Part1Meaning` states what it accepts |
| Passwords.IsValidPasswordInPart2 | src/day4.rs:46-51 | `increasing`, a non-empty pair map and some pair count of 1. No contract of its own: `Passwords.Part2Meaning` and `Passwords.Part2AsGroups` state what it accepts |
| Passwords.Part1Meaning | src/day4.rs:41-44 | part 1 accepts exactly the passwords whose digits never decrease and have two equal neighbours |
| Passwords.Part2Meaning | src/day4.rs:46-51 | part 2 accepts exactly the passwords whose digits never decrease and have some digit with exactly one adjacent pair |
| Passwords.PairCountOfIncreasing | src/day4.rs:66-71 | in non-decreasing digits, a digit that occurs `c > 0` times forms `c - 1` pairs |
| Passwords.Part2AsGroups | src/day4.rs:46-51 | part 2 accepts exactly the non-decreasing passwords with some digit occurring exactly twice, a group of two not part of a larger group |
| Passwords.Part2ImpliesPart1 | src/day4.rs:41-51 | every password valid in part 2 is valid in part 1 |
| Passwords.Example112233 | src/day4.rs:88-103 | 112233 is valid in both parts |
| Passwords.Example112256 | src/day4.rs:88-103 | 112256 is valid in both parts |
| Passwords.Example122356 | src/day4.rs:88-103 | 122356 is valid in both parts |
| Passwords.Example123456 | src/day4.rs:88-103 | 123456 is valid in neither part |
| Passwords.Example111134 | src/day4.rs:88-103 | 111134 is valid in part 1 but not in part 2 |
| Passwords.SolvePart1 | src/day4.rs:13-17 | part 1 counts the passwords of the range that the part 1 rule accepts |
| Passwords.SolvePart2 | src/day4.rs:19-23 | part 2 counts the passwords of the range that the part 2 rule accepts |
| Passwords.Part2CountsNoMore | src/day4.rs:13-23 | part 2's count is never above part 1's |
| IntcodeDigits.Digits | src/day5/utils.rs:1-6 | `digits` succeeds exactly on all-digit strings; it then keeps the length and gives each character's decimal value |
| IntcodeDigits.DigitsAppend | src/day5/utils.rs:1-6 | `digits` distributes over concatenation |
| IntcodeOperations.Operate | src/day5/operations.rs:16-51 | `operate`: the sum, the product, the address or value, or for jumps and comparisons the target when taken and -1 otherwise. No contract of its own: `IntcodeOperations.OperateAsFlag` states what comparing it with the target means |
| IntcodeOperations.Length | src/day5/operations.rs:53-64 | the words added to the index after the effect, 0 for jumps. No contract of its own: `IntcodeMachine.ExecuteMatchesReference` states the resulting index of every instruction |
| IntcodeOperations.OperandValue | src/day5/operations.rs:110-116 | mode 0 reads memory, giving -999999 outside it; any other mode uses the operand. No contract of its own: `IntcodeMachine.ExecuteMatchesReference` and `IntcodeOperations.ParseByArithmetic` state its use |
| IntcodeOperations.OperateAsFlag | src/day5/operations.rs:16-51 | `operate`'s answer equals the jump target or comparison destination exactly when the jump is taken or the comparison holds, or when that target is -1 |
| IntcodeOperations.Reverse | src/day5/operations.rs:106 | `reverse` keeps the length and mirrors the indices |
| IntcodeOperations.FormatOpcodeValue | src/day5/operations.rs:104 | the padded numeral of a non-negative word is all digits, denotes the word, and has at least five characters |
| IntcodeOperations.FormatOpcodePlace | src/day5/operations.rs:104 | the `i`-th character from the right of the padded numeral is the word's `i`-th decimal digit |
| IntcodeOperations.LowDigitsLength | src/day5/operations.rs:103-108 | the word's digit list padded to a width has as many entries as the longer of the width and the word's numeral |
| IntcodeOperations.LowDigit | src/day5/operations.rs:103-108 | entry `i` of the padded digit list is `(n / 10^i) % 10` |
| IntcodeOperations.ReversedDigits | src/day5/operations.rs:103-108 | reversing `digits` of a numeral gives the digits of the number it denotes, least significant first |
| IntcodeOperations.OpcodeDigits | src/day5/operations.rs:103-108 | the digits of the zero-padded word, units first, read off by division; a negative word fails. No contract of its own: `IntcodeOperations.OpcodeDigitsIsTextual` and `IntcodeOperations.OpcodeDigitsMeaning` state it |
| IntcodeOperations.OpcodeDigitsIsTextual | src/day5/operations.rs:103-108 | `opcode_digits`, stated by division, is exactly `digits` of `format!("{:<05}", w)` reversed, including the panic on the `-` of a negative word |
| IntcodeOperations.OpcodeDigitsMeaning | src/day5/operations.rs:103-108 | a non-negative word yields at least five digits, least significant first, entry `i` being `(w / 10^i) % 10` |
| IntcodeOperations.ParseWithOpcodeDigits | src/day5/operations.rs:77-101 | decoding succeeds exactly when the units digit is 1 to 8; the operation then has that code, and other units digits reach `unreachable!()` |
| IntcodeOperations.IgnoredDigits | src/day5/operations.rs:84-95 | the tens digit and the digits beyond the thousands never affect decoding |
| IntcodeOperations.Parse | src/day5/operations.rs:66-75 | `opcode_digits` followed by `parse_with_opcode_digits`. No contract of its own: `IntcodeOperations.ParseByArithmetic` states the decoding |
| IntcodeOperations.ParseByArithmetic | src/day5/operations.rs:66-75 | `parse` panics on a negative word and otherwise decodes the units, hundreds and thousands digits of the word |
| IntcodeMachine.Apply | src/day5/mod.rs:41-74 | the `match operation` block: the write, print or jump each operation makes. No contract of its own: `IntcodeMachine.ExecuteMatchesReference` states its effect |
| IntcodeMachine.Execute | src/day5/mod.rs:39-75 | `Apply` with `operate`'s answer, then the index moved by `length`. No contract of its own: `IntcodeMachine.ExecuteMatchesReference` states its effect |
| IntcodeMachine.ExecuteMatchesReference | src/day5/mod.rs:39-75 | operating on and applying a decoded operation has the effect its units digit stands for, a -1 target always counting as taken |
| IntcodeMachine.Step | src/day5/mod.rs:37-75 | one loop iteration: the four-word window, `parse`, then `Execute`. No contract of its own: `IntcodeMachine.StepMatchesReference` and `IntcodeMachine.StepFrame` state it |
| IntcodeMachine.StepMatchesReference | src/day5/mod.rs:36-78 | one iteration of the loop equals the digit-by-digit description of the instruction at the index |
| IntcodeMachine.StepFrame | src/day5/mod.rs:37-75 | a step keeps the memory length, changes at most one cell, and prints at most one value after the earlier ones |
| IntcodeMachine.StepOnHaltCode | src/day5/mod.rs:37-38 | a word whose units digit is 0 or 9, opcode 99 included, panics instead of halting |
| IntcodeMachine.InputStoresInitial | src/day5/mod.rs:44 | every input instruction stores the run's one `initial` value at its raw first parameter and moves two words on |
| IntcodeMachine.JumpToMinusOne | src/day5/mod.rs:46-52 | a jump-if-true with a zero condition and target -1 still jumps, and the next window is out of range |
| IntcodeMachine.Run | src/day5/mod.rs:36-79 | `Step` repeated until it panics or the bound runs out. No contract of its own: `RunUnfold`, `RunStops`, `RunFrame`, `RunSplit` and `FaultIsFinal` state it |
| IntcodeMachine.RunUnfold | src/day5/mod.rs:36-79 | a run that has not panicked continues from the next state |
| IntcodeMachine.RunStops | src/day5/mod.rs:36-79 | a run ends at the first step that panics, in the state before it |
| IntcodeMachine.RunFrame | src/day5/mod.rs:34-79 | over a whole run the memory keeps its length and printed values are never taken back |
| IntcodeMachine.RunSplit | src/day5/mod.rs:36-79 | running `f1 + f2` steps is running `f1` steps and then, unless panicked, `f2` more |
| IntcodeMachine.FaultIsFinal | src/day5/mod.rs:36-79 | once a run has panicked, a larger step bound gives the same outcome |
| IntcodeMachine.AddThenShortWindow | src/day5/mod.rs:37-43 | `1,0,0,0,99` doubles cell 0, and the halt word then fails the four-word window |
| IntcodeMachine.ImmediateSum | src/day5/mod.rs:37-43 | immediate operands: `1101,100,-1,4,0` stores 99 in cell 4 |
| IntcodeMachine.EqualsThenPrint | src/day5/mod.rs:37-75 | equals with immediate operands stores 1 or 0, the print outputs it, and the following 99 panics |
| IntcodeMachine.EchoPrintsNothing | src/day5/mod.rs:37-45 | `3,0,4,0,99` stores the input, but the print lacks a full window, so nothing is printed |
| IntcodeMachine.Computer.constructor | src/day5/mod.rs:34-35 | the interpreter starts on a fresh copy of the program at index 0 with no output |
| IntcodeMachine.Computer.Tick | src/day5/mod.rs:37-40 | one in-place iteration does exactly what `Step` describes; a panic leaves the state unchanged |
| IntcodeMachine.Computer.Perform | src/day5/mod.rs:39-75 | the in-place `match operation` block and index update do exactly what `Execute` describes |
| IntcodeMachine.Computer.RunFor | src/day5/mod.rs:36-79 | the in-place loop produces exactly the bounded run's outcome and ends in its last state |
| IntcodeMachine.SolveWithParams | src/day5/mod.rs:33-80 | the interpreter built on a copy of the program gives exactly the bounded run from the loaded program |
| IntcodeMachine.SolveWith | src/day5/mod.rs:17-31 | an answer exists exactly when the run panics within the bound, and it is -1 |
| IntcodeMachine.SolvePart1 | src/day5/mod.rs:17-23 | the same, with input 1 |
| IntcodeMachine.SolvePart2 | src/day5/mod.rs:25-31 | the same, with input 5 |
| IntcodeMachine.InputGenerator | src/day5/mod.rs:9-15 | split at commas and parse each piece as an `i32`, untrimmed. No contract of its own: `IntcodeMachine.InputGeneratorRoundTrip` states its round trip |
| IntcodeMachine.ShowPiece | src/day5/mod.rs:13 | a printed `i32` has no comma and parses back to itself |
| IntcodeMachine.InputGeneratorRoundTrip | src/day5/mod.rs:9-15 | `i32` values printed and joined with commas read back as the program |
| Orbits.AddLine | src/day6.rs:29-42 | the fold's closure: the trimmed text before the first `)` appended to the list of the trimmed text after it. No contract of its own: `Orbits.AddLineSucceeds` and `Orbits.AddIndentedLine` state it |
| Orbits.ReadLines | src/day6.rs:29-42 | the fold over the lines from the empty map. No contract of its own: `Orbits.ReadLinesSucceeds` and `Orbits.ReadLinesContents` state it |
| Orbits.InputGeneratorPart1 | src/day6.rs:27-43 | `lines` followed by the fold. No contract of its own: `Orbits.ReadLinesContents` and `Orbits.ExampleGenerated` state it |
| Orbits.ReadLinesSucceeds | src/day6.rs:28-43 | the lines are read exactly when every one contains `)` |
| Orbits.AddLineSucceeds | src/day6.rs:31-33 | one line is read exactly when it contains `)` |
| Orbits.ReadLinesContents | src/day6.rs:28-43 | the map has an entry for exactly the bodies some line names as orbiting, holding the centres of those lines in line order |
| Orbits.ReadChainOfTwo | src/day6.rs:28-43 | lines `a)b` and `b)c` of trimmed names give `b` orbiting `a` and `c` orbiting `b` |
| Orbits.ReadTwoLines | src/day6.rs:29-42 | `COM)B` and `B)C` give B orbiting COM and C orbiting B |
| Orbits.AddIndentedLine | src/day6.rs:31-39 | a line `centre)orbiter` indented by white space appends the centre to the orbiter's list, the indentation trimmed off |
| Orbits.ReadIndentedLines | src/day6.rs:29-42 | indented lines that each name a different orbiter give a map with exactly those orbiters, each holding its one centre |
| Orbits.ExampleGenerated | src/day6.rs:106-118 | `input_generator_part1` reads the unit test's text, four-space indentation included, as the example map |
| Orbits.NumberOfOrbits | src/day6.rs:12-20 | `number_of_orbits`: 0 without an entry, else the fold over the centres. No contract of its own: `Orbits.NumberOfOrbitsCases` and `Orbits.ChainDepth` state it |
| Orbits.FoldOrbitsClosedForm | src/day6.rs:17-19 | the fold over `i` of `k` centres adds their counts and `i * k` |
| Orbits.NumberOfOrbitsCases | src/day6.rs:12-20 | a body without an entry counts 0; one with `k` centres counts the sum of their counts plus `k * k` |
| Orbits.SingleCentre | src/day6.rs:17-19 | a body with a single centre counts one more than that centre |
| Orbits.ChainDepth | src/day6.rs:12-20 | along single-centre chains, a body's count is its number of steps down to a body that orbits nothing |
| Orbits.RankIrrelevant | src/day6.rs:12-20 | the count does not depend on the ranking that shows the recursion terminates |
| Orbits.ExampleOrbitsOfL | src/day6.rs:104-123 | the unit test: the test text reads as the example map, which has no cycle, and on it L has 7 orbits |
| Orbits.SolvePart1 | src/day6.rs:86-91 | the total is at least the count of every body in the map |
| Orbits.SumOverKeysPermutation | src/day6.rs:86-91 | the sum of counts is the same in every order of the keys |
| Orbits.SolvePart1OrderIndependent | src/day6.rs:86-91 | any two listings of the map's keys give the same answer, so the map's iteration order does not matter |
| Text.Split | src/day2.rs:4 | `split` with a one-character pattern gives at least one piece, none holding the separator |
| Text.Trim | src/day2.rs:5 | `trim` never lengthens the text and leaves neither leading nor trailing white space |
| Text.ParseNat | src/day2.rs:5 | an unsigned `parse` succeeds exactly on a non-empty string of digits after an optional `+` |
| Text.ParseU32 | src/day4.rs:8 | a `u32` parse succeeds only below 2^32 |
| Text.ParseUsize | src/day2.rs:5 | a `usize` parse succeeds only below 2^64 |
| Text.ParseI32 | src/day5/mod.rs:13 | an `i32` parse succeeds only from -2^31 up to 2^31 - 1 |
| Text.SplitJoin | src/day2.rs:4 | splitting pieces joined by a separator that none contains gives back the pieces |
| Text.JoinSplit | src/day2.rs:4 | joining the pieces of a split gives back the text |
| Text.SplitInTwo | src/day6.rs:31-33 | a text splits into two or more pieces exactly when it contains the separator |
| Text.TrimStartShape | src/day2.rs:5 | `trim_start` leaves a suffix that does not start with white space, and drops only white space |
| Text.TrimEndShape | src/day2.rs:5 | `trim_end` leaves a prefix that does not end with white space, and drops only white space |
| Text.TrimPadded | src/day2.rs:5 | trimming white space in front of text that starts and ends with other characters gives the text |
| Text.ParseNatOfDecimalString | src/day2.rs:5 | a number's decimal numeral parses back to the number |
| Text.ParseI32OfDecimalString | src/day5/mod.rs:13 | an `i32` written in decimal, with a sign when negative, parses back to itself |
| Text.ParseEach | src/day2.rs:3-6 | mapping `parse().unwrap()` over pieces and collecting succeeds exactly when every piece parses, and gives each piece's value in order |
| Text.DecimalString | src/day4.rs:54-55 | `to_string` of a number is a non-empty string of digits that denotes the number, with no leading zero |
| Text.Lines | src/day1.rs:5-6 | `lines` gives the line feed-separated pieces in order, dropping only the empty piece after a final line feed (a trailing `\r` is kept; see "## Left out") |
| Text.LinesOfJoin | src/day6.rs:29 | lines without line feeds, joined at line feeds with a non-empty last line, read back as those lines |
| Text.LinesOfTerminatedJoin | src/day1.rs:5-6 | lines without line feeds, joined at line feeds and ended by one, read back as those lines |

## Left out

- Integer widths are not modelled. `i32`, `i64`, `u32`, `u64` and `usize`
  values are mathematical integers, so debug-mode overflow panics and
  release-mode wrap-around are not captured. This applies to day 1's fuel,
  day 2's sums and products, the day 4 bound `b + 1`, day 5's arithmetic and
  day 6's counts. The parsers do check the range of the type they parse into.
- White space for `trim` and `lines` is ASCII only. Other Unicode white space
  is not modelled.
- `Text.Lines` keeps the `\r` of a `\r\n` line ending, which Rust's `lines`
  strips. No result changes, because every caller (`Fuel.ParseMass`,
  `Orbits.Centre` and `Orbits.Orbiter`) trims each line, and `\r` is white
  space.
- Day 1's `rayon` threads are not modelled, only the value of the parallel
  sum.
- Day 5 `catch_unwind` is modelled as a fault value that ends the run, not
  as unwinding.
- Day 5 `println!` is modelled as appending to an output sequence.
- Day 5 runs are bounded by a step count (`fuel`), because jumps can loop
  forever. `IntcodeMachine.SolveWith` answers `None` when the bound runs out;
  the source would keep running.
- Day 5 `as usize` on a negative value is modelled as a negative `int`. That
  value is always out of range, like the huge address it stands for.
- Day 3's `Position::move_in` is modelled as a function returning the moved
  position. The in-place update appears in `Wires.WirePositions`.
- `HashMap` and `HashSet` are modelled as Dafny maps and sets. Iteration order
  is a parameter where it is observable: the key order of day 6's
  `solve_part1`.
- Day 6 part 2 is not part of this model: `input_generator_part2`,
  `find_node`, `find_or_create_node` and `solve_part2`. They build a
  `petgraph` graph and call its `astar`, which are library code outside the
  model.
- `Orbits.NumberOfOrbits` requires the whole map to be acyclic, stated as a
  ranking. The source's `number_of_orbits(planet)` needs less: it returns
  normally whenever no cycle can be reached from `planet`, and recurses until
  the stack overflows only when one can. `solve_part1` counts every body of the
  map, so it needs the whole map acyclic anyway, and there the stronger
  requirement costs nothing.
- `Wires.ParseSegmentExamples` covers only the first segments of the parser
  test. The whole-input test answers 159 and 610 of day 3 are not evaluated on
  their literal inputs. The general round-trip and answer lemmas stand in for
  them.
- `ProgramAlarm.GeneratorReadsNumerals` states the day 2 generator test in
  general form instead of on its literal text.
- Day 4 passwords are not limited to `u32`. The rules are stated for every
  natural number.
- The `aoc_runner` attributes and module wiring in `src/lib.rs` are not part
  of this model.
