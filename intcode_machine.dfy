/** Day 5, `mod.rs`: the interpreter loop. It runs on a copy of the program,
    with an instruction index, reading a four-word window at the index on every
    step and then writing one memory cell, printing one value or moving the
    index.

    The loop has no normal way out. A four-word slice always matches the
    four-element pattern, so the `else` branch that would return `opcodes[0]`
    is dead, and opcode 99 has units digit 9, which `parse_with_opcode_digits`
    rejects with `unreachable!()`. Every run that ends, ends in a panic, which
    `solve_part1` and `solve_part2` turn into -1. Runs are bounded here by a
    number of steps, since jumps can loop forever. */
module IntcodeMachine {
  import opened Results
  import opened Text
  import opened IntcodeOperations

  /** The interpreter between two steps: memory, the instruction index (a
      negative index stands for a wrapped-around `usize`) and the values
      printed so far. */
  datatype State = State(memory: seq<int>, index: int, output: seq<int>)

  /** How a bounded run ends: in a panic, or with its steps used up. */
  datatype RunOutcome = Faulted(fault: Fault, last: State) | OutOfSteps(last: State)

  /** The copy of the program the loop starts from. */
  function Load(program: seq<int>): State
  {
    State(program, 0, [])
  }

  /** `opcodes[address] = value`, which panics outside memory. */
  function Write(s: State, address: int, value: int): Result<State, Fault>
  {
    if 0 <= address < |s.memory| then Ok(s.(memory := s.memory[address := value]))
    else Err(WriteOutOfRange)
  }

  /** The `match operation` block. Jumps and comparisons act on whether
      `operate`'s answer equals their target or destination. */
  function Apply(s: State, op: Operation, result: int, initial: int): Result<State, Fault>
  {
    match op
    case Sum(_, _, dest) => Write(s, dest, result)
    case Multiply(_, _, dest) => Write(s, dest, result)
    case Store(address) => Write(s, address, initial)
    case Print(value) => Ok(s.(output := s.output + [value]))
    case JumpIfTrue(_, dest) => Ok(s.(index := if result == dest then dest else s.index + 3))
    case JumpIfFalse(_, dest) => Ok(s.(index := if result == dest then dest else s.index + 3))
    case LessThan(_, _, dest) => Write(s, dest, if result == dest then 1 else 0)
    case Equals(_, _, dest) => Write(s, dest, if result == dest then 1 else 0)
  }

  /** The body of the loop once the operation is parsed: operate, apply the
      effect, then add `length()` to the index. */
  function Execute(s: State, op: Operation, initial: int): Result<State, Fault>
  {
    match Apply(s, op, Operate(op), initial)
    case Err(fault) => Err(fault)
    case Ok(t) => Ok(t.(index := t.index + Length(op)))
  }

  /** One iteration of the loop: slice the four-word window at the index,
      parse it and execute the operation. */
  function Step(s: State, initial: int): Result<State, Fault>
  {
    if s.index < 0 || s.index + 4 > |s.memory| then Err(WindowOutOfRange)
    else
      var i := s.index;
      match Parse(s.memory[i], s.memory[i + 1], s.memory[i + 2], s.memory[i + 3], s.memory)
      case Err(fault) => Err(fault)
      case Ok(op) => Execute(s, op, initial)
  }

  /** At most `fuel` applications of `step`, stopping at the first panic. */
  function Iterate(step: State -> Result<State, Fault>, s: State, fuel: nat): RunOutcome
    decreases fuel
  {
    if fuel == 0 then OutOfSteps(s)
    else
      match step(s)
      case Err(fault) => Faulted(fault, s)
      case Ok(t) => Iterate(step, t, fuel - 1)
  }

  /** At most `fuel` iterations of the loop. */
  function Run(s: State, initial: int, fuel: nat): RunOutcome
  {
    Iterate(t => Step(t, initial), s, fuel)
  }

  // ---------------------------------------------------------------------------
  // The same step, stated digit by digit
  // ---------------------------------------------------------------------------

  /** Writes `value` at `address` and moves the index `width` words on. */
  function WriteAndAdvance(s: State, address: int, value: int, width: nat): Result<State, Fault>
  {
    if 0 <= address < |s.memory| then Ok(State(s.memory[address := value], s.index + width, s.output))
    else Err(WriteOutOfRange)
  }

  /** What instruction `kind` does with resolved operands `a` and `b`, raw
      first parameter `p1` and raw third parameter `p3`. */
  function ReferenceEffect(s: State, kind: int, a: int, b: int, p1: int, p3: int,
                           initial: int): Result<State, Fault>
  {
    if kind == 1 then WriteAndAdvance(s, p3, a + b, 4)
    else if kind == 2 then WriteAndAdvance(s, p3, a * b, 4)
    else if kind == 3 then WriteAndAdvance(s, p1, initial, 2)
    else if kind == 4 then Ok(State(s.memory, s.index + 2, s.output + [a]))
    else if kind == 5 then Ok(s.(index := if a != 0 || b == -1 then b else s.index + 3))
    else if kind == 6 then Ok(s.(index := if a == 0 || b == -1 then b else s.index + 3))
    else if kind == 7 then WriteAndAdvance(s, p3, if a < b then 1 else 0, 4)
    else if kind == 8 then WriteAndAdvance(s, p3, if a == b then 1 else 0, 4)
    else Err(Unreachable)
  }

  /** What one iteration does, read off the instruction word's digits: the
      units digit picks the instruction, the hundreds and thousands digits are
      the modes of the first two parameters, the third parameter is always an
      address. A jump whose target is -1 is taken whatever its condition. */
  function ReferenceStep(s: State, initial: int): Result<State, Fault>
  {
    if s.index < 0 || s.index + 4 > |s.memory| then Err(WindowOutOfRange)
    else
      var i := s.index;
      var w, p1, p2, p3 := s.memory[i], s.memory[i + 1], s.memory[i + 2], s.memory[i + 3];
      if w < 0 then Err(NotADigit)
      else
        ReferenceEffect(s, w % 10, OperandValue((w / 100) % 10, p1, s.memory),
                        OperandValue((w / 1000) % 10, p2, s.memory), p1, p3, initial)
  }

  /** Executing a parsed operation has the effect its units digit stands for. */
  lemma ExecuteMatchesReference(s: State, digits: seq<int>, p1: int, p2: int, p3: int, initial: int)
    requires |digits| == 4
    ensures var a := OperandValue(digits[2], p1, s.memory);
            var b := OperandValue(digits[3], p2, s.memory);
            match ParseWithOpcodeDigits(digits, p1, p2, p3, s.memory)
            case Err(fault) => ReferenceEffect(s, digits[0], a, b, p1, p3, initial) == Err(fault)
            case Ok(op) => Execute(s, op, initial) == ReferenceEffect(s, digits[0], a, b, p1, p3, initial)
  {
    var parsed := ParseWithOpcodeDigits(digits, p1, p2, p3, s.memory);
    if parsed.Ok? {
      OperateAsFlag(parsed.value);
    }
  }

  /** `Step` inside the memory: execute what `parse` makes of the window. */
  lemma StepInWindow(s: State, initial: int)
    requires 0 <= s.index && s.index + 4 <= |s.memory|
    ensures Step(s, initial)
         == match Parse(s.memory[s.index], s.memory[s.index + 1], s.memory[s.index + 2], s.memory[s.index + 3], s.memory)
            case Err(fault) => Err(fault)
            case Ok(op) => Execute(s, op, initial)
  {
  }

  /** `ReferenceStep` inside the memory, on a non-negative word. */
  lemma ReferenceInWindow(s: State, initial: int)
    requires 0 <= s.index && s.index + 4 <= |s.memory| && s.memory[s.index] >= 0
    ensures var w := s.memory[s.index];
            ReferenceStep(s, initial)
            == ReferenceEffect(s, w % 10, OperandValue((w / 100) % 10, s.memory[s.index + 1], s.memory),
                               OperandValue((w / 1000) % 10, s.memory[s.index + 2], s.memory),
                               s.memory[s.index + 1], s.memory[s.index + 3], initial)
  {
  }

  /** Executing what `parse` makes of a non-negative word has the effect its
      units digit stands for, with modes read from its hundreds and thousands
      digits. */
  lemma ParsedMatchesReference(s: State, initial: int, w: int, p1: int, p2: int, p3: int)
    requires w >= 0
    ensures (match Parse(w, p1, p2, p3, s.memory)
             case Err(fault) => Err(fault)
             case Ok(op) => Execute(s, op, initial))
         == ReferenceEffect(s, w % 10, OperandValue((w / 100) % 10, p1, s.memory),
                            OperandValue((w / 1000) % 10, p2, s.memory), p1, p3, initial)
  {
    ParseByArithmetic(w, p1, p2, p3, s.memory);
    ExecuteMatchesReference(s, [w % 10, (w / 10) % 10, (w / 100) % 10, (w / 1000) % 10], p1, p2, p3, initial);
  }

  /** The loop's decode-operate-apply pipeline computes the digit-by-digit step. */
  lemma StepMatchesReference(s: State, initial: int)
    ensures Step(s, initial) == ReferenceStep(s, initial)
  {
    if 0 <= s.index && s.index + 4 <= |s.memory| {
      StepInWindow(s, initial);
      if s.memory[s.index] >= 0 {
        ReferenceInWindow(s, initial);
        ParsedMatchesReference(s, initial, s.memory[s.index], s.memory[s.index + 1], s.memory[s.index + 2],
                               s.memory[s.index + 3]);
      }
    }
  }

  // ---------------------------------------------------------------------------
  // Properties of one step
  // ---------------------------------------------------------------------------

  /** `t` is `s` with the same amount of memory, and with `s`'s output as a
      prefix of its own. */
  predicate Extends(s: State, t: State)
  {
    |t.memory| == |s.memory| && |s.output| <= |t.output| && t.output[..|s.output|] == s.output
  }

  /** `t`'s memory differs from `s`'s in at most one cell. */
  predicate OneCellChanged(s: State, t: State)
    requires |t.memory| == |s.memory|
  {
    forall j, k :: 0 <= j < k < |s.memory| ==> t.memory[j] == s.memory[j] || t.memory[k] == s.memory[k]
  }

  lemma ReferenceFrame(s: State, initial: int)
    requires ReferenceStep(s, initial).Ok?
    ensures var t := ReferenceStep(s, initial).value;
            Extends(s, t) && OneCellChanged(s, t) && |t.output| <= |s.output| + 1
  {
    var t := ReferenceStep(s, initial).value;
    assert t.output[..|s.output|] == s.output;
  }

  /** A step keeps the memory's length, changes at most one cell, and prints
      at most one value. */
  lemma StepFrame(s: State, initial: int)
    requires Step(s, initial).Ok?
    ensures var t := Step(s, initial).value;
            Extends(s, t) && OneCellChanged(s, t) && |t.output| <= |s.output| + 1
  {
    StepMatchesReference(s, initial);
    ReferenceFrame(s, initial);
  }

  /** A word whose units digit is 0 or 9, opcode 99 among them, panics in
      `unreachable!()` instead of halting. */
  lemma StepOnHaltCode(s: State, initial: int)
    requires 0 <= s.index && s.index + 4 <= |s.memory|
    requires s.memory[s.index] >= 0 && s.memory[s.index] % 10 in {0, 9}
    ensures Step(s, initial) == Err(Unreachable)
  {
    StepMatchesReference(s, initial);
  }

  lemma ReferenceInput(s: State, initial: int)
    requires 0 <= s.index && s.index + 4 <= |s.memory|
    requires s.memory[s.index] >= 0 && s.memory[s.index] % 10 == 3
    requires ReferenceStep(s, initial).Ok?
    ensures var address := s.memory[s.index + 1];
            && 0 <= address < |s.memory|
            && ReferenceStep(s, initial).value == State(s.memory[address := initial], s.index + 2, s.output)
  {
  }

  /** Every input instruction stores the run's one `initial` value at its raw
      first parameter and moves two words on. */
  lemma InputStoresInitial(s: State, initial: int)
    requires 0 <= s.index && s.index + 4 <= |s.memory|
    requires s.memory[s.index] >= 0 && s.memory[s.index] % 10 == 3
    requires Step(s, initial).Ok?
    ensures var address := s.memory[s.index + 1];
            && 0 <= address < |s.memory|
            && Step(s, initial).value == State(s.memory[address := initial], s.index + 2, s.output)
  {
    StepMatchesReference(s, initial);
    ReferenceInput(s, initial);
  }

  lemma ReferenceJumpToMinusOne(s: State, initial: int)
    requires 0 <= s.index && s.index + 4 <= |s.memory|
    requires var w := s.memory[s.index];
             w >= 0 && w % 10 == 5 &&
             OperandValue((w / 100) % 10, s.memory[s.index + 1], s.memory) == 0 &&
             OperandValue((w / 1000) % 10, s.memory[s.index + 2], s.memory) == -1
    ensures ReferenceStep(s, initial) == Ok(s.(index := -1))
  {
  }

  /** A jump-if-true that is not taken but whose target is -1 moves the index
      to -1 (the largest `usize`), so the next step's window is out of range. */
  lemma JumpToMinusOne(s: State, initial: int)
    requires 0 <= s.index && s.index + 4 <= |s.memory|
    requires var w := s.memory[s.index];
             w >= 0 && w % 10 == 5 &&
             OperandValue((w / 100) % 10, s.memory[s.index + 1], s.memory) == 0 &&
             OperandValue((w / 1000) % 10, s.memory[s.index + 2], s.memory) == -1
    ensures Step(s, initial) == Ok(s.(index := -1))
    ensures Step(s.(index := -1), initial) == Err(WindowOutOfRange)
  {
    StepMatchesReference(s, initial);
    ReferenceJumpToMinusOne(s, initial);
  }

  // ---------------------------------------------------------------------------
  // Properties of bounded runs
  // ---------------------------------------------------------------------------

  /** One more step of a run that has not panicked. */
  lemma RunUnfold(s: State, t: State, initial: int, fuel: nat)
    requires fuel > 0 && Step(s, initial) == Ok(t)
    ensures Run(s, initial, fuel) == Run(t, initial, fuel - 1)
  {
  }

  /** A run whose next step panics ends there. */
  lemma RunStops(s: State, initial: int, fuel: nat)
    requires fuel > 0 && Step(s, initial).Err?
    ensures Run(s, initial, fuel) == Faulted(Step(s, initial).error, s)
  {
  }

  /** A run that takes two steps and then panics. */
  lemma RunThree(s0: State, s1: State, s2: State, initial: int)
    requires Step(s0, initial) == Ok(s1) && Step(s1, initial) == Ok(s2) && Step(s2, initial).Err?
    ensures Run(s0, initial, 3) == Faulted(Step(s2, initial).error, s2)
  {
    RunUnfold(s0, s1, initial, 3);
    RunUnfold(s1, s2, initial, 2);
    RunStops(s2, initial, 1);
  }

  lemma {:induction false} IterateExtends(step: State -> Result<State, Fault>, s: State, fuel: nat)
    requires forall t :: step(t).Ok? ==> Extends(t, step(t).value)
    ensures Extends(s, Iterate(step, s, fuel).last)
    decreases fuel
  {
    if fuel > 0 && step(s).Ok? {
      var t := step(s).value;
      IterateExtends(step, t, fuel - 1);
      var last := Iterate(step, t, fuel - 1).last;
      assert last.output[..|s.output|] == last.output[..|t.output|][..|s.output|];
    }
  }

  /** Memory never grows or shrinks, and printed values are never taken back. */
  lemma RunFrame(s: State, initial: int, fuel: nat)
    ensures Extends(s, Run(s, initial, fuel).last)
  {
    forall t | Step(t, initial).Ok?
      ensures Extends(t, Step(t, initial).value)
    {
      StepFrame(t, initial);
    }
    IterateExtends(t => Step(t, initial), s, fuel);
  }

  lemma {:induction false} IterateSplit(step: State -> Result<State, Fault>, s: State, f1: nat, f2: nat)
    ensures Iterate(step, s, f1 + f2) == match Iterate(step, s, f1)
                                         case OutOfSteps(t) => Iterate(step, t, f2)
                                         case Faulted(_, _) => Iterate(step, s, f1)
    decreases f1
  {
    if f1 > 0 && step(s).Ok? {
      IterateSplit(step, step(s).value, f1 - 1, f2);
    }
  }

  /** Running `f1 + f2` steps is running `f1` steps and then, if the run has
      not panicked, `f2` more. */
  lemma RunSplit(s: State, initial: int, f1: nat, f2: nat)
    ensures Run(s, initial, f1 + f2) == match Run(s, initial, f1)
                                        case OutOfSteps(t) => Run(t, initial, f2)
                                        case Faulted(_, _) => Run(s, initial, f1)
  {
    IterateSplit(t => Step(t, initial), s, f1, f2);
  }

  /** Once a run has panicked, a larger step bound gives the same outcome. */
  lemma FaultIsFinal(s: State, initial: int, fuel: nat, more: nat)
    requires Run(s, initial, fuel).Faulted?
    ensures Run(s, initial, fuel + more) == Run(s, initial, fuel)
  {
    RunSplit(s, initial, fuel, more);
  }

  // ---------------------------------------------------------------------------
  // Small programs
  // ---------------------------------------------------------------------------

  /** `1,0,0,0,99` adds memory[0] to itself, and then the halt word, with only
      one word after the index, fails the four-word window. */
  lemma AddThenShortWindow(initial: int)
    ensures Run(Load([1, 0, 0, 0, 99]), initial, 2)
         == Faulted(WindowOutOfRange, State([2, 0, 0, 0, 99], 4, []))
  {
    StepMatchesReference(Load([1, 0, 0, 0, 99]), initial);
    StepMatchesReference(State([2, 0, 0, 0, 99], 4, []), initial);
  }

  /** Immediate operands: `1101,100,-1,4,0` stores 100 + -1 in memory[4]. */
  lemma ImmediateSum(initial: int)
    ensures Run(Load([1101, 100, -1, 4, 0]), initial, 2)
         == Faulted(WindowOutOfRange, State([1101, 100, -1, 4, 99], 4, []))
  {
    var s0, s1 := Load([1101, 100, -1, 4, 0]), State([1101, 100, -1, 4, 99], 4, []);
    assert s0.memory[4 := 99] == s1.memory;
    StepMatchesReference(s0, initial);
    assert ReferenceStep(s0, initial) == Ok(s1);
    StepMatchesReference(s1, initial);
    RunUnfold(s0, s1, initial, 2);
  }

  lemma CompareStep(b: int, initial: int)
    ensures var flag := if b == 8 then 1 else 0;
            ReferenceStep(Load([1108, 8, b, 7, 4, 7, 99, 5, 0, 0]), initial)
            == Ok(State([1108, 8, b, 7, 4, 7, 99, flag, 0, 0], 4, []))
  {
    var flag := if b == 8 then 1 else 0;
    assert [1108, 8, b, 7, 4, 7, 99, 5, 0, 0][7 := flag] == [1108, 8, b, 7, 4, 7, 99, flag, 0, 0];
  }

  lemma PrintStep(b: int, flag: int, initial: int)
    ensures var s1 := State([1108, 8, b, 7, 4, 7, 99, flag, 0, 0], 4, []);
            ReferenceStep(s1, initial) == Ok(s1.(index := 6, output := [flag]))
  {
    assert [] + [flag] == [flag];
  }

  /** Equals with immediate 8 and `b` stores whether they are equal in
      memory[7], the print outputs that flag, and the 99 that follows panics. */
  lemma EqualsThenPrint(b: int, initial: int)
    ensures var flag := if b == 8 then 1 else 0;
            Run(Load([1108, 8, b, 7, 4, 7, 99, 5, 0, 0]), initial, 3)
            == Faulted(Unreachable, State([1108, 8, b, 7, 4, 7, 99, flag, 0, 0], 6, [flag]))
  {
    var flag := if b == 8 then 1 else 0;
    var s0 := Load([1108, 8, b, 7, 4, 7, 99, 5, 0, 0]);
    var s1 := State([1108, 8, b, 7, 4, 7, 99, flag, 0, 0], 4, []);
    var s2 := s1.(index := 6, output := [flag]);
    StepMatchesReference(s0, initial);
    CompareStep(b, initial);
    StepMatchesReference(s1, initial);
    PrintStep(b, flag, initial);
    StepOnHaltCode(s2, initial);
    RunThree(s0, s1, s2, initial);
  }

  /** `3,0,4,0,99` stores the input, but the print two words later already
      lacks a full window, so nothing is printed. */
  lemma EchoPrintsNothing(initial: int)
    ensures Run(Load([3, 0, 4, 0, 99]), initial, 2)
         == Faulted(WindowOutOfRange, State([initial, 0, 4, 0, 99], 2, []))
  {
    StepMatchesReference(Load([3, 0, 4, 0, 99]), initial);
    StepMatchesReference(State([initial, 0, 4, 0, 99], 2, []), initial);
  }

  // ---------------------------------------------------------------------------
  // The loop, in place on a copy of the program
  // ---------------------------------------------------------------------------

  /** The locals of `solve_with_params`: the cloned vector, the index, and the
      values `println!` has printed. */
  class Computer {
    const initial: int
    const memory: array<int>
    var index: int
    var output: seq<int>

    function Snapshot(): State
      reads this, memory
    {
      State(memory[..], index, output)
    }

    /** `input.clone()` and `index = 0`. */
    constructor (program: seq<int>, initial: int)
      ensures this.initial == initial && fresh(memory)
      ensures Snapshot() == Load(program)
    {
      this.initial := initial;
      memory := new int[|program|](i requires 0 <= i < |program| => program[i]);
      index := 0;
      output := [];
    }

    /** One iteration of the loop; a panic leaves everything as it was. */
    method Tick() returns (fault: Option<Fault>)
      modifies this, memory
      ensures fault.None? ==> Step(old(Snapshot()), initial) == Ok(Snapshot())
      ensures fault.Some? ==> Step(old(Snapshot()), initial) == Err(fault.value)
      ensures fault.Some? ==> Snapshot() == old(Snapshot())
    {
      if index < 0 || index + 4 > memory.Length {
        return Some(WindowOutOfRange);
      }
      var parsed := Parse(memory[index], memory[index + 1], memory[index + 2], memory[index + 3], memory[..]);
      if parsed.Err? {
        return Some(parsed.error);
      }
      fault := Perform(parsed.value);
    }

    /** The `match operation` block and the index update. */
    method Perform(operation: Operation) returns (fault: Option<Fault>)
      modifies this, memory
      ensures fault.None? ==> Execute(old(Snapshot()), operation, initial) == Ok(Snapshot())
      ensures fault.Some? ==> Execute(old(Snapshot()), operation, initial) == Err(fault.value)
      ensures fault.Some? ==> Snapshot() == old(Snapshot())
    {
      var result := Operate(operation);
      match operation {
        case Sum(_, _, dest) =>
          if !(0 <= dest < memory.Length) {
            return Some(WriteOutOfRange);
          }
          memory[dest] := result;
        case Multiply(_, _, dest) =>
          if !(0 <= dest < memory.Length) {
            return Some(WriteOutOfRange);
          }
          memory[dest] := result;
        case Store(address) =>
          if !(0 <= address < memory.Length) {
            return Some(WriteOutOfRange);
          }
          memory[address] := initial;
        case Print(value) =>
          output := output + [value];
        case JumpIfTrue(_, dest) =>
          if result == dest {
            index := dest;
          } else {
            index := index + 3;
          }
        case JumpIfFalse(_, dest) =>
          if result == dest {
            index := dest;
          } else {
            index := index + 3;
          }
        case LessThan(_, _, dest) =>
          if !(0 <= dest < memory.Length) {
            return Some(WriteOutOfRange);
          }
          if result == dest {
            memory[dest] := 1;
          } else {
            memory[dest] := 0;
          }
        case Equals(_, _, dest) =>
          if !(0 <= dest < memory.Length) {
            return Some(WriteOutOfRange);
          }
          if result == dest {
            memory[dest] := 1;
          } else {
            memory[dest] := 0;
          }
      }
      index := index + Length(operation);
      fault := None;
    }

    /** The loop, for at most `fuel` iterations. */
    method RunFor(fuel: nat) returns (outcome: RunOutcome)
      modifies this, memory
      ensures outcome == Run(old(Snapshot()), initial, fuel)
      ensures Snapshot() == outcome.last
    {
      var steps := 0;
      while steps < fuel
        invariant 0 <= steps <= fuel
        invariant Run(old(Snapshot()), initial, fuel) == Run(Snapshot(), initial, fuel - steps)
      {
        ghost var before := Snapshot();
        var fault := Tick();
        if fault.Some? {
          return Faulted(fault.value, Snapshot());
        }
        RunUnfold(before, Snapshot(), initial, fuel - steps);
        steps := steps + 1;
      }
      return OutOfSteps(Snapshot());
    }
  }

  /** `solve_with_params`, bounded: the loop runs on a fresh copy, so the
      caller's program is never changed. */
  method SolveWithParams(program: seq<int>, initial: int, fuel: nat) returns (outcome: RunOutcome)
    ensures outcome == Run(Load(program), initial, fuel)
  {
    var computer := new Computer(program, initial);
    outcome := computer.RunFor(fuel);
  }

  /** `solve_part1` (input 1) and `solve_part2` (input 5): a panic becomes -1;
      `None` when the run is still going after `fuel` steps. */
  method SolveWith(program: seq<int>, input: int, fuel: nat) returns (answer: Option<int>)
    ensures answer.Some? <==> Run(Load(program), input, fuel).Faulted?
    ensures answer.Some? ==> answer.value == -1
  {
    var outcome := SolveWithParams(program, input, fuel);
    answer := if outcome.Faulted? then Some(-1) else None;
  }

  method SolvePart1(program: seq<int>, fuel: nat) returns (answer: Option<int>)
    ensures answer.Some? <==> Run(Load(program), 1, fuel).Faulted?
    ensures answer.Some? ==> answer.value == -1
  {
    answer := SolveWith(program, 1, fuel);
  }

  method SolvePart2(program: seq<int>, fuel: nat) returns (answer: Option<int>)
    ensures answer.Some? <==> Run(Load(program), 5, fuel).Faulted?
    ensures answer.Some? ==> answer.value == -1
  {
    answer := SolveWith(program, 5, fuel);
  }

  // ---------------------------------------------------------------------------
  // Loading the program text
  // ---------------------------------------------------------------------------

  /** `input_generator`: split at commas and parse every piece as an `i32`,
      without trimming. */
  function InputGenerator(text: string): Option<seq<int>>
  {
    ParseEach(Split(text, ','), ParseI32)
  }

  /** A printed `i32` has no comma in it and parses back to itself. */
  lemma ShowPiece(v: int)
    requires -0x8000_0000 <= v < 0x8000_0000
    ensures ',' !in SignedString(v)
    ensures ParseI32(SignedString(v)) == Some(v)
  {
    ParseI32OfDecimalString(v);
    SignedStringShape(v);
  }

  /** Printing a program with commas and loading it back gives the program. */
  lemma InputGeneratorRoundTrip(program: seq<int>)
    requires |program| >= 1
    requires forall i :: 0 <= i < |program| ==> -0x8000_0000 <= program[i] < 0x8000_0000
    ensures InputGenerator(Join(SignedStrings(program), ',')) == Some(program)
  {
    var texts := SignedStrings(program);
    forall i | 0 <= i < |texts|
      ensures ',' !in texts[i]
      ensures ParseI32(texts[i]) == Some(program[i])
    {
      ShowPiece(program[i]);
    }
    JoinedNumeralsParse(texts, program);
  }

  /** Comma-free pieces that each parse to a word load back as those words. */
  lemma JoinedNumeralsParse(texts: seq<string>, program: seq<int>)
    requires |texts| == |program| >= 1
    requires forall i :: 0 <= i < |texts| ==> ',' !in texts[i] && ParseI32(texts[i]) == Some(program[i])
    ensures InputGenerator(Join(texts, ',')) == Some(program)
  {
    SplitJoin(texts, ',');
    var parsed := ParseEach(texts, ParseI32);
    assert parsed.value == program;
  }
}
