/** Day 2, `day2.rs`: the first intcode interpreter, with only add (1),
    multiply (2) and halt (99), every parameter an address; and the search
    for the noun and verb that make the program leave 19690720 in cell 0.

    A panic of the source (an index out of range, an unknown opcode) is `None`
    here. Values are `usize`; sums and products are not wrapped. */
module ProgramAlarm {
  import opened Results
  import opened Text

  /** The loop from `index` on, over a memory that the steps rewrite: every
      step reads a full four-word window, 99 returns cell 0, 1 and 2 write the
      sum or product of two cells into a third. The index grows by four, so
      the loop always ends. */
  function Execute(memory: seq<nat>, index: nat): Option<nat>
    decreases |memory| - index
  {
    if index + 4 > |memory| then None
    else
      var opcode, one, two, dest := memory[index], memory[index + 1], memory[index + 2], memory[index + 3];
      if opcode == 99 then Some(memory[0])
      else if (opcode == 1 || opcode == 2) && one < |memory| && two < |memory| && dest < |memory| then
        var value := if opcode == 1 then memory[one] + memory[two] else memory[one] * memory[two];
        Execute(memory[dest := value], index + 4)
      else None
  }

  /** `solve_with_params`: cells 1 and 2 of a copy are set to the noun and the
      verb, then the loop runs from index 0. */
  function Run(input: seq<nat>, noun: nat, verb: nat): Option<nat>
  {
    if |input| < 3 then None else Execute(input[1 := noun][2 := verb], 0)
  }

  /** The loop of `solve_with_params`, in place on a clone of the input. */
  method SolveWithParams(input: seq<nat>, noun: nat, verb: nat) returns (result: Option<nat>)
    ensures result == Run(input, noun, verb)
  {
    if |input| < 3 {
      return None;
    }
    var opcodes := new nat[|input|](i requires 0 <= i < |input| => input[i]);
    opcodes[1] := noun;
    opcodes[2] := verb;
    assert opcodes[..] == input[1 := noun][2 := verb];
    var index := 0;
    while true
      invariant Execute(opcodes[..], index) == Run(input, noun, verb)
      decreases opcodes.Length - index
    {
      if index + 4 > opcodes.Length {
        return None;
      }
      var opcode, one, two, dest := opcodes[index], opcodes[index + 1], opcodes[index + 2], opcodes[index + 3];
      if opcode == 99 {
        return Some(opcodes[0]);
      }
      if !((opcode == 1 || opcode == 2) && one < opcodes.Length && two < opcodes.Length && dest < opcodes.Length) {
        return None;
      }
      ghost var before := opcodes[..];
      var value := if opcode == 1 then opcodes[one] + opcodes[two] else opcodes[one] * opcodes[two];
      ExecuteStep(before, index, value);
      opcodes[dest] := value;
      assert opcodes[..] == before[dest := value];
      index := index + 4;
    }
  }

  /** One add or multiply step of the loop. */
  lemma ExecuteStep(memory: seq<nat>, index: nat, value: nat)
    requires index + 4 <= |memory|
    requires memory[index] == 1 || memory[index] == 2
    requires memory[index + 1] < |memory| && memory[index + 2] < |memory| && memory[index + 3] < |memory|
    requires value == if memory[index] == 1 then memory[memory[index + 1]] + memory[memory[index + 2]]
                      else memory[memory[index + 1]] * memory[memory[index + 2]]
    ensures Execute(memory, index) == Execute(memory[memory[index + 3] := value], index + 4)
  {
  }

  /** `solve_part1`: the "1202 program alarm" state. */
  method SolvePart1(input: seq<nat>) returns (result: Option<nat>)
    ensures result == Run(input, 12, 2)
  {
    result := SolveWithParams(input, 12, 2);
  }

  /** The puzzle's example: with noun 9 and verb 10 the program adds, then
      multiplies, and leaves 3500 in cell 0. */
  lemma ExampleProgram()
    ensures Run([1, 9, 10, 3, 2, 3, 11, 0, 99, 30, 40, 50], 9, 10) == Some(3500)
  {
    var m0 := [1, 9, 10, 3, 2, 3, 11, 0, 99, 30, 40, 50];
    var m1 := [1, 9, 10, 70, 2, 3, 11, 0, 99, 30, 40, 50];
    var m2 := [3500, 9, 10, 70, 2, 3, 11, 0, 99, 30, 40, 50];
    assert m0[1 := 9][2 := 10] == m0;
    assert m0[3 := 70] == m1;
    assert m1[0 := 3500] == m2;
    assert Execute(m2, 8) == Some(3500);
  }

  /** The halt word needs a full window like every other: `1,0,0,0,99`
      panics, while the same program padded to eight words returns 2. */
  lemma HaltNeedsWindow()
    ensures Execute([1, 0, 0, 0, 99], 0) == None
    ensures Execute([1, 0, 0, 0, 99, 0, 0, 0], 0) == Some(2)
  {
    assert [1, 0, 0, 0, 99][0 := 2] == [2, 0, 0, 0, 99];
    assert [1, 0, 0, 0, 99, 0, 0, 0][0 := 2] == [2, 0, 0, 0, 99, 0, 0, 0];
  }

  /** Any opcode other than 1, 2 and 99 panics. */
  lemma UnknownOpcodePanics(memory: seq<nat>, index: nat)
    requires index + 4 <= |memory| && memory[index] !in {1, 2, 99}
    ensures Execute(memory, index) == None
  {
  }

  // ---------------------------------------------------------------------------
  // The noun and verb search
  // ---------------------------------------------------------------------------

  const Target := 19690720

  /** `(noun, verb)` comes strictly before `(noun', verb')` in the search's
      noun-major order. */
  predicate Before(noun: nat, verb: nat, noun': nat, verb': nat)
  {
    noun < noun' || (noun == noun' && verb < verb')
  }

  /** The nested loops of `solve_part2` from `(noun, verb)` on: nouns and
      verbs range over 0..=98, the first run that yields the target gives
      `100 * noun + verb`, and a run that panics ends the search. */
  function Search(input: seq<nat>, noun: nat, verb: nat): Option<nat>
    requires noun <= 99 && verb <= 99
    decreases 99 - noun, 99 - verb
  {
    if noun == 99 then None
    else if verb == 99 then Search(input, noun + 1, 0)
    else
      match Run(input, noun, verb)
      case None => None
      case Some(value) => if value == Target then Some(100 * noun + verb) else Search(input, noun, verb + 1)
  }

  /** `solve_part2`. */
  method SolvePart2(input: seq<nat>) returns (answer: Option<nat>)
    ensures answer == Search(input, 0, 0)
  {
    var noun := 0;
    while noun < 99
      invariant noun <= 99
      invariant Search(input, noun, 0) == Search(input, 0, 0)
    {
      var verb := 0;
      while verb < 99
        invariant verb <= 99
        invariant Search(input, noun, verb) == Search(input, 0, 0)
      {
        var result := SolveWithParams(input, noun, verb);
        if result.None? {
          return None;
        }
        if result.value == Target {
          return Some(100 * noun + verb);
        }
        verb := verb + 1;
      }
      noun := noun + 1;
    }
    return None;
  }

  /** An answer of the search names a pair in range, from the start on, that
      yields the target, and every pair between the start and it runs without
      panicking and yields something else. */
  lemma {:induction false} SearchFindsFirst(input: seq<nat>, noun: nat, verb: nat)
    requires noun <= 99 && verb <= 99
    requires Search(input, noun, verb).Some?
    ensures var answer := Search(input, noun, verb).value;
            var n, v := answer / 100, answer % 100;
            && n < 99 && v < 99 && !Before(n, v, noun, verb)
            && Run(input, n, v) == Some(Target)
            && forall n', v' :: n' < 99 && v' < 99 && !Before(n', v', noun, verb) && Before(n', v', n, v) ==>
                 Run(input, n', v').Some? && Run(input, n', v').value != Target
    decreases 99 - noun, 99 - verb
  {
    if verb == 99 {
      SearchFindsFirst(input, noun + 1, 0);
    } else if Run(input, noun, verb).value != Target {
      SearchFindsFirst(input, noun, verb + 1);
    }
  }

  /** A pair from the start on that yields the target, with every pair between
      the start and it running without a panic, makes the search answer. */
  lemma {:induction false} SearchComplete(input: seq<nat>, noun: nat, verb: nat, n: nat, v: nat)
    requires noun <= 99 && verb <= 99
    requires n < 99 && v < 99 && !Before(n, v, noun, verb)
    requires Run(input, n, v) == Some(Target)
    requires forall n', v' :: n' < 99 && v' < 99 && !Before(n', v', noun, verb) && Before(n', v', n, v) ==>
               Run(input, n', v').Some?
    ensures Search(input, noun, verb).Some?
    decreases 99 - noun, 99 - verb
  {
    if verb == 99 {
      SearchComplete(input, noun + 1, 0, n, v);
    } else if (noun, verb) != (n, v) {
      assert Run(input, noun, verb).Some?;
      if Run(input, noun, verb).value != Target {
        SearchComplete(input, noun, verb + 1, n, v);
      }
    }
  }

  /** No answer means that some pair from the start on panics, every pair
      before it running without yielding the target, or that every pair from
      the start on runs without yielding it. */
  lemma {:induction false} SearchFailure(input: seq<nat>, noun: nat, verb: nat)
    requires noun <= 99 && verb <= 99
    requires Search(input, noun, verb).None?
    ensures || (exists n: nat, v: nat :: n < 99 && v < 99 && !Before(n, v, noun, verb) && Run(input, n, v).None? &&
                  forall n': nat, v': nat :: n' < 99 && v' < 99 && !Before(n', v', noun, verb) && Before(n', v', n, v) ==>
                    Run(input, n', v').Some? && Run(input, n', v').value != Target)
            || (forall n: nat, v: nat :: n < 99 && v < 99 && !Before(n, v, noun, verb) ==>
                  Run(input, n, v).Some? && Run(input, n, v).value != Target)
    decreases 99 - noun, 99 - verb
  {
    if noun == 99 {
    } else if verb == 99 {
      SearchFailure(input, noun + 1, 0);
      assert forall n: nat, v: nat :: v < 99 ==> (Before(n, v, noun + 1, 0) <==> Before(n, v, noun, verb));
    } else if Run(input, noun, verb).Some? {
      assert Run(input, noun, verb).value != Target;
      SearchFailure(input, noun, verb + 1);
      assert forall n: nat, v: nat :: !Before(n, v, noun, verb) <==> (n, v) == (noun, verb) || !Before(n, v, noun, verb + 1);
    } else {
      assert !Before(noun, verb, noun, verb) && Run(input, noun, verb).None?;
    }
  }

  // ---------------------------------------------------------------------------
  // Loading the program text
  // ---------------------------------------------------------------------------

  /** `input_generator`: split at commas, trim each piece, parse it as a
      `usize`. */
  function InputGenerator(text: string): Option<seq<nat>>
  {
    ParseEach(Split(text, ','), ParseEntry)
  }

  function ParseEntry(piece: string): Option<nat>
  {
    ParseUsize(Trim(piece))
  }

  /** A numeral preceded by white space is read as its value. */
  lemma ParsePaddedNumeral(padding: string, v: nat)
    requires forall k :: 0 <= k < |padding| ==> IsSpace(padding[k])
    requires v < 0x1_0000_0000_0000_0000
    ensures ParseEntry(padding + DecimalString(v)) == Some(v)
  {
    var digits := DecimalString(v);
    assert IsDigit(digits[0]) && IsDigit(digits[|digits| - 1]);
    TrimPadded(padding, digits);
    ParseNatOfDecimalString(v);
  }

  /** The pieces of a program text: each value's numeral after its padding. */
  function PaddedNumerals(paddings: seq<string>, values: seq<nat>): (pieces: seq<string>)
    requires |paddings| == |values|
    ensures |pieces| == |values|
    ensures forall i :: 0 <= i < |values| ==> pieces[i] == paddings[i] + DecimalString(values[i])
  {
    seq(|values|, i requires 0 <= i < |values| => paddings[i] + DecimalString(values[i]))
  }

  /** Values written in decimal, each after any white space (the line breaks
      and indentation of a program spread over lines) and joined with commas,
      are read back by the generator. */
  lemma GeneratorReadsNumerals(paddings: seq<string>, values: seq<nat>)
    requires |paddings| == |values| >= 1
    requires forall i :: 0 <= i < |values| ==> values[i] < 0x1_0000_0000_0000_0000
    requires forall i, k :: 0 <= i < |paddings| && 0 <= k < |paddings[i]| ==> IsSpace(paddings[i][k])
    ensures InputGenerator(Join(PaddedNumerals(paddings, values), ',')) == Some(values)
  {
    var pieces := PaddedNumerals(paddings, values);
    forall i | 0 <= i < |pieces|
      ensures ',' !in pieces[i]
      ensures ParseEntry(pieces[i]) == Some(values[i])
    {
      ParsePaddedNumeral(paddings[i], values[i]);
      var numeral := DecimalString(values[i]);
      assert AllDigits(numeral);
      assert forall k :: 0 <= k < |pieces[i]| ==> pieces[i][k] == if k < |paddings[i]| then paddings[i][k] else numeral[k - |paddings[i]|];
    }
    SplitJoin(pieces, ',');
    assert ParseEach(pieces, ParseEntry).value == values;
  }
}
