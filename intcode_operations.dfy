/** Day 5, `operations.rs`: decoding an instruction word into an operation
    with resolved operands, the value each operation computes and the number of
    words it advances.

    Addresses. The Rust code turns `i32` words into `usize` addresses with
    `as usize`, which maps a negative word to a huge address that is always out
    of range, and turns them back with `as i32`, which restores the word. Both
    conversions are the identity here: an address is an `int`, and a negative
    one stands for the huge `usize` it would be. */
module IntcodeOperations {
  import opened Results
  import opened Text
  import opened IntcodeDigits

  /** The ways a run of the interpreter panics, by the place that panics. */
  datatype Fault =
    | NotADigit         // `to_digit(10).unwrap()` in `digits`: a negative word
    | DigitMissing      // `opcode[k]` past the end of a digit list
    | Unreachable       // `unreachable!()`: a units digit outside 1..8
    | WindowOutOfRange  // `opcodes[index..index + 4]` not inside memory
    | WriteOutOfRange   // `opcodes[dest] = ...` with `dest` not inside memory

  datatype Operation =
    | Multiply(one: int, two: int, dest: int)
    | Sum(one: int, two: int, dest: int)
    | Store(address: int)
    | Print(value: int)
    | JumpIfTrue(number: int, target: int)
    | JumpIfFalse(number: int, target: int)
    | LessThan(one: int, two: int, dest: int)
    | Equals(one: int, two: int, dest: int)

  /** What `operand_value` reads for a position outside memory. */
  const Sentinel: int := -999_999

  /** What `operate` returns for a jump not taken or a comparison that fails. */
  const NotTaken: int := -1

  /** `operate`. Jumps and comparisons answer with their target or destination
      when they succeed and with `NotTaken` otherwise; the interpreter then
      compares that answer with the target to decide what to do. */
  function Operate(op: Operation): int
  {
    match op
    case Sum(one, two, _) => one + two
    case Multiply(one, two, _) => one * two
    case Store(address) => address
    case Print(value) => value
    case JumpIfTrue(number, target) => if number != 0 then target else NotTaken
    case JumpIfFalse(number, target) => if number == 0 then target else NotTaken
    case LessThan(one, two, dest) => if one < two then dest else NotTaken
    case Equals(one, two, dest) => if one == two then dest else NotTaken
  }

  /** `length`: the words the interpreter adds to the index after the
      operation's own effect. Jumps move the index themselves and add nothing. */
  function Length(op: Operation): nat
  {
    match op
    case Sum(_, _, _) => 4
    case Multiply(_, _, _) => 4
    case Store(_) => 2
    case Print(_) => 2
    case JumpIfTrue(_, _) => 0
    case JumpIfFalse(_, _) => 0
    case LessThan(_, _, _) => 4
    case Equals(_, _, _) => 4
  }

  /** The units digit that selects each operation. */
  function Code(op: Operation): int
  {
    match op
    case Sum(_, _, _) => 1
    case Multiply(_, _, _) => 2
    case Store(_) => 3
    case Print(_) => 4
    case JumpIfTrue(_, _) => 5
    case JumpIfFalse(_, _) => 6
    case LessThan(_, _, _) => 7
    case Equals(_, _, _) => 8
  }

  /** Comparing `operate`'s answer with the target or destination tells whether
      the jump is taken or the comparison holds, except that a target or
      destination equal to `NotTaken` always compares equal. */
  lemma OperateAsFlag(op: Operation)
    ensures op.JumpIfTrue? ==> (Operate(op) == op.target <==> op.number != 0 || op.target == NotTaken)
    ensures op.JumpIfFalse? ==> (Operate(op) == op.target <==> op.number == 0 || op.target == NotTaken)
    ensures op.LessThan? ==> (Operate(op) == op.dest <==> op.one < op.two || op.dest == NotTaken)
    ensures op.Equals? ==> (Operate(op) == op.dest <==> op.one == op.two || op.dest == NotTaken)
  {
  }

  /** `operand_value`: mode 0 reads memory at the operand, giving `Sentinel`
      outside memory; every other mode uses the operand itself. */
  function OperandValue(mode: int, operand: int, memory: seq<int>): int
  {
    if mode == 0 then
      if 0 <= operand < |memory| then memory[operand] else Sentinel
    else operand
  }

  /** `format!("{:<05}", w)`: the `0` flag pads with zeros after the sign to a
      width of five, whatever the alignment says. */
  function FormatOpcode(w: int): (s: string)
  {
    if w >= 0 then ZeroPad(DecimalString(w), 5) else "-" + ZeroPad(DecimalString(-w), 4)
  }

  /** Zeros in front of `s` up to `width` characters. */
  function ZeroPad(s: string, width: nat): string
  {
    if |s| < width then Zeros(width - |s|) + s else s
  }

  /** `Vec::reverse`. */
  function Reverse(s: seq<int>): (r: seq<int>)
    ensures |r| == |s|
    ensures forall i :: 0 <= i < |s| ==> r[i] == s[|s| - 1 - i]
  {
    if s == [] then [] else Reverse(s[1..]) + [s[0]]
  }

  /** The decimal digits of `n`, least significant first, continued with zeros
      up to `width` entries. */
  function LowDigits(n: nat, width: nat): (ds: seq<int>)
    ensures |ds| >= 1
  {
    [n % 10] + (if n >= 10 || width > 1 then LowDigits(n / 10, if width > 0 then width - 1 else 0) else [])
  }

  /** `opcode_digits`: the digits of `format!("{:<05}", w)`, units digit first,
      read off the word by division. A negative word fails on its `-` sign.
      `OpcodeDigitsIsTextual` shows this is exactly `digits` of the padded
      numeral, reversed. */
  function OpcodeDigits(w: int): Result<seq<int>, Fault>
  {
    if w < 0 then Err(NotADigit) else Ok(LowDigits(w, 5))
  }

  /** The padded numeral of a non-negative word denotes the word. */
  lemma FormatOpcodeValue(w: nat)
    ensures AllDigits(FormatOpcode(w)) && DigitsValue(FormatOpcode(w)) == w
    ensures |FormatOpcode(w)| == if |DecimalString(w)| < 5 then 5 else |DecimalString(w)|
  {
    var numeral := DecimalString(w);
    LeadingZeros(if |numeral| < 5 then 5 - |numeral| else 0, numeral);
  }

  /** The `i`-th character from the right of the padded numeral is the `i`-th
      decimal digit of the word. */
  lemma FormatOpcodePlace(w: nat, i: nat)
    requires i < |FormatOpcode(w)|
    ensures IsDigit(FormatOpcode(w)[|FormatOpcode(w)| - 1 - i])
    ensures DigitValue(FormatOpcode(w)[|FormatOpcode(w)| - 1 - i]) == (w / Pow10(i)) % 10
  {
    var t := FormatOpcode(w);
    FormatOpcodeValue(w);
    assert AllDigits(t) && DigitsValue(t) == w;
    DigitPlace(t, i);
  }

  /** Padding to `width` gives as many entries as the longer of `width` and
      the numeral. */
  lemma {:induction false} LowDigitsLength(n: nat, width: nat)
    ensures |LowDigits(n, width)| == if |DecimalString(n)| < width then width else |DecimalString(n)|
  {
    if n >= 10 || width > 1 {
      var rest := if width > 0 then width - 1 else 0;
      LowDigitsLength(n / 10, rest);
      if n >= 10 {
        assert |DecimalString(n)| == |DecimalString(n / 10)| + 1;
      } else {
        assert |DecimalString(n)| == 1 && n / 10 == 0;
      }
    } else {
      assert |DecimalString(n)| == 1;
    }
  }

  /** Entry `i` of the padded digit list is the `i`-th decimal digit. */
  lemma {:induction false} LowDigit(n: nat, width: nat, i: nat)
    requires i < |LowDigits(n, width)|
    ensures LowDigits(n, width)[i] == (n / Pow10(i)) % 10
  {
    if i > 0 {
      var rest := if width > 0 then width - 1 else 0;
      assert n >= 10 || width > 1;
      LowDigit(n / 10, rest, i - 1);
      DivideTwice(n, Pow10(i - 1));
    }
  }

  /** Reversing the digits of a numeral gives the padded digit list of the
      number it denotes, when the lengths agree. */
  lemma ReversedDigits(t: string, n: nat, width: nat)
    requires AllDigits(t) && DigitsValue(t) == n && |t| == |LowDigits(n, width)|
    ensures Digits(t).Some? && Reverse(Digits(t).value) == LowDigits(n, width)
  {
    var ds := Digits(t).value;
    var r := Reverse(ds);
    var low := LowDigits(n, width);
    forall i | 0 <= i < |low|
      ensures r[i] == low[i]
    {
      var j := |t| - 1 - i;
      assert r[i] == ds[j] == DigitValue(t[j]);
      DigitPlace(t, i);
      LowDigit(n, width, i);
    }
  }

  /** The arithmetic reading of `opcode_digits` is the textual one: a negative
      word makes `digits` panic on the `-`, and otherwise the reversed digits
      of the padded numeral are the padded digits of the word. */
  lemma OpcodeDigitsIsTextual(w: int)
    ensures OpcodeDigits(w) == match Digits(FormatOpcode(w))
                               case None => Err(NotADigit)
                               case Some(ds) => Ok(Reverse(ds))
  {
    if w < 0 {
      var s := FormatOpcode(w);
      assert s[0] == '-';
      assert !AllDigits(s);
    } else {
      FormatOpcodeValue(w);
      LowDigitsLength(w, 5);
      ReversedDigits(FormatOpcode(w), w, 5);
    }
  }

  /** A non-negative word gives at least five digits, the `i`-th being its
      `i`-th decimal digit from the right. */
  lemma OpcodeDigitsMeaning(w: nat)
    ensures OpcodeDigits(w).Ok?
    ensures |OpcodeDigits(w).value| == if |DecimalString(w)| < 5 then 5 else |DecimalString(w)|
    ensures forall i :: 0 <= i < |OpcodeDigits(w).value| ==>
              OpcodeDigits(w).value[i] == (w / Pow10(i)) % 10
  {
    LowDigitsLength(w, 5);
    forall i | 0 <= i < |OpcodeDigits(w).value|
      ensures OpcodeDigits(w).value[i] == (w / Pow10(i)) % 10
    {
      LowDigit(w, 5, i);
    }
  }

  /** `parse_with_opcode_digits`: the units digit selects the operation and
      must be 1 to 8; the hundreds and thousands digits are the modes of the
      first and second operands. `Store` keeps the raw first parameter as its
      address, and every destination is the raw fourth word. */
  function ParseWithOpcodeDigits(opcode: seq<int>, operandOne: int, operandTwo: int,
                                 dest: int, memory: seq<int>): (r: Result<Operation, Fault>)
    ensures r.Ok? <==> |opcode| >= 4 && 1 <= opcode[0] <= 8
    ensures r.Ok? ==> Code(r.value) == opcode[0]
    ensures r.Err? && |opcode| >= 1 && !(1 <= opcode[0] <= 8) ==> r.error == Unreachable
  {
    if |opcode| == 0 then Err(DigitMissing)
    else if 1 <= opcode[0] <= 8 then
      if |opcode| < 4 then Err(DigitMissing)
      else
        var one := OperandValue(opcode[2], operandOne, memory);
        var two := OperandValue(opcode[3], operandTwo, memory);
        Ok(match opcode[0]
           case 1 => Sum(one, two, dest)
           case 2 => Multiply(one, two, dest)
           case 3 => Store(operandOne)
           case 4 => Print(one)
           case 5 => JumpIfTrue(one, two)
           case 6 => JumpIfFalse(one, two)
           case 7 => LessThan(one, two, dest)
           case _ => Equals(one, two, dest))
    else Err(Unreachable)
  }

  /** The tens digit and every digit after the thousands are never read. */
  lemma IgnoredDigits(opcode: seq<int>, tens: int, rest: seq<int>, operandOne: int,
                      operandTwo: int, dest: int, memory: seq<int>)
    requires |opcode| >= 4
    ensures ParseWithOpcodeDigits(opcode, operandOne, operandTwo, dest, memory)
         == ParseWithOpcodeDigits([opcode[0], tens, opcode[2], opcode[3]] + rest,
                                  operandOne, operandTwo, dest, memory)
  {
  }

  /** `parse`: `parse_with_opcode_digits` applied to `opcode_digits`. */
  function Parse(opcode: int, operandOne: int, operandTwo: int, dest: int,
                 memory: seq<int>): Result<Operation, Fault>
  {
    match OpcodeDigits(opcode)
    case Err(fault) => Err(fault)
    case Ok(digits) => ParseWithOpcodeDigits(digits, operandOne, operandTwo, dest, memory)
  }

  /** The first four entries of `opcode_digits` of a non-negative word are its
      units, tens, hundreds and thousands digits. */
  lemma LowOpcodeDigits(w: nat)
    ensures OpcodeDigits(w).Ok? && |OpcodeDigits(w).value| >= 4
    ensures var ds := OpcodeDigits(w).value;
            ds[0] == w % 10 && ds[1] == (w / 10) % 10 && ds[2] == (w / 100) % 10 && ds[3] == (w / 1000) % 10
  {
    LowDigitsLength(w, 5);
    assert Pow10(0) == 1 && Pow10(1) == 10 && Pow10(2) == 100 && Pow10(3) == 1000;
    LowDigit(w, 5, 0);
    LowDigit(w, 5, 1);
    LowDigit(w, 5, 2);
    LowDigit(w, 5, 3);
  }

  /** Decoding in arithmetic terms: a negative word panics in `digits`; a
      non-negative one is decoded from its units, hundreds and thousands digits. */
  lemma ParseByArithmetic(w: int, operandOne: int, operandTwo: int, dest: int, memory: seq<int>)
    ensures w < 0 ==> Parse(w, operandOne, operandTwo, dest, memory) == Err(NotADigit)
    ensures w >= 0 ==>
              Parse(w, operandOne, operandTwo, dest, memory)
              == ParseWithOpcodeDigits([w % 10, (w / 10) % 10, (w / 100) % 10, (w / 1000) % 10],
                                       operandOne, operandTwo, dest, memory)
  {
    if w >= 0 {
      LowOpcodeDigits(w);
      var ds := OpcodeDigits(w).value;
      IgnoredDigits(ds, ds[1], [], operandOne, operandTwo, dest, memory);
      assert [ds[0], ds[1], ds[2], ds[3]] + [] == [w % 10, (w / 10) % 10, (w / 100) % 10, (w / 1000) % 10];
    }
  }
}
