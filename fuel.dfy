/** Day 1: the fuel needed to launch modules of given masses, either the base
    formula alone or with the recursive surcharge for the fuel's own mass. */
module Fuel {
  import opened Results
  import opened Text

  /** `input_generator`: one trimmed `i32` per line. */
  function InputGenerator(text: string): Option<seq<int>>
  {
    ParseEach(Lines(text), ParseMass)
  }

  function ParseMass(line: string): Option<int>
  {
    ParseI32(Trim(line))
  }

  /** The generator's unit test: three lines, each ended by a line feed. */
  lemma InputGeneratorExample()
    ensures InputGenerator("1\n3\n4\n") == Some([1, 3, 4])
  {
    ExampleLines();
    ReadDigitLines("1\n3\n4\n");
  }

  /** The generator reads back any `i32` masses written one per line, with or
      without a line feed after the last. */
  lemma InputGeneratorReadsMasses(masses: seq<int>)
    requires |masses| >= 1
    requires forall i :: 0 <= i < |masses| ==> -0x8000_0000 <= masses[i] < 0x8000_0000
    ensures InputGenerator(Join(SignedStrings(masses), '\n')) == Some(masses)
    ensures InputGenerator(Join(SignedStrings(masses), '\n') + "\n") == Some(masses)
  {
    var lines := SignedStrings(masses);
    forall i | 0 <= i < |lines|
      ensures '\n' !in lines[i] && ParseMass(lines[i]) == Some(masses[i])
    {
      MassLine(masses[i]);
    }
    LinesOfJoin(lines);
    ReadMassLines(Join(lines, '\n'), masses);
    LinesOfTerminatedJoin(lines);
    ReadMassLines(Join(lines, '\n') + "\n", masses);
  }

  /** Text whose lines each read as the corresponding mass reads as the masses. */
  lemma ReadMassLines(text: string, masses: seq<int>)
    requires |Lines(text)| == |masses|
    requires forall i :: 0 <= i < |masses| ==> ParseMass(Lines(text)[i]) == Some(masses[i])
    ensures InputGenerator(text) == Some(masses)
  {
    assert ParseEach(Lines(text), ParseMass).value == masses;
  }

  /** A printed `i32` is one line, and it is read as that mass. */
  lemma MassLine(mass: int)
    requires -0x8000_0000 <= mass < 0x8000_0000
    ensures '\n' !in SignedString(mass)
    ensures ParseMass(SignedString(mass)) == Some(mass)
  {
    var line := SignedString(mass);
    SignedStringShape(mass);
    assert !IsSpace(line[0]) && !IsSpace(line[|line| - 1]);
    TrimPadded("", line);
    assert "" + line == line;
    ParseI32OfDecimalString(mass);
  }

  lemma ReadDigitLines(text: string)
    requires Lines(text) == ["1", "3", "4"]
    ensures InputGenerator(text) == Some([1, 3, 4])
  {
    assert DigitChar(1) == '1' && DigitChar(3) == '3' && DigitChar(4) == '4';
    ParseDigitLines(Lines(text), [1, 3, 4]);
  }

  /** Lines each holding one digit are read as those digits. */
  lemma ParseDigitLines(lines: seq<string>, masses: seq<int>)
    requires |lines| == |masses|
    requires forall i :: 0 <= i < |lines| ==> 0 <= masses[i] < 10 && lines[i] == [DigitChar(masses[i])]
    ensures ParseEach(lines, ParseMass) == Some(masses)
  {
    forall i | 0 <= i < |lines|
      ensures ParseMass(lines[i]) == Some(masses[i])
    {
      ParseSingleDigit(masses[i]);
    }
    assert ParseEach(lines, ParseMass).value == masses;
  }

  lemma ExampleLines()
    ensures Lines("1\n3\n4\n") == ["1", "3", "4"]
  {
    var parts := ["1", "3", "4", ""];
    assert parts[1..] == ["3", "4", ""] && parts[1..][1..] == ["4", ""] && parts[1..][1..][1..] == [""];
    assert Join(parts, '\n') == "1\n3\n4\n";
    SplitJoin(parts, '\n');
  }

  /** A line holding one digit is read as that digit. */
  lemma ParseSingleDigit(d: nat)
    requires d < 10
    ensures ParseMass([DigitChar(d)]) == Some(d)
  {
    ParseNatOfDecimalString(d);
    assert DecimalString(d) == [DigitChar(d)];
    assert TrimEnd([DigitChar(d)]) == [DigitChar(d)];
    assert TrimStart([DigitChar(d)]) == [DigitChar(d)];
  }

  /** Rust's `/` on `i32`: the quotient rounded toward zero. */
  function Quotient(a: int, b: int): (q: int)
    requires b > 0
    ensures a >= 0 ==> b * q <= a < b * q + b
    ensures a < 0 ==> b * q - b < a <= b * q
  {
    if a >= 0 then a / b else -((-a) / b)
  }

  /** `calculate_base_fuel_for`: a third of the mass, rounded toward zero, minus 2. */
  function BaseFuel(mass: int): (fuel: int)
    ensures mass >= 0 ==> 3 * (fuel + 2) <= mass < 3 * (fuel + 2) + 3
    ensures mass < 0 ==> 3 * (fuel + 2) - 3 < mass <= 3 * (fuel + 2)
  {
    Quotient(mass, 3) - 2
  }

  /** `calculate_fuel_for`: the base fuel plus the fuel for that fuel, and so on,
      until the base formula gives a negative amount, which counts as nothing.
      The recursion ends because a non-negative base fuel is smaller than the
      mass it was computed from. */
  function FuelFor(mass: int): (total: int)
    ensures total >= 0
    ensures BaseFuel(mass) < 0 ==> total == 0
    ensures BaseFuel(mass) >= 0 ==> total >= BaseFuel(mass)
    decreases if mass < 0 then 0 else mass
  {
    var base := BaseFuel(mass);
    if base < 0 then 0 else base + FuelFor(base)
  }

  /** The left fold `masses.iter().fold(0, |acc, mass| acc + fuel(mass))`. */
  function FoldFuel(masses: seq<int>, acc: int, fuel: int -> int): int
  {
    if masses == [] then acc else FoldFuel(masses[1..], acc + fuel(masses[0]), fuel)
  }

  /** `solve_part1`: the total base fuel. */
  function SolvePart1(masses: seq<int>): int
  {
    FoldFuel(masses, 0, BaseFuel)
  }

  /** `solve_part2`: the total fuel including the surcharge. */
  function SolvePart2(masses: seq<int>): int
  {
    FoldFuel(masses, 0, FuelFor)
  }

  /** `iter().map(fuel)`. */
  function MapFuel(masses: seq<int>, fuel: int -> int): (fuels: seq<int>)
    ensures |fuels| == |masses|
    ensures forall i :: 0 <= i < |masses| ==> fuels[i] == fuel(masses[i])
  {
    if masses == [] then [] else [fuel(masses[0])] + MapFuel(masses[1..], fuel)
  }

  /** `Iterator::sum`. */
  function Sum(xs: seq<int>): int
  {
    if xs == [] then 0 else xs[0] + Sum(xs[1..])
  }

  /** `solve_part2_in_parallel`: `par_iter().map(calculate_fuel_for).sum()`;
      the threads are not modelled, only the sum of the mapped values. */
  function SolvePart2InParallel(masses: seq<int>): int
  {
    Sum(MapFuel(masses, FuelFor))
  }

  lemma {:induction false} FoldIsSum(masses: seq<int>, acc: int, fuel: int -> int)
    ensures FoldFuel(masses, acc, fuel) == acc + Sum(MapFuel(masses, fuel))
  {
    if masses != [] {
      FoldIsSum(masses[1..], acc + fuel(masses[0]), fuel);
    }
  }

  /** The parallel sum and the sequential fold compute the same total. */
  lemma ParallelMatchesSequential(masses: seq<int>)
    ensures SolvePart2InParallel(masses) == SolvePart2(masses)
  {
    FoldIsSum(masses, 0, FuelFor);
  }

  lemma {:induction false} FoldMonotone(masses: seq<int>, acc: int, acc': int, less: int -> int, more: int -> int)
    requires acc <= acc'
    requires forall mass :: less(mass) <= more(mass)
    ensures FoldFuel(masses, acc, less) <= FoldFuel(masses, acc', more)
  {
    if masses != [] {
      var mass := masses[0];
      assert less(mass) <= more(mass);
      FoldMonotone(masses[1..], acc + less(mass), acc' + more(mass), less, more);
    }
  }

  /** A module's surcharged fuel is at least its base fuel. */
  lemma BaseAtMostFuel(mass: int)
    ensures BaseFuel(mass) <= FuelFor(mass)
  {
  }

  /** Counting the fuel's own mass never lowers the total. */
  lemma Part2AtLeastPart1(masses: seq<int>)
    ensures SolvePart1(masses) <= SolvePart2(masses)
  {
    var less: int -> int, more: int -> int := BaseFuel, FuelFor;
    forall mass
      ensures less(mass) <= more(mass)
    {
      BaseAtMostFuel(mass);
    }
    FoldMonotone(masses, 0, 0, less, more);
  }

  /** The values the unit tests assert for the base formula. */
  lemma BaseFuelExamples()
    ensures BaseFuel(12) == 2 && BaseFuel(14) == 2
    ensures BaseFuel(1969) == 654 && BaseFuel(100756) == 33583
  {
  }

  /** One unfolding of the surcharge recursion. */
  lemma FuelUnfold(mass: int, base: int, rest: int)
    requires BaseFuel(mass) == base && base >= 0 && FuelFor(base) == rest
    ensures FuelFor(mass) == base + rest
  {
  }

  /** The values the unit tests assert for single modules with the surcharge. */
  lemma FuelExamples()
    ensures FuelFor(12) == 2 && FuelFor(14) == 2
    ensures FuelFor(1969) == 966 && FuelFor(100756) == 50346
  {
    assert FuelFor(2) == 0;
    assert FuelFor(5) == 0;
    FuelUnfold(12, 2, 0);
    FuelUnfold(14, 2, 0);
    FuelUnfold(21, 5, 0);
    FuelUnfold(70, 21, 5);
    FuelUnfold(216, 70, 26);
    FuelUnfold(654, 216, 96);
    FuelUnfold(1969, 654, 312);
    FuelUnfold(43, 12, 2);
    FuelUnfold(135, 43, 14);
    FuelUnfold(411, 135, 57);
    FuelUnfold(1240, 411, 192);
    FuelUnfold(3728, 1240, 603);
    FuelUnfold(11192, 3728, 1843);
    FuelUnfold(33583, 11192, 5571);
    FuelUnfold(100756, 33583, 16763);
  }

  /** The totals the unit tests assert for the four example modules. */
  lemma SolveExamples()
    ensures SolvePart1([12, 14, 1969, 100756]) == 2 + 2 + 654 + 33583
    ensures SolvePart2([12, 14, 1969, 100756]) == 2 + 2 + 966 + 50346
  {
    BaseFuelExamples();
    FuelExamples();
    FoldFour(12, 14, 1969, 100756, BaseFuel);
    FoldFour(12, 14, 1969, 100756, FuelFor);
  }

  /** Folding four masses adds their four fuel amounts. */
  lemma FoldFour(a: int, b: int, c: int, d: int, fuel: int -> int)
    ensures FoldFuel([a, b, c, d], 0, fuel) == fuel(a) + fuel(b) + fuel(c) + fuel(d)
  {
    assert [a, b, c, d][1..] == [b, c, d] && [b, c, d][1..] == [c, d];
    assert [c, d][1..] == [d] && [d][1..] == [];
    var ab := fuel(a) + fuel(b);
    assert FoldFuel([d], ab + fuel(c), fuel) == ab + fuel(c) + fuel(d);
    assert FoldFuel([a, b, c, d], 0, fuel) == FoldFuel([c, d], ab, fuel);
  }
}
