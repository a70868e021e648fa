/** Day 4, `day4.rs`: counting the passwords in a range whose decimal digits
    never decrease and contain an adjacent equal pair (part 1), or a digit
    with exactly one adjacent equal pair (part 2).

    A panic of the source (`unwrap` on a failed parse, a missing bound) is
    `None` here. Passwords are `u32`; the `+ 1` of the upper bound is not
    wrapped. */
module Passwords {
  import opened Results
  import opened Text

  /** `lo..hi`, the upper bound excluded. */
  datatype Range = Range(start: nat, end: nat)

  /** `input_generator`: `a-b` becomes `a..b + 1`; the pieces are not
      trimmed, and pieces after the second must still parse. */
  function InputGenerator(text: string): Option<Range>
  {
    match ParseEach(Split(text, '-'), ParseU32)
    case None => None
    case Some(bounds) => if |bounds| < 2 then None else Some(Range(bounds[0], bounds[1] + 1))
  }

  /** `a-b` with both written in decimal gives the range of `a` to `b`, both
      included. */
  lemma InputGeneratorReadsBounds(a: nat, b: nat)
    requires a < 0x1_0000_0000 && b < 0x1_0000_0000
    ensures InputGenerator(DecimalString(a) + "-" + DecimalString(b)) == Some(Range(a, b + 1))
  {
    var text := DecimalString(a) + "-" + DecimalString(b);
    var pieces := [DecimalString(a), DecimalString(b)];
    NoDashInNumeral(a);
    NoDashInNumeral(b);
    assert Join(pieces, '-') == text by {
      assert pieces[1..] == [DecimalString(b)];
    }
    SplitJoin(pieces, '-');
    assert Split(text, '-') == pieces;
    ParseNatOfDecimalString(a);
    ParseNatOfDecimalString(b);
    assert ParseU32(pieces[0]) == Some(a) && ParseU32(pieces[1]) == Some(b);
    var bounds := ParseEach(pieces, ParseU32).value;
    assert bounds == [a, b];
  }

  lemma NoDashInNumeral(n: nat)
    ensures '-' !in DecimalString(n)
  {
    var numeral := DecimalString(n);
    assert AllDigits(numeral);
    assert forall k :: 0 <= k < |numeral| ==> numeral[k] != '-';
  }

  // ---------------------------------------------------------------------------
  // Filtering a range
  // ---------------------------------------------------------------------------

  /** The values of `start..end` that `validator` accepts, in ascending
      order. */
  function ValidIn(start: nat, end: nat, validator: nat -> bool): seq<nat>
    decreases end
  {
    if end <= start then []
    else ValidIn(start, end - 1, validator) + (if validator(end - 1) then [end - 1] else [])
  }

  /** A value is listed exactly when it is in the range and accepted, and the
      list is strictly ascending. */
  lemma ValidInMeaning(start: nat, end: nat, validator: nat -> bool)
    ensures var valid := ValidIn(start, end, validator);
            && (forall p :: p in valid <==> start <= p < end && validator(p))
            && forall i, j :: 0 <= i < j < |valid| ==> valid[i] < valid[j]
  {
    ValidInMembers(start, end, validator);
    ValidInAscending(start, end, validator);
  }

  /** Strictly ascending. */
  predicate Ascending(xs: seq<nat>)
  {
    forall i, j :: 0 <= i < j < |xs| ==> xs[i] < xs[j]
  }

  lemma {:induction false} ValidInMembers(start: nat, end: nat, validator: nat -> bool)
    ensures forall p :: p in ValidIn(start, end, validator) <==> start <= p < end && validator(p)
    decreases end
  {
    if end > start {
      ValidInMembers(start, end - 1, validator);
      var before := ValidIn(start, end - 1, validator);
      var last := if validator(end - 1) then [end - 1] else [];
      assert ValidIn(start, end, validator) == before + last;
      forall p
        ensures p in before + last <==> p in before || p in last
      {
      }
    }
  }

  lemma {:induction false} ValidInAscending(start: nat, end: nat, validator: nat -> bool)
    ensures Ascending(ValidIn(start, end, validator))
    decreases end
  {
    if end > start {
      ValidInAscending(start, end - 1, validator);
      ValidInMembers(start, end - 1, validator);
      var before := ValidIn(start, end - 1, validator);
      var last := if validator(end - 1) then [end - 1] else [];
      var valid := before + last;
      assert ValidIn(start, end, validator) == valid;
      forall i, j | 0 <= i < j < |valid|
        ensures valid[i] < valid[j]
      {
        assert valid[i] == before[i];
        if j >= |before| {
          assert before[i] in before;
          assert valid[j] == end - 1;
        } else {
          assert valid[j] == before[j];
        }
      }
    }
  }

  /** A stricter validator never accepts more values. */
  lemma {:induction false} ValidInMonotone(start: nat, end: nat, stricter: nat -> bool, looser: nat -> bool)
    requires forall p :: start <= p < end && stricter(p) ==> looser(p)
    ensures |ValidIn(start, end, stricter)| <= |ValidIn(start, end, looser)|
    decreases end
  {
    if end > start {
      ValidInMonotone(start, end - 1, stricter, looser);
    }
  }

  /** `find_valid_passwords_in`: push every accepted value, in order. */
  method FindValidPasswordsIn(range: Range, validator: nat -> bool) returns (passwords: seq<nat>)
    ensures passwords == ValidIn(range.start, range.end, validator)
  {
    passwords := [];
    var password := range.start;
    while password < range.end
      invariant range.start <= password || range.end <= range.start
      invariant passwords == ValidIn(range.start, if password < range.end then password else range.end, validator)
    {
      if validator(password) {
        passwords := passwords + [password];
      }
      password := password + 1;
    }
  }

  // ---------------------------------------------------------------------------
  // Scanning a password
  // ---------------------------------------------------------------------------

  /** `to_string().chars().map(to_digit)`: the decimal digits, most
      significant first. */
  function Numbers(password: nat): (numbers: seq<nat>)
    ensures |numbers| >= 1 && forall i :: 0 <= i < |numbers| ==> numbers[i] < 10
  {
    var text := DecimalString(password);
    seq(|text|, i requires 0 <= i < |text| => DigitValue(text[i]))
  }

  /** The digits of a number of two or more digits are those of its tens
      followed by its units digit. */
  lemma NumbersStep(password: nat)
    ensures password < 10 ==> Numbers(password) == [password]
    ensures password >= 10 ==> Numbers(password) == Numbers(password / 10) + [password % 10]
  {
  }

  /** The fold's accumulator: whether no digit so far exceeds its successor,
      and for each digit the number of adjacent equal pairs of it so far. */
  datatype Validations = Validations(increasing: bool, doubleCount: map<nat, nat>)

  /** The fold's closure at `index`: compare with the next digit, if any. */
  function ScanStep(numbers: seq<nat>, acc: Validations, index: nat): Validations
    requires index < |numbers|
  {
    if index + 1 < |numbers| then
      var number, next := numbers[index], numbers[index + 1];
      var count := if number in acc.doubleCount then acc.doubleCount[number] else 0;
      Validations(acc.increasing && number <= next,
                  if number == next then acc.doubleCount[number := count + 1] else acc.doubleCount)
    else acc
  }

  /** The fold over the first `k` digits. */
  function ScanPrefix(numbers: seq<nat>, k: nat): Validations
    requires k <= |numbers|
  {
    if k == 0 then Validations(true, map[]) else ScanStep(numbers, ScanPrefix(numbers, k - 1), k - 1)
  }

  /** `scan_password`. */
  function ScanPassword(password: nat): Validations
  {
    ScanPrefix(Numbers(password), |Numbers(password)|)
  }

  /** No digit exceeds the next. */
  predicate Increasing(numbers: seq<nat>)
  {
    forall i :: 0 <= i && i + 1 < |numbers| ==> numbers[i] <= numbers[i + 1]
  }

  /** How many `i < k` have `numbers[i] == numbers[i + 1] == d`. */
  function PairCount(numbers: seq<nat>, k: nat, d: nat): nat
  {
    if k == 0 then 0
    else PairCount(numbers, k - 1, d) + (if k < |numbers| && numbers[k - 1] == d && numbers[k] == d then 1 else 0)
  }

  /** After `k` digits, `increasing` says no digit before the `k`-th exceeds
      its successor, and `double_count` holds exactly the digits with a pair
      among the first `k` positions, each with its number of pairs. */
  lemma {:induction false} ScanPrefixMeaning(numbers: seq<nat>, k: nat)
    requires k <= |numbers|
    ensures ScanPrefix(numbers, k).increasing <==>
              forall i :: 0 <= i < k && i + 1 < |numbers| ==> numbers[i] <= numbers[i + 1]
    ensures forall d :: d in ScanPrefix(numbers, k).doubleCount <==> PairCount(numbers, k, d) > 0
    ensures forall d :: d in ScanPrefix(numbers, k).doubleCount ==>
              ScanPrefix(numbers, k).doubleCount[d] == PairCount(numbers, k, d)
  {
    if k > 0 {
      ScanPrefixMeaning(numbers, k - 1);
    }
  }

  /** The scan of a password: `increasing` exactly when its digits never
      decrease, and a count for exactly the digits that form adjacent pairs. */
  lemma ScanPasswordMeaning(password: nat)
    ensures var numbers := Numbers(password);
            var v := ScanPassword(password);
            && (v.increasing <==> Increasing(numbers))
            && (forall d :: d in v.doubleCount <==> PairCount(numbers, |numbers|, d) > 0)
            && (forall d :: d in v.doubleCount ==> v.doubleCount[d] == PairCount(numbers, |numbers|, d))
  {
    ScanPrefixMeaning(Numbers(password), |Numbers(password)|);
  }

  /** A digit has a pair before `k` exactly when some adjacent pair before `k`
      is equal and made of that digit. */
  lemma {:induction false} PairCountPositive(numbers: seq<nat>, k: nat, d: nat)
    ensures PairCount(numbers, k, d) > 0 <==>
              exists i :: 0 <= i < k && i + 1 < |numbers| && numbers[i] == d && numbers[i + 1] == d
  {
    if k > 0 {
      PairCountPositive(numbers, k - 1, d);
    }
  }

  // ---------------------------------------------------------------------------
  // The two rules
  // ---------------------------------------------------------------------------

  /** `is_valid_password_in_part1`. */
  predicate IsValidPasswordInPart1(password: nat)
  {
    var validations := ScanPassword(password);
    validations.increasing && |validations.doubleCount| >= 1
  }

  /** `is_valid_password_in_part2`. */
  predicate IsValidPasswordInPart2(password: nat)
  {
    var validations := ScanPassword(password);
    && validations.increasing
    && |validations.doubleCount| > 0
    && exists d :: d in validations.doubleCount && validations.doubleCount[d] == 1
  }

  /** Part 1: the digits never decrease and two adjacent ones are equal. */
  lemma Part1Meaning(password: nat)
    ensures var numbers := Numbers(password);
            IsValidPasswordInPart1(password) <==>
              Increasing(numbers) && exists i :: 0 <= i && i + 1 < |numbers| && numbers[i] == numbers[i + 1]
  {
    var numbers := Numbers(password);
    var v := ScanPassword(password);
    ScanPasswordMeaning(password);
    if |v.doubleCount| >= 1 {
      var d :| d in v.doubleCount;
      PairCountPositive(numbers, |numbers|, d);
    }
    if exists i :: 0 <= i && i + 1 < |numbers| && numbers[i] == numbers[i + 1] {
      var i :| 0 <= i && i + 1 < |numbers| && numbers[i] == numbers[i + 1];
      PairCountPositive(numbers, |numbers|, numbers[i]);
      assert numbers[i] in v.doubleCount;
      assert |v.doubleCount| >= 1 by {
        assert numbers[i] in v.doubleCount.Keys;
      }
    }
  }

  /** Part 2: the digits never decrease and some digit forms exactly one
      adjacent equal pair. */
  lemma Part2Meaning(password: nat)
    ensures var numbers := Numbers(password);
            IsValidPasswordInPart2(password) <==>
              Increasing(numbers) && exists d :: PairCount(numbers, |numbers|, d) == 1
  {
    var numbers := Numbers(password);
    var v := ScanPassword(password);
    ScanPasswordMeaning(password);
    if IsValidPasswordInPart2(password) {
      var d :| d in v.doubleCount && v.doubleCount[d] == 1;
      assert PairCount(numbers, |numbers|, d) == 1;
    }
    if exists d :: PairCount(numbers, |numbers|, d) == 1 {
      var d :| PairCount(numbers, |numbers|, d) == 1;
      assert d in v.doubleCount;
      assert |v.doubleCount| > 0 by {
        assert d in v.doubleCount.Keys;
      }
    }
  }

  /** In digits that never decrease, each digit's occurrences are adjacent,
      so up to position `k` a digit occurring `c > 0` times forms `c - 1`
      pairs. */
  lemma {:induction false} PairCountOfIncreasing(numbers: seq<nat>, k: nat, d: nat)
    requires Increasing(numbers) && k < |numbers|
    ensures var c := multiset(numbers[..k + 1])[d];
            PairCount(numbers, k, d) == if c == 0 then 0 else c - 1
  {
    if k == 0 {
      assert numbers[..1] == [numbers[0]];
    } else {
      PairCountOfIncreasing(numbers, k - 1, d);
      assert numbers[..k + 1] == numbers[..k] + [numbers[k]];
      if numbers[k] == d && multiset(numbers[..k])[d] > 0 {
        var j :| j in numbers[..k] && j == d;
        var i :| 0 <= i < k && numbers[..k][i] == j;
        IncreasingBetween(numbers, i, k - 1);
      }
    }
  }

  /** In digits that never decrease, an earlier digit is at most a later one. */
  lemma {:induction false} IncreasingBetween(numbers: seq<nat>, i: nat, j: nat)
    requires Increasing(numbers) && i <= j < |numbers|
    ensures numbers[i] <= numbers[j]
    decreases j - i
  {
    if i < j {
      IncreasingBetween(numbers, i + 1, j);
    }
  }

  /** Part 2 in the puzzle's words: the digits never decrease and some digit
      occurs exactly twice, a group of two not part of a larger group. */
  lemma Part2AsGroups(password: nat)
    ensures var numbers := Numbers(password);
            IsValidPasswordInPart2(password) <==>
              Increasing(numbers) && exists d :: multiset(numbers)[d] == 2
  {
    var numbers := Numbers(password);
    var last := |numbers| - 1;
    Part2Meaning(password);
    assert numbers[..last + 1] == numbers;
    if Increasing(numbers) {
      forall d
        ensures PairCount(numbers, |numbers|, d) == 1 <==> multiset(numbers)[d] == 2
      {
        PairCountOfIncreasing(numbers, last, d);
        assert PairCount(numbers, |numbers|, d) == PairCount(numbers, last, d);
        assert multiset(numbers[..last + 1])[d] == multiset(numbers)[d];
      }
      if exists d :: multiset(numbers)[d] == 2 {
        var d :| multiset(numbers)[d] == 2;
        assert PairCount(numbers, |numbers|, d) == 1;
      }
      if exists d :: PairCount(numbers, |numbers|, d) == 1 {
        var d :| PairCount(numbers, |numbers|, d) == 1;
        assert multiset(numbers)[d] == 2;
      }
    }
  }

  /** Every password valid in part 2 is valid in part 1. */
  lemma Part2ImpliesPart1(password: nat)
    ensures IsValidPasswordInPart2(password) ==> IsValidPasswordInPart1(password)
  {
  }

  // The puzzle's examples, password by password.

  /** Digits that never decrease, with an adjacent equal pair, pass part 1. */
  lemma AcceptedInPart1(password: nat, i: nat)
    requires Increasing(Numbers(password))
    requires i + 1 < |Numbers(password)| && Numbers(password)[i] == Numbers(password)[i + 1]
    ensures IsValidPasswordInPart1(password)
  {
    Part1Meaning(password);
  }

  /** Digits that never decrease, with a digit forming exactly one pair, pass
      part 2. */
  lemma AcceptedInPart2(password: nat, d: nat)
    requires Increasing(Numbers(password)) && PairCount(Numbers(password), |Numbers(password)|, d) == 1
    ensures IsValidPasswordInPart2(password)
  {
    Part2Meaning(password);
  }

  /** The pair count of six digits, pair by pair. */
  lemma PairCountOfSix(numbers: seq<nat>, d: nat)
    requires |numbers| == 6
    ensures PairCount(numbers, 6, d)
         == (if numbers[0] == d && numbers[1] == d then 1 else 0)
          + (if numbers[1] == d && numbers[2] == d then 1 else 0)
          + (if numbers[2] == d && numbers[3] == d then 1 else 0)
          + (if numbers[3] == d && numbers[4] == d then 1 else 0)
          + (if numbers[4] == d && numbers[5] == d then 1 else 0)
  {
    assert PairCount(numbers, 1, d) == (if numbers[0] == d && numbers[1] == d then 1 else 0);
    assert PairCount(numbers, 2, d) == PairCount(numbers, 1, d) + (if numbers[1] == d && numbers[2] == d then 1 else 0);
    assert PairCount(numbers, 3, d) == PairCount(numbers, 2, d) + (if numbers[2] == d && numbers[3] == d then 1 else 0);
    assert PairCount(numbers, 4, d) == PairCount(numbers, 3, d) + (if numbers[3] == d && numbers[4] == d then 1 else 0);
    assert PairCount(numbers, 5, d) == PairCount(numbers, 4, d) + (if numbers[4] == d && numbers[5] == d then 1 else 0);
  }

  /** The digits of a six-digit number, most significant first. */
  lemma NumbersOfSix(a: nat, b: nat, c: nat, d: nat, e: nat, f: nat)
    requires 1 <= a < 10 && b < 10 && c < 10 && d < 10 && e < 10 && f < 10
    ensures Numbers(((((a * 10 + b) * 10 + c) * 10 + d) * 10 + e) * 10 + f) == [a, b, c, d, e, f]
  {
    var p2 := a * 10 + b;
    var p3 := p2 * 10 + c;
    var p4 := p3 * 10 + d;
    var p5 := p4 * 10 + e;
    NumbersStep(a);
    NumbersAppend(a, b);
    NumbersAppend(p2, c);
    NumbersAppend(p3, d);
    NumbersAppend(p4, e);
    NumbersAppend(p5, f);
  }

  /** Writing one more digit after a positive number appends that digit. */
  lemma NumbersAppend(p: nat, x: nat)
    requires p >= 1 && x < 10
    ensures Numbers(p * 10 + x) == Numbers(p) + [x]
  {
    var q := p * 10 + x;
    assert q / 10 == p && q % 10 == x;
    NumbersStep(q);
  }

  /** 112233: digits never decrease, and every digit forms one pair. */
  lemma Example112233()
    ensures IsValidPasswordInPart1(112233) && IsValidPasswordInPart2(112233)
  {
    NumbersOfSix(1, 1, 2, 2, 3, 3);
    PairCountOfSix(Numbers(112233), 1);
    AcceptedInPart1(112233, 0);
    AcceptedInPart2(112233, 1);
  }

  /** 112256: valid in both parts, by its pair of ones. */
  lemma Example112256()
    ensures IsValidPasswordInPart1(112256) && IsValidPasswordInPart2(112256)
  {
    NumbersOfSix(1, 1, 2, 2, 5, 6);
    PairCountOfSix(Numbers(112256), 1);
    AcceptedInPart1(112256, 0);
    AcceptedInPart2(112256, 1);
  }

  /** 122356: valid in both parts, by its pair of twos. */
  lemma Example122356()
    ensures IsValidPasswordInPart1(122356) && IsValidPasswordInPart2(122356)
  {
    NumbersOfSix(1, 2, 2, 3, 5, 6);
    PairCountOfSix(Numbers(122356), 2);
    AcceptedInPart1(122356, 1);
    AcceptedInPart2(122356, 2);
  }

  /** 123456: no two adjacent digits are equal, so neither part accepts it. */
  lemma Example123456()
    ensures !IsValidPasswordInPart1(123456) && !IsValidPasswordInPart2(123456)
  {
    NumbersOfSix(1, 2, 3, 4, 5, 6);
    Part1Meaning(123456);
  }

  /** 111134: part 1 accepts it, but its ones form three pairs, a group
      larger than two, so part 2 does not. */
  lemma Example111134()
    ensures IsValidPasswordInPart1(111134) && !IsValidPasswordInPart2(111134)
  {
    NumbersOfSix(1, 1, 1, 1, 3, 4);
    var numbers := Numbers(111134);
    AcceptedInPart1(111134, 0);
    Part2Meaning(111134);
    forall d
      ensures PairCount(numbers, |numbers|, d) != 1
    {
      PairCountOfSix(numbers, d);
    }
  }

  /** `solve_part1`. */
  method SolvePart1(range: Range) returns (count: nat)
    ensures count == |ValidIn(range.start, range.end, IsValidPasswordInPart1)|
  {
    var passwords := FindValidPasswordsIn(range, IsValidPasswordInPart1);
    count := |passwords|;
  }

  /** `solve_part2`. */
  method SolvePart2(range: Range) returns (count: nat)
    ensures count == |ValidIn(range.start, range.end, IsValidPasswordInPart2)|
  {
    var passwords := FindValidPasswordsIn(range, IsValidPasswordInPart2);
    count := |passwords|;
  }

  /** Part 2 never counts more passwords than part 1. */
  lemma Part2CountsNoMore(range: Range)
    ensures |ValidIn(range.start, range.end, IsValidPasswordInPart2)|
         <= |ValidIn(range.start, range.end, IsValidPasswordInPart1)|
  {
    ValidInMonotone(range.start, range.end, IsValidPasswordInPart2, IsValidPasswordInPart1);
  }
}
