/** Day 5, `utils.rs`: the decimal value of every character of a formatted
    number. */
module IntcodeDigits {
  import opened Results
  import opened Text

  /** `digits`: `chars().map(|c| c.to_digit(10).unwrap())`. A character that is
      not a decimal digit (the `-` of a negative number, say) makes the `unwrap`
      panic, which is `None` here. */
  function Digits(s: string): (r: Option<seq<int>>)
    ensures r.Some? <==> AllDigits(s)
    ensures r.Some? ==> |r.value| == |s|
    ensures r.Some? ==> forall i :: 0 <= i < |s| ==> r.value[i] == DigitValue(s[i])
  {
    if s == [] then Some([])
    else if !IsDigit(s[0]) then None
    else
      match Digits(s[1..])
      case None => None
      case Some(rest) => Some([DigitValue(s[0]) as int] + rest)
  }

  /** `digits` is a per-character map, so it distributes over concatenation. */
  lemma {:induction false} DigitsAppend(s: string, t: string)
    ensures Digits(s + t) == if Digits(s).Some? && Digits(t).Some?
                             then Some(Digits(s).value + Digits(t).value)
                             else None
  {
    if s == [] {
      assert s + t == t;
      if Digits(t).Some? {
        assert Digits(s).value + Digits(t).value == Digits(t).value;
      }
    } else {
      assert (s + t)[0] == s[0];
      assert (s + t)[1..] == s[1..] + t;
      DigitsAppend(s[1..], t);
      if IsDigit(s[0]) && Digits(s[1..]).Some? && Digits(t).Some? {
        assert [DigitValue(s[0]) as int] + (Digits(s[1..]).value + Digits(t).value)
            == [DigitValue(s[0]) as int] + Digits(s[1..]).value + Digits(t).value;
      }
    }
  }
}
