/** The pieces of Rust's `str` API that the input generators use: splitting on a
    single character, `trim`, `lines`, `to_string` of a non-negative integer and
    `parse` into the integer types. Characters stand for the Unicode scalar
    values of a Rust `&str`. */
module Text {
  import opened Results

  // ---------------------------------------------------------------------------
  // Decimal digits
  // ---------------------------------------------------------------------------

  predicate IsDigit(c: char) { '0' <= c <= '9' }

  predicate AllDigits(s: string) { forall i :: 0 <= i < |s| ==> IsDigit(s[i]) }

  /** `char::to_digit(10)` on a decimal digit. */
  function DigitValue(c: char): (d: nat)
    requires IsDigit(c)
    ensures d < 10
  {
    (c as int) - ('0' as int)
  }

  function DigitChar(d: nat): (c: char)
    requires d < 10
    ensures IsDigit(c) && DigitValue(c) == d
  {
    (('0' as int) + d) as char
  }

  function Pow10(i: nat): (p: nat)
    ensures p >= 1
  {
    if i == 0 then 1 else 10 * Pow10(i - 1)
  }

  /** The number a string of decimal digits denotes, most significant digit first. */
  function DigitsValue(s: string): nat
    requires AllDigits(s)
  {
    if s == [] then 0 else DigitsValue(s[..|s| - 1]) * 10 + DigitValue(s[|s| - 1])
  }

  /** `n.to_string()` (also `format!("{}", n)`) for a non-negative integer: the
      shortest decimal numeral, with no sign and no leading zero. */
  function DecimalString(n: nat): (s: string)
    ensures 1 <= |s| && AllDigits(s)
    ensures DigitsValue(s) == n
    ensures s[0] == '0' ==> n == 0 && s == "0"
  {
    if n < 10 then [DigitChar(n)]
    else
      var prefix := DecimalString(n / 10);
      var s := prefix + [DigitChar(n % 10)];
      assert s[..|s| - 1] == prefix;
      s
  }

  /** `n` is at least 0 and below `10 * p`; division by `10 * p` is division by 10 then by `p`. */
  lemma DivideTwice(a: nat, p: nat)
    requires p >= 1
    ensures a / (10 * p) == (a / 10) / p
  {
    var q := a / 10;
    var r := a % 10;
    var bigQ := q / p;
    var bigR := q % p;
    assert a == 10 * q + r;
    assert q == p * bigQ + bigR;
    assert a == (10 * p) * bigQ + (10 * bigR + r);
    assert 0 <= 10 * bigR + r < 10 * p;
    DivisionUnique(a, 10 * p, bigQ, 10 * bigR + r);
  }

  lemma DivisionUnique(a: int, d: int, q: int, r: int)
    requires d > 0 && 0 <= r < d && a == d * q + r
    ensures a / d == q
  {
    var q' := a / d;
    var r' := a % d;
    assert a == d * q' + r';
    if q' < q {
      var k := q - q';
      assert d * q == d * q' + d * k;
      AtLeastOnce(d, k);
      assert false;
    } else if q' > q {
      var k := q' - q;
      assert d * q' == d * q + d * k;
      AtLeastOnce(d, k);
      assert false;
    }
  }

  lemma AtLeastOnce(d: int, k: int)
    requires d > 0 && k >= 1
    ensures d * k >= d
  {
  }

  /** The `i`-th digit from the right of a decimal numeral is the `i`-th decimal
      digit of the number it denotes. */
  lemma {:induction false} DigitPlace(t: string, i: nat)
    requires AllDigits(t) && i < |t|
    ensures DigitValue(t[|t| - 1 - i]) == (DigitsValue(t) / Pow10(i)) % 10
  {
    var u := t[..|t| - 1];
    var d := DigitValue(t[|t| - 1]);
    assert AllDigits(u);
    var v := DigitsValue(t);
    assert v == DigitsValue(u) * 10 + d;
    if i > 0 {
      DigitPlace(u, i - 1);
      assert t[|t| - 1 - i] == u[|u| - 1 - (i - 1)];
      DivideTwice(v, Pow10(i - 1));
      assert v / 10 == DigitsValue(u);
    }
  }

  function Zeros(k: nat): (z: string)
    ensures |z| == k && forall i :: 0 <= i < k ==> z[i] == '0'
  {
    if k == 0 then "" else "0" + Zeros(k - 1)
  }

  /** Leading zeros do not change the number a numeral denotes. */
  lemma {:induction false} LeadingZeros(k: nat, s: string)
    requires AllDigits(s)
    ensures AllDigits(Zeros(k) + s) && DigitsValue(Zeros(k) + s) == DigitsValue(s)
  {
    var t := Zeros(k) + s;
    ZerosThenDigits(k, s);
    if s == [] {
      assert t == Zeros(k);
      ZerosValue(k);
    } else {
      var u := s[..|s| - 1];
      ZerosThenDigits(k, u);
      LeadingZeros(k, u);
      assert t[..|t| - 1] == Zeros(k) + u;
      assert t[|t| - 1] == s[|s| - 1];
    }
  }

  lemma ZerosThenDigits(k: nat, s: string)
    requires AllDigits(s)
    ensures AllDigits(Zeros(k) + s)
  {
    var t := Zeros(k) + s;
    forall i | 0 <= i < |t|
      ensures IsDigit(t[i])
    {
      if i >= k {
        assert t[i] == s[i - k];
      }
    }
  }

  /** A numeral of zeros alone denotes 0. */
  lemma {:induction false} ZerosValue(k: nat)
    ensures AllDigits(Zeros(k)) && DigitsValue(Zeros(k)) == 0
  {
    if k > 0 {
      ZerosValue(k - 1);
      assert Zeros(k)[..k - 1] == Zeros(k - 1);
    }
  }

  // ---------------------------------------------------------------------------
  // Parsing integers (`str::parse`)
  // ---------------------------------------------------------------------------

  /** `str::parse` into an unsigned type before its range check: an optional
      `+` followed by at least one decimal digit. */
  function ParseNat(s: string): (r: Option<nat>)
    ensures r.Some? <==> var body := if |s| > 0 && s[0] == '+' then s[1..] else s;
                          body != [] && AllDigits(body)
  {
    var body := if |s| > 0 && s[0] == '+' then s[1..] else s;
    if body != [] && AllDigits(body) then Some(DigitsValue(body)) else None
  }

  /** `str::parse::<u32>()`; `None` where Rust returns an error. */
  function ParseU32(s: string): (r: Option<nat>)
    ensures r.Some? ==> r.value < 0x1_0000_0000
  {
    match ParseNat(s)
    case Some(n) => if n < 0x1_0000_0000 then Some(n) else None
    case None => None
  }

  /** `str::parse::<usize>()` on a 64-bit target. */
  function ParseUsize(s: string): (r: Option<nat>)
    ensures r.Some? ==> r.value < 0x1_0000_0000_0000_0000
  {
    match ParseNat(s)
    case Some(n) => if n < 0x1_0000_0000_0000_0000 then Some(n) else None
    case None => None
  }

  /** `str::parse::<i32>()`: an optional sign, `+` or `-`, then at least one digit,
      and a value that fits in 32 bits. */
  function ParseI32(s: string): (r: Option<int>)
    ensures r.Some? ==> -0x8000_0000 <= r.value < 0x8000_0000
  {
    var negative := |s| > 0 && s[0] == '-';
    var magnitude := if negative then s[1..] else s;
    if magnitude != [] && magnitude[0] == '+' && negative then None
    else
      match ParseNat(magnitude)
      case None => None
      case Some(n) =>
        var v: int := if negative then -(n as int) else n as int;
        if -0x8000_0000 <= v < 0x8000_0000 then Some(v) else None
  }

  lemma ParseNatOfDecimalString(n: nat)
    ensures ParseNat(DecimalString(n)) == Some(n)
  {
  }

  /** `i32`'s `to_string`: the decimal numeral of the magnitude, after a minus
      sign when the number is negative. */
  function SignedString(n: int): string
  {
    if n < 0 then "-" + DecimalString(-n) else DecimalString(n)
  }

  /** Each number written with `SignedString`. */
  function SignedStrings(values: seq<int>): (texts: seq<string>)
    ensures |texts| == |values|
    ensures forall i :: 0 <= i < |values| ==> texts[i] == SignedString(values[i])
  {
    if values == [] then [] else [SignedString(values[0])] + SignedStrings(values[1..])
  }

  lemma {:induction false} ParseI32OfDecimalString(n: int)
    requires -0x8000_0000 <= n < 0x8000_0000
    ensures ParseI32(SignedString(n)) == Some(n)
  {
    var numeral := DecimalString(if n < 0 then -n else n);
    ParseNatOfDecimalString(if n < 0 then -n else n);
    assert IsDigit(numeral[0]);
    if n < 0 {
      ParseNegative(numeral, -n);
    } else {
      ParseNonNegative(numeral, n);
    }
  }

  /** A numeral starting with a digit parses as an `i32` below 2^31 as it is. */
  lemma ParseNonNegative(numeral: string, m: nat)
    requires numeral != [] && IsDigit(numeral[0])
    requires ParseNat(numeral) == Some(m) && m < 0x8000_0000
    ensures ParseI32(numeral) == Some(m)
  {
  }

  /** A minus sign before a numeral starting with a digit negates it, down to -2^31. */
  lemma ParseNegative(numeral: string, m: nat)
    requires numeral != [] && IsDigit(numeral[0])
    requires ParseNat(numeral) == Some(m) && m <= 0x8000_0000
    ensures ParseI32("-" + numeral) == Some(-(m as int))
  {
    assert ("-" + numeral)[0] == '-';
    assert ("-" + numeral)[1..] == numeral;
  }

  /** A printed `i32` is a minus sign, when negative, and decimal digits. */
  lemma SignedStringShape(n: int)
    ensures var s := SignedString(n);
            && |s| >= 1 && IsDigit(s[|s| - 1])
            && forall k :: 0 <= k < |s| ==> IsDigit(s[k]) || (k == 0 && n < 0 && s[k] == '-')
  {
    var numeral := DecimalString(if n < 0 then -n else n);
    if n < 0 {
      assert forall k :: 1 <= k < |SignedString(n)| ==> SignedString(n)[k] == numeral[k - 1];
    }
  }

  // ---------------------------------------------------------------------------
  // Splitting and joining (`str::split` with a one-character pattern)
  // ---------------------------------------------------------------------------

  /** `s.split(sep)`: the maximal pieces between occurrences of `sep`; there is
      always one more piece than there are separators. */
  function Split(s: string, sep: char): (parts: seq<string>)
    ensures |parts| >= 1
    ensures forall i :: 0 <= i < |parts| ==> sep !in parts[i]
  {
    if s == [] then [""]
    else
      var rest := Split(s[1..], sep);
      if s[0] == sep then [""] + rest
      else [[s[0]] + rest[0]] + rest[1..]
  }

  /** A string splits into two or more pieces exactly when it holds the
      separator. */
  lemma {:induction false} SplitInTwo(s: string, sep: char)
    ensures |Split(s, sep)| >= 2 <==> sep in s
  {
    if s != [] {
      SplitInTwo(s[1..], sep);
      assert s == [s[0]] + s[1..];
    }
  }

  /** The inverse of `Split`: the parts with `sep` between neighbours. */
  function Join(parts: seq<string>, sep: char): string
    requires |parts| >= 1
  {
    if |parts| == 1 then parts[0] else parts[0] + [sep] + Join(parts[1..], sep)
  }

  lemma {:induction false} JoinSplit(s: string, sep: char)
    ensures Join(Split(s, sep), sep) == s
  {
    if s != [] {
      var rest := Split(s[1..], sep);
      JoinSplit(s[1..], sep);
      if s[0] != sep {
        var parts := Split(s, sep);
        assert parts[1..] == rest[1..];
        if |rest| == 1 {
          assert Join(parts, sep) == [s[0]] + rest[0];
        } else {
          assert Join(parts, sep) == [s[0]] + rest[0] + [sep] + Join(rest[1..], sep);
        }
      }
    }
  }

  lemma {:induction false} SplitJoin(parts: seq<string>, sep: char)
    requires |parts| >= 1
    requires forall i :: 0 <= i < |parts| ==> sep !in parts[i]
    ensures Split(Join(parts, sep), sep) == parts
    decreases |parts|, |parts[0]|
  {
    if parts[0] == [] {
      if |parts| > 1 {
        SplitJoin(parts[1..], sep);
        assert Join(parts, sep) == [sep] + Join(parts[1..], sep);
        assert ([sep] + Join(parts[1..], sep))[1..] == Join(parts[1..], sep);
        assert [""] + parts[1..] == parts;
      }
    } else {
      var c := parts[0][0];
      var shorter := [parts[0][1..]] + parts[1..];
      assert c == parts[0][0] && c != sep;
      assert forall i :: 0 <= i < |shorter| ==> sep !in shorter[i] by {
        forall i | 0 <= i < |shorter| ensures sep !in shorter[i] {
          if i == 0 {
            assert shorter[0] == parts[0][1..];
            assert forall k :: 0 <= k < |parts[0][1..]| ==> parts[0][1..][k] == parts[0][k + 1];
          } else {
            assert shorter[i] == parts[i];
          }
        }
      }
      SplitJoin(shorter, sep);
      var joined := Join(parts, sep);
      assert shorter[1..] == parts[1..];
      assert joined == [c] + Join(shorter, sep) by {
        if |parts| > 1 {
          assert Join(shorter, sep) == parts[0][1..] + [sep] + Join(parts[1..], sep);
        }
        assert parts[0] == [c] + parts[0][1..];
      }
      assert joined[1..] == Join(shorter, sep);
      assert [[c] + shorter[0]] + shorter[1..] == parts by {
        assert [c] + parts[0][1..] == parts[0];
      }
    }
  }

  /** Every character of a join is the separator or a character of a part. */
  lemma {:induction false} JoinChars(parts: seq<string>, sep: char, c: char)
    requires |parts| >= 1
    requires c in Join(parts, sep)
    ensures c == sep || exists i :: 0 <= i < |parts| && c in parts[i]
  {
    if |parts| > 1 {
      var rest := Join(parts[1..], sep);
      if c !in parts[0] && c != sep {
        assert c in rest;
        JoinChars(parts[1..], sep, c);
        var i :| 0 <= i < |parts[1..]| && c in parts[1..][i];
        assert parts[i + 1] == parts[1..][i];
      }
    }
  }

  /** A join starts with the first part and ends with the last. */
  lemma {:induction false} JoinEnds(parts: seq<string>, sep: char)
    requires |parts| >= 1 && parts[0] != [] && parts[|parts| - 1] != []
    ensures var joined := Join(parts, sep);
            var last := parts[|parts| - 1];
            joined != [] && joined[0] == parts[0][0] && joined[|joined| - 1] == last[|last| - 1]
  {
    JoinEndsWithLast(parts, sep);
  }

  lemma {:induction false} JoinEndsWithLast(parts: seq<string>, sep: char)
    requires |parts| >= 1 && parts[|parts| - 1] != []
    ensures var joined := Join(parts, sep);
            var last := parts[|parts| - 1];
            joined != [] && joined[|joined| - 1] == last[|last| - 1]
  {
    if |parts| > 1 {
      assert parts[1..][|parts[1..]| - 1] == parts[|parts| - 1];
      JoinEndsWithLast(parts[1..], sep);
    }
  }

  // ---------------------------------------------------------------------------
  // Whitespace (`str::trim`) and `str::lines`
  // ---------------------------------------------------------------------------

  /** ASCII white space; other Unicode white space is not modelled. */
  predicate IsSpace(c: char) {
    c == ' ' || c == '\t' || c == '\n' || c == '\r' || c == '\U{B}' || c == '\U{C}'
  }

  /** `str::trim_start`: drop leading white space. */
  function TrimStart(s: string): string
  {
    if s != [] && IsSpace(s[0]) then TrimStart(s[1..]) else s
  }

  /** `str::trim_end`: drop trailing white space. */
  function TrimEnd(s: string): string
  {
    if s != [] && IsSpace(s[|s| - 1]) then TrimEnd(s[..|s| - 1]) else s
  }

  /** `trim_start` leaves a suffix that does not start with white space, and
      only white space was dropped. */
  lemma {:induction false} TrimStartShape(s: string)
    ensures var t := TrimStart(s);
            && |t| <= |s| && t == s[|s| - |t|..]
            && (forall i :: 0 <= i < |s| - |t| ==> IsSpace(s[i]))
            && (t == [] || !IsSpace(t[0]))
  {
    if s != [] && IsSpace(s[0]) {
      var rest := s[1..];
      TrimStartShape(rest);
      var t := TrimStart(rest);
      assert TrimStart(s) == t;
      assert rest[|rest| - |t|..] == s[|s| - |t|..];
      forall i | 0 <= i < |s| - |t|
        ensures IsSpace(s[i])
      {
        if i > 0 {
          assert s[i] == rest[i - 1];
        }
      }
    } else {
      assert TrimStart(s) == s;
      assert s[|s| - |s|..] == s;
    }
  }

  /** `trim_end` leaves a prefix that does not end with white space, and only
      white space was dropped. */
  lemma {:induction false} TrimEndShape(s: string)
    ensures var t := TrimEnd(s);
            && |t| <= |s| && t == s[..|t|]
            && (forall i :: |t| <= i < |s| ==> IsSpace(s[i]))
            && (t == [] || !IsSpace(t[|t| - 1]))
  {
    if s != [] && IsSpace(s[|s| - 1]) {
      var rest := s[..|s| - 1];
      TrimEndShape(rest);
      var t := TrimEnd(rest);
      assert TrimEnd(s) == t;
      assert rest[..|t|] == s[..|t|];
      forall i | |t| <= i < |s|
        ensures IsSpace(s[i])
      {
        if i < |s| - 1 {
          assert s[i] == rest[i];
        }
      }
    } else {
      assert TrimEnd(s) == s;
      assert s[..|s|] == s;
    }
  }

  /** `str::trim`: what is left neither starts nor ends with white space. */
  function Trim(s: string): (t: string)
    ensures |t| <= |s|
    ensures t == [] || (!IsSpace(t[0]) && !IsSpace(t[|t| - 1]))
  {
    var u := TrimEnd(s);
    TrimEndShape(s);
    TrimStartShape(u);
    var t := TrimStart(u);
    assert t != [] ==> t[|t| - 1] == u[|u| - 1];
    t
  }

  /** Trimming white space put in front of text that starts and ends with
      something else gives back the text. */
  lemma {:induction false} TrimPadded(padding: string, s: string)
    requires forall k :: 0 <= k < |padding| ==> IsSpace(padding[k])
    requires s != [] && !IsSpace(s[0]) && !IsSpace(s[|s| - 1])
    ensures Trim(padding + s) == s
    decreases |padding|
  {
    assert (padding + s)[|padding + s| - 1] == s[|s| - 1];
    if padding == [] {
      assert padding + s == s;
    } else {
      assert (padding + s)[1..] == padding[1..] + s;
      TrimPadded(padding[1..], s);
    }
  }

  /** `str::lines` followed by the callers' `trim`: the pieces between line feeds,
      where a final line feed does not start an extra, empty line. (The carriage
      return that `lines` strips from a `\r\n` ending is white space, and every
      caller trims each line, so keeping it here changes no result.) */
  function Lines(s: string): (lines: seq<string>)
    ensures s == [] ==> lines == []
    ensures s != [] ==> |lines| == |Split(s, '\n')| - (if s[|s| - 1] == '\n' then 1 else 0)
    ensures lines == Split(s, '\n')[..|lines|]
  {
    if s == [] then []
    else
      var parts := Split(s, '\n');
      if s[|s| - 1] == '\n' then
        LastSplitPieceEmpty(s, '\n');
        parts[..|parts| - 1]
      else parts
  }

  lemma {:induction false} LastSplitPieceEmpty(s: string, sep: char)
    requires s != [] && s[|s| - 1] == sep
    ensures |Split(s, sep)| >= 2 && Split(s, sep)[|Split(s, sep)| - 1] == ""
  {
    if |s| > 1 {
      LastSplitPieceEmpty(s[1..], sep);
    }
  }

  /** Lines without line feeds, joined at line feeds, with a non-empty last
      line, are read back as those lines. */
  lemma LinesOfJoin(lines: seq<string>)
    requires |lines| >= 1 && lines[|lines| - 1] != []
    requires forall i :: 0 <= i < |lines| ==> '\n' !in lines[i]
    ensures Lines(Join(lines, '\n')) == lines
  {
    SplitJoin(lines, '\n');
    JoinEndsWithLast(lines, '\n');
    var last := lines[|lines| - 1];
    assert last[|last| - 1] != '\n';
  }

  /** The same lines with a line feed after the last one read back the same. */
  lemma LinesOfTerminatedJoin(lines: seq<string>)
    requires |lines| >= 1
    requires forall i :: 0 <= i < |lines| ==> '\n' !in lines[i]
    ensures Lines(Join(lines, '\n') + "\n") == lines
  {
    JoinAppendEmpty(lines, '\n');
    assert forall i :: 0 <= i < |lines + [""]| ==> '\n' !in (lines + [""])[i];
    SplitJoin(lines + [""], '\n');
    assert (lines + [""])[..|lines|] == lines;
  }

  /** Joining one more, empty, part appends the separator. */
  lemma {:induction false} JoinAppendEmpty(parts: seq<string>, sep: char)
    requires |parts| >= 1
    ensures Join(parts + [""], sep) == Join(parts, sep) + [sep]
  {
    if |parts| > 1 {
      assert (parts + [""])[1..] == parts[1..] + [""];
      JoinAppendEmpty(parts[1..], sep);
    } else {
      assert (parts + [""])[1..] == [""];
    }
  }

  // ---------------------------------------------------------------------------
  // Parsing every piece (`.map(|p| parse(p).unwrap()).collect()`)
  // ---------------------------------------------------------------------------

  /** Applies `parse` to every piece; one failure fails the whole collection, as
      an `unwrap` inside the `map` panics. */
  function ParseEach<T>(pieces: seq<string>, parse: string -> Option<T>): (r: Option<seq<T>>)
    ensures r.Some? <==> forall i :: 0 <= i < |pieces| ==> parse(pieces[i]).Some?
    ensures r.Some? ==> |r.value| == |pieces| &&
                        forall i :: 0 <= i < |pieces| ==> parse(pieces[i]) == Some(r.value[i])
  {
    if pieces == [] then Some([])
    else
      match parse(pieces[0])
      case None => None
      case Some(first) =>
        match ParseEach(pieces[1..], parse)
        case None => None
        case Some(rest) => Some([first] + rest)
  }
}
