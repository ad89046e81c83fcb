/**
 * The pieces of the .NET base library that the scanner's parsing relies on:
 * decimal rendering of integers (string interpolation, ToString), the
 * whitespace classes, String.Split(char) and the integer parsers
 * byte.Parse / uint.Parse / int.TryParse under NumberStyles.Integer.
 */
module Text {
  import opened Wrappers
  import opened Exceptions

  /* ---------------------------------------------------------------- digits */

  /** An ASCII decimal digit. */
  predicate IsDigit(c: char) {
    '0' <= c <= '9'
  }

  predicate AllDigits(s: string) {
    forall i :: 0 <= i < |s| ==> IsDigit(s[i])
  }

  function DigitValue(c: char): nat
    requires IsDigit(c)
  {
    c as int - '0' as int
  }

  function DigitChar(d: nat): (c: char)
    requires d < 10
    ensures IsDigit(c) && DigitValue(c) == d
  {
    ('0' as int + d) as char
  }

  /** The number a string of decimal digits denotes, most significant first. */
  function DigitsValue(s: string): nat
    requires AllDigits(s)
  {
    if s == [] then 0 else DigitsValue(s[..|s| - 1]) * 10 + DigitValue(s[|s| - 1])
  }

  /* ------------------------------------------------------ decimal rendering */

  /** The decimal text of a natural number, as Int32.ToString renders it. */
  function NatToString(n: nat): (s: string)
    ensures 1 <= |s| && AllDigits(s) && DigitsValue(s) == n
    ensures n < 10 ==> |s| == 1
    ensures n < 100 ==> |s| <= 2
    ensures n < 1000 ==> |s| <= 3
  {
    if n < 10 then [DigitChar(n)]
    else
      var s := NatToString(n / 10) + [DigitChar(n % 10)];
      assert s[..|s| - 1] == NatToString(n / 10);
      s
  }

  /** The decimal text of an integer, with a leading '-' when it is negative. */
  function IntToString(i: int): (s: string)
    ensures 1 <= |s|
    ensures i >= 0 ==> s == NatToString(i)
    ensures i < 0 ==> s == "-" + NatToString(-i)
  {
    if i < 0 then "-" + NatToString(-i) else NatToString(i)
  }

  /* ------------------------------------------------------------ whitespace */

  /** char.IsWhiteSpace: the Unicode separators plus U+0009..U+000D and U+0085. */
  predicate IsWhiteSpace(c: char) {
    || c == ' ' || ('\t' <= c <= '\r') || c == '\U{0085}' || c == '\U{00A0}' || c == '\U{1680}'
    || ('\U{2000}' <= c <= '\U{200A}') || c == '\U{2028}' || c == '\U{2029}' || c == '\U{202F}'
    || c == '\U{205F}' || c == '\U{3000}'
  }

  /** The whitespace the integer parsers skip before and after a number. */
  predicate IsNumberWhite(c: char) {
    c == ' ' || ('\t' <= c <= '\r')
  }

  function TrimStart(s: string): (t: string)
    ensures |t| <= |s| && t == s[|s| - |t|..]
    ensures |t| > 0 ==> !IsNumberWhite(t[0])
  {
    if |s| > 0 && IsNumberWhite(s[0]) then TrimStart(s[1..]) else s
  }

  function TrimEnd(s: string): (t: string)
    ensures |t| <= |s| && t == s[..|t|]
    ensures |t| > 0 ==> !IsNumberWhite(t[|t| - 1])
  {
    if |s| > 0 && IsNumberWhite(s[|s| - 1]) then TrimEnd(s[..|s| - 1]) else s
  }

  /* --------------------------------------------------------- integer parse */

  /**
   * Int32/UInt32/Byte.Parse under NumberStyles.Integer: optional whitespace,
   * an optional '+' or '-', one or more ASCII digits, optional whitespace.
   * Text of any other shape is a FormatException; a well-formed number outside
   * [min, max] is an OverflowException ("-0" is zero and fits every type).
   */
  function ParseInteger(s: string, min: int, max: int): (r: Result<int, Exception>)
    ensures r.Success? ==> min <= r.value <= max
    ensures r.Failure? ==> r.error in {FormatException, OverflowException}
  {
    var t := TrimEnd(TrimStart(s));
    var negative := |t| > 0 && t[0] == '-';
    var digits := if |t| > 0 && (t[0] == '+' || t[0] == '-') then t[1..] else t;
    if |digits| == 0 || !AllDigits(digits) then Failure(FormatException)
    else
      var v: int := if negative then -(DigitsValue(digits) as int) else DigitsValue(digits);
      if min <= v <= max then Success(v) else Failure(OverflowException)
  }

  const MaxByte := 255
  const MaxUInt32 := 0xFFFF_FFFF
  const MinInt32 := -0x8000_0000
  const MaxInt32 := 0x7FFF_FFFF

  /** byte.Parse */
  function ParseByte(s: string): Result<int, Exception> {
    ParseInteger(s, 0, MaxByte)
  }

  /** uint.Parse */
  function ParseUInt32(s: string): Result<int, Exception> {
    ParseInteger(s, 0, MaxUInt32)
  }

  /** int.TryParse: the parsed value, or None when int.Parse would throw. */
  function TryParseInt32(s: string): (r: Option<int>)
    ensures r.Some? <==> ParseInteger(s, MinInt32, MaxInt32).Success?
    ensures r.Some? ==> MinInt32 <= r.value <= MaxInt32
  {
    match ParseInteger(s, MinInt32, MaxInt32)
    case Success(v) => Some(v)
    case Failure(_) => None
  }

  lemma TrimKeepsDigitText(s: string)
    requires |s| > 0 && !IsNumberWhite(s[0]) && !IsNumberWhite(s[|s| - 1])
    ensures TrimEnd(TrimStart(s)) == s
  {
  }

  /** Parsing the decimal text of an integer gives the integer back, or an overflow outside [min, max]. */
  lemma {:induction false} ParseIntToString(i: int, min: int, max: int)
    ensures ParseInteger(IntToString(i), min, max)
      == if min <= i <= max then Success(i) else Failure(OverflowException)
  {
    var s := IntToString(i);
    assert !IsNumberWhite(s[0]) && !IsNumberWhite(s[|s| - 1]) by {
      assert IsDigit(s[|s| - 1]);
    }
    TrimKeepsDigitText(s);
    var digits := if s[0] == '+' || s[0] == '-' then s[1..] else s;
    if i < 0 {
      assert digits == NatToString(-i);
    } else {
      assert digits == NatToString(i);
    }
    var v: int := if s[0] == '-' then -(DigitsValue(digits) as int) else DigitsValue(digits);
    assert v == i;
  }

  /** A character that is neither whitespace, a sign nor a digit makes the text unparseable. */
  lemma {:induction false} ParseRejectsStrayChar(s: string, k: nat, min: int, max: int)
    requires k < |s| && !IsNumberWhite(s[k]) && !IsDigit(s[k]) && s[k] != '+' && s[k] != '-'
    ensures ParseInteger(s, min, max) == Failure(FormatException)
  {
    var t1 := TrimStart(s);
    TrimStartKeeps(s, k);
    var j1 := k - (|s| - |t1|);
    var t := TrimEnd(t1);
    TrimEndKeeps(t1, j1);
    assert t[j1] == s[k];
    var digits := if |t| > 0 && (t[0] == '+' || t[0] == '-') then t[1..] else t;
    if |t| > 0 && (t[0] == '+' || t[0] == '-') {
      assert j1 > 0 && digits[j1 - 1] == s[k];
    } else {
      assert digits[j1] == s[k];
    }
  }

  lemma {:induction false} TrimStartKeeps(s: string, k: nat)
    requires k < |s| && !IsNumberWhite(s[k])
    ensures |s| - |TrimStart(s)| <= k
  {
    if |s| > 0 && IsNumberWhite(s[0]) {
      TrimStartKeeps(s[1..], k - 1);
    }
  }

  lemma {:induction false} TrimEndKeeps(s: string, k: nat)
    requires k < |s| && !IsNumberWhite(s[k])
    ensures k < |TrimEnd(s)|
  {
    if |s| > 0 && IsNumberWhite(s[|s| - 1]) {
      TrimEndKeeps(s[..|s| - 1], k);
    }
  }

  /* ----------------------------------------------------------------- split */

  /** The parts joined back with the separator between consecutive parts. */
  function Join(parts: seq<string>, c: char): string
    requires |parts| >= 1
  {
    if |parts| == 1 then parts[0] else parts[0] + [c] + Join(parts[1..], c)
  }

  /**
   * String.Split(char): the maximal separator-free pieces, empty pieces
   * included (SplitJoinsBack: joining them with the separator gives the text back).
   */
  function Split(s: string, c: char): (parts: seq<string>)
    ensures |parts| >= 1
    ensures forall k :: 0 <= k < |parts| ==> c !in parts[k]
  {
    if |s| == 0 then [""]
    else
      var rest := Split(s[1..], c);
      if s[0] == c then [""] + rest
      else [[s[0]] + rest[0]] + rest[1..]
  }

  lemma {:induction false} SplitJoinsBack(s: string, c: char)
    ensures Join(Split(s, c), c) == s
  {
    if |s| > 0 {
      var rest := Split(s[1..], c);
      SplitJoinsBack(s[1..], c);
      var parts := Split(s, c);
      assert s == [s[0]] + s[1..];
      if s[0] == c {
        assert parts[1..] == rest;
      } else {
        assert parts[1..] == rest[1..];
        if |rest| > 1 {
          assert Join(rest, c) == rest[0] + [c] + Join(rest[1..], c);
        }
      }
    }
  }

  /** There is one more part than there are separators. */
  lemma {:induction false} SplitCount(s: string, c: char)
    ensures |Split(s, c)| == multiset(s)[c] + 1
  {
    if |s| > 0 {
      SplitCount(s[1..], c);
      assert s == [s[0]] + s[1..];
      assert multiset(s) == multiset{s[0]} + multiset(s[1..]);
    }
  }

  /** Splitting separator-free parts joined by the separator gives the parts back. */
  lemma {:induction false} SplitJoin(parts: seq<string>, c: char)
    requires |parts| >= 1
    requires forall k :: 0 <= k < |parts| ==> c !in parts[k]
    ensures Split(Join(parts, c), c) == parts
  {
    if |parts| == 1 {
      SplitWithout(parts[0], c);
    } else {
      SplitJoin(parts[1..], c);
      SplitAfter(parts[0], c, Join(parts[1..], c));
      assert [parts[0]] + parts[1..] == parts;
    }
  }

  lemma {:induction false} SplitWithout(p: string, c: char)
    requires c !in p
    ensures Split(p, c) == [p]
  {
    var parts := Split(p, c);
    SplitCount(p, c);
    SplitJoinsBack(p, c);
    assert multiset(p)[c] == 0;
  }

  lemma {:induction false} SplitAfter(p: string, c: char, rest: string)
    requires c !in p
    ensures Split(p + [c] + rest, c) == [p] + Split(rest, c)
  {
    var s := p + [c] + rest;
    if |p| == 0 {
      assert s[0] == c && s[1..] == rest;
    } else {
      assert s[0] == p[0] && s[1..] == p[1..] + [c] + rest;
      SplitAfter(p[1..], c, rest);
      assert [p[0]] + p[1..] == p;
    }
  }
}
