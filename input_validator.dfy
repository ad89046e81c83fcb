/**
 * The address-text validator (PortScanner/InputValidator.cs): two regular
 * expressions, each guarded by a null-or-whitespace check.
 *
 * Each pattern is given twice: as the language it denotes (a ghost predicate
 * that says how an accepted string decomposes) and as a recogniser that scans
 * the characters. The lemmas CidrMatchIsLanguage and RangeMatchIsLanguage show
 * that the two agree on every string.
 */
module InputValidator {
  import opened Wrappers
  import opened Text

  /** String.IsNullOrWhiteSpace */
  predicate IsNullOrWhiteSpace(inp: Option<string>) {
    inp.None? || forall i :: 0 <= i < |inp.value| ==> IsWhiteSpace(inp.value[i])
  }

  /** The two patterns: CidrPattern and rangePattern of the source. */
  datatype Pattern = CidrPattern | RangePattern

  /* ------------------------------------------------ the patterns' languages */

  /** `[0-9]{1,3}`, equivalently `\d{1,3}` over ASCII digits. */
  predicate IsGroup(g: string) {
    1 <= |g| <= 3 && AllDigits(g)
  }

  /** `($|/(16|24))$`: nothing more, "/16" or "/24". */
  predicate IsCidrSuffix(x: string) {
    x == "" || x == "/16" || x == "/24"
  }

  /** The text "a.b.c.t". */
  function Dotted(a: string, b: string, c: string, t: string): string {
    a + "." + (b + "." + (c + "." + t))
  }

  /** The strings `^([0-9]{1,3}\.){3}[0-9]{1,3}($|/(16|24))$` accepts: "a.b.c.d" then a suffix. */
  ghost predicate InCidrLanguage(s: string) {
    exists a, b, c, d, x :: IsCidrSplit(s, a, b, c, d, x)
  }

  /** s is "a.b.c.d" followed by x, with four groups and a CIDR suffix. */
  predicate IsCidrSplit(s: string, a: string, b: string, c: string, d: string, x: string) {
    IsGroup(a) && IsGroup(b) && IsGroup(c) && IsGroup(d) && IsCidrSuffix(x) &&
    s == Dotted(a, b, c, d + x)
  }

  /** The strings `\d{1,3}\.\d{1,3}\.\d{1,3}\.\d{1,3}-\d{1,3}` matches in full: "a.b.c.d-e". */
  ghost predicate IsRangeWord(w: string) {
    exists a, b, c, d, e :: IsRangeSplit(w, a, b, c, d, e)
  }

  /** w is "a.b.c.d-e" with five groups. */
  predicate IsRangeSplit(w: string, a: string, b: string, c: string, d: string, e: string) {
    IsGroup(a) && IsGroup(b) && IsGroup(c) && IsGroup(d) && IsGroup(e) &&
    w == Dotted(a, b, c, d + "-" + e)
  }

  /** The range pattern has no anchors: a string is accepted when some substring is a range word. */
  ghost predicate InRangeLanguage(s: string) {
    exists i, j :: 0 <= i <= j <= |s| && IsRangeWord(s[i..j])
  }

  ghost predicate InLanguage(rgx: Pattern, s: string) {
    match rgx
    case CidrPattern => InCidrLanguage(s)
    case RangePattern => InRangeLanguage(s)
  }

  /* ------------------------------------------------------------ recognisers */

  /** The length of the run of digits that starts s. */
  function DigitRun(s: string): (n: nat)
    ensures n <= |s| && AllDigits(s[..n])
    ensures n < |s| ==> !IsDigit(s[n])
  {
    if |s| == 0 || !IsDigit(s[0]) then 0 else 1 + DigitRun(s[1..])
  }

  /** What follows a leading group of one to three digits and the separator sep. */
  function AfterGroup(s: string, sep: char): Option<string> {
    var n := DigitRun(s);
    if 1 <= n <= 3 && n < |s| && s[n] == sep then Some(s[n + 1..]) else None
  }

  /** What follows three leading groups, each ended by a dot. */
  function AfterDottedTriple(s: string): Option<string> {
    match AfterGroup(s, '.')
    case None => None
    case Some(t1) =>
      match AfterGroup(t1, '.')
      case None => None
      case Some(t2) => AfterGroup(t2, '.')
  }

  /** The anchored CIDR pattern, scanned left to right. */
  predicate CidrMatch(s: string) {
    match AfterDottedTriple(s)
    case None => false
    case Some(t) =>
      var n := DigitRun(t);
      1 <= n <= 3 && IsCidrSuffix(t[n..])
  }

  /** The range pattern matches a prefix of s. */
  predicate RangeMatchAt(s: string) {
    match AfterDottedTriple(s)
    case None => false
    case Some(t) =>
      match AfterGroup(t, '-')
      case None => false
      case Some(u) => |u| > 0 && IsDigit(u[0])
  }

  /** The unanchored range pattern: tried at every start position. */
  predicate RangeMatch(s: string)
    decreases |s|
  {
    RangeMatchAt(s) || (|s| > 0 && RangeMatch(s[1..]))
  }

  /** Regex.IsMatch for the two patterns. */
  predicate IsMatch(rgx: Pattern, s: string) {
    match rgx
    case CidrPattern => CidrMatch(s)
    case RangePattern => RangeMatch(s)
  }

  /* -------------------------------------------------------- the validator */

  /** InputValidator.IsValid: not null, not blank, and the pattern matches. */
  function IsValid(inp: Option<string>, rgx: Pattern): (r: bool)
    ensures r <==> !IsNullOrWhiteSpace(inp) && InLanguage(rgx, inp.value)
  {
    if IsNullOrWhiteSpace(inp) then false
    else
      MatchIsLanguage(rgx, inp.value);
      IsMatch(rgx, inp.value)
  }

  /**
   * InputValidator.IsIPRangeValid. The whitespace guard never decides the
   * answer for non-null text: every string either pattern accepts holds a digit.
   */
  function IsIPRangeValid(ipText: Option<string>): (r: bool)
    ensures r <==> ipText.Some? && (InCidrLanguage(ipText.value) || InRangeLanguage(ipText.value))
  {
    BlankNeverMatches(ipText);
    IsValid(ipText, CidrPattern) || IsValid(ipText, RangePattern)
  }

  /* --------------------------------------------- recogniser = language */

  lemma {:induction false} MatchIsLanguage(rgx: Pattern, s: string)
    ensures IsMatch(rgx, s) <==> InLanguage(rgx, s)
  {
    match rgx
    case CidrPattern => CidrMatchIsLanguage(s);
    case RangePattern => RangeMatchIsLanguage(s);
  }

  /** A run of digits followed by a non-digit (or nothing) has exactly that length. */
  lemma {:induction false} DigitRunOf(g: string, u: string)
    requires AllDigits(g)
    requires |u| == 0 || !IsDigit(u[0])
    ensures DigitRun(g + u) == |g|
  {
    if |g| > 0 {
      assert (g + u)[1..] == g[1..] + u;
      DigitRunOf(g[1..], u);
    }
  }

  lemma {:induction false} AfterGroupOf(g: string, sep: char, r: string)
    requires IsGroup(g) && !IsDigit(sep)
    ensures AfterGroup(g + [sep] + r, sep) == Some(r)
  {
    assert g + [sep] + r == g + ([sep] + r);
    DigitRunOf(g, [sep] + r);
    assert (g + [sep] + r)[|g| + 1..] == r;
  }

  lemma {:induction false} AfterGroupIs(s: string, sep: char)
    requires AfterGroup(s, sep).Some?
    ensures IsGroup(s[..DigitRun(s)])
    ensures s == s[..DigitRun(s)] + [sep] + AfterGroup(s, sep).value
  {
    var n := DigitRun(s);
    assert s == s[..n] + [s[n]] + s[n + 1..];
  }

  lemma {:induction false} AfterDottedTripleOf(a: string, b: string, c: string, t: string)
    requires IsGroup(a) && IsGroup(b) && IsGroup(c)
    ensures AfterDottedTriple(Dotted(a, b, c, t)) == Some(t)
  {
    AfterGroupOf(a, '.', b + "." + (c + "." + t));
    AfterGroupOf(b, '.', c + "." + t);
    AfterGroupOf(c, '.', t);
  }

  lemma {:induction false} AfterDottedTripleIs(s: string) returns (a: string, b: string, c: string)
    requires AfterDottedTriple(s).Some?
    ensures IsGroup(a) && IsGroup(b) && IsGroup(c)
    ensures s == Dotted(a, b, c, AfterDottedTriple(s).value)
  {
    var t1 := AfterGroup(s, '.').value;
    var t2 := AfterGroup(t1, '.').value;
    AfterGroupIs(s, '.');
    AfterGroupIs(t1, '.');
    AfterGroupIs(t2, '.');
    a, b, c := s[..DigitRun(s)], t1[..DigitRun(t1)], t2[..DigitRun(t2)];
  }

  lemma {:induction false} CidrMatchIsLanguage(s: string)
    ensures CidrMatch(s) <==> InCidrLanguage(s)
  {
    if CidrMatch(s) {
      CidrMatchSound(s);
    }
    if InCidrLanguage(s) {
      var a, b, c, d, x :| IsCidrSplit(s, a, b, c, d, x);
      CidrMatchComplete(a, b, c, d, x);
    }
  }

  lemma {:induction false} CidrMatchSound(s: string)
    requires CidrMatch(s)
    ensures InCidrLanguage(s)
  {
    var a, b, c := AfterDottedTripleIs(s);
    var t := AfterDottedTriple(s).value;
    var d, x := CidrTail(t);
    assert IsCidrSplit(s, a, b, c, d, x);
  }

  /** What the CIDR pattern reads after the third dot: a group, then the suffix. */
  lemma CidrTail(t: string) returns (d: string, x: string)
    requires 1 <= DigitRun(t) <= 3 && IsCidrSuffix(t[DigitRun(t)..])
    ensures IsGroup(d) && IsCidrSuffix(x) && t == d + x
  {
    d, x := t[..DigitRun(t)], t[DigitRun(t)..];
    assert t == d + x;
  }

  lemma {:induction false} CidrMatchComplete(a: string, b: string, c: string, d: string, x: string)
    requires IsGroup(a) && IsGroup(b) && IsGroup(c) && IsGroup(d) && IsCidrSuffix(x)
    ensures CidrMatch(Dotted(a, b, c, d + x))
  {
    AfterDottedTripleOf(a, b, c, d + x);
    assert |x| == 0 || x[0] == '/';
    DigitRunOf(d, x);
    assert (d + x)[|d|..] == x;
  }

  /** Four groups and a CIDR suffix pass the validator. */
  lemma CidrSplitValid(a: string, b: string, c: string, d: string, x: string)
    requires IsGroup(a) && IsGroup(b) && IsGroup(c) && IsGroup(d) && IsCidrSuffix(x)
    ensures IsIPRangeValid(Some(Dotted(a, b, c, d + x)))
  {
    assert IsCidrSplit(Dotted(a, b, c, d + x), a, b, c, d, x);
  }

  /** Five groups around the dots and the dash pass the validator. */
  lemma RangeSplitValid(a: string, b: string, c: string, d: string, e: string)
    requires IsGroup(a) && IsGroup(b) && IsGroup(c) && IsGroup(d) && IsGroup(e)
    ensures IsIPRangeValid(Some(Dotted(a, b, c, d + "-" + e)))
  {
    var w := Dotted(a, b, c, d + "-" + e);
    assert IsRangeSplit(w[0..|w|], a, b, c, d, e);
  }

  lemma DottedAppend(a: string, b: string, c: string, x: string, y: string)
    ensures Dotted(a, b, c, x) + y == Dotted(a, b, c, x + y)
  {
  }

  /** Where the range pattern matches at the start of t, a prefix of t is a range word. */
  lemma {:induction false} RangeMatchAtSound(t: string) returns (j: nat)
    requires RangeMatchAt(t)
    ensures j <= |t| && IsRangeWord(t[..j])
  {
    var a, b, c := AfterDottedTripleIs(t);
    var r := AfterDottedTriple(t).value;
    var d, e, rest := RangeTail(r);
    var w := Dotted(a, b, c, d + "-" + e);
    assert t == w + rest by {
      DottedAppend(a, b, c, d + "-" + e, rest);
    }
    j := |w|;
    assert t[..j] == w;
    assert IsRangeSplit(t[..j], a, b, c, d, e);
  }

  /** What the range pattern reads after the third dot: a group, a dash, a digit, then anything. */
  lemma {:induction false} RangeTail(r: string) returns (d: string, e: string, rest: string)
    requires AfterGroup(r, '-').Some? && |AfterGroup(r, '-').value| > 0 && IsDigit(AfterGroup(r, '-').value[0])
    ensures IsGroup(d) && IsGroup(e) && r == (d + "-" + e) + rest
  {
    var u := AfterGroup(r, '-').value;
    AfterGroupIs(r, '-');
    d := r[..DigitRun(r)];
    e, rest := u[..1], u[1..];
    assert u == e + rest;
  }

  /** A range word at the start of t makes the range pattern match there. */
  lemma {:induction false} RangeMatchAtComplete(t: string, j: nat)
    requires j <= |t| && IsRangeWord(t[..j])
    ensures RangeMatchAt(t)
  {
    var a, b, c, d, e :| IsRangeSplit(t[..j], a, b, c, d, e);
    var rest := t[j..];
    assert t == t[..j] + rest;
    assert t == Dotted(a, b, c, d + ['-'] + (e + rest));
    AfterDottedTripleOf(a, b, c, d + ['-'] + (e + rest));
    AfterGroupOf(d, '-', e + rest);
  }

  lemma {:induction false} RangeMatchSound(s: string) returns (i: nat, j: nat)
    requires RangeMatch(s)
    ensures i <= j <= |s| && IsRangeWord(s[i..j])
    decreases |s|, 1
  {
    if RangeMatchAt(s) {
      i := 0;
      j := RangeMatchAtSound(s);
      assert s[i..j] == s[..j];
    } else {
      i, j := RangeMatchLater(s);
    }
  }

  /** Where the range pattern does not match at the start of s, it matches further on. */
  lemma {:induction false} RangeMatchLater(s: string) returns (i: nat, j: nat)
    requires RangeMatch(s) && !RangeMatchAt(s)
    ensures i <= j <= |s| && IsRangeWord(s[i..j])
    decreases |s|, 0
  {
    var i', j' := RangeMatchSound(s[1..]);
    i, j := i' + 1, j' + 1;
    SliceOfRest(s, i', j');
  }

  /** A slice of s[1..] is the slice of s one position further on. */
  lemma SliceOfRest(s: string, i: nat, j: nat)
    requires i <= j <= |s| - 1
    ensures s[1..][i..j] == s[i + 1..j + 1]
  {
    forall k | 0 <= k < j - i
      ensures s[1..][i..j][k] == s[i + 1..j + 1][k]
    {
    }
  }

  lemma {:induction false} RangeMatchComplete(s: string, i: nat, j: nat)
    requires i <= j <= |s| && IsRangeWord(s[i..j])
    ensures RangeMatch(s)
    decreases i
  {
    if i == 0 {
      assert s[..j] == s[i..j];
      RangeMatchAtComplete(s, j);
    } else {
      assert s[1..][i - 1..j - 1] == s[i..j];
      RangeMatchComplete(s[1..], i - 1, j - 1);
    }
  }

  lemma {:induction false} RangeMatchIsLanguage(s: string)
    ensures RangeMatch(s) <==> InRangeLanguage(s)
  {
    if RangeMatch(s) {
      var i, j := RangeMatchSound(s);
    }
    if InRangeLanguage(s) {
      var i, j :| 0 <= i <= j <= |s| && IsRangeWord(s[i..j]);
      RangeMatchComplete(s, i, j);
    }
  }

  lemma {:induction false} BlankNeverMatches(ipText: Option<string>)
    ensures ipText.Some? && (InCidrLanguage(ipText.value) || InRangeLanguage(ipText.value))
      ==> !IsNullOrWhiteSpace(ipText)
  {
    if ipText.Some? {
      var s := ipText.value;
      MatchHasDigit(s);
      MatchIsLanguage(CidrPattern, s);
      MatchIsLanguage(RangePattern, s);
      if CidrMatch(s) || RangeMatch(s) {
        var k :| 0 <= k < |s| && IsDigit(s[k]);
        assert !IsWhiteSpace(s[k]);
      }
    }
  }

  /** Text that either pattern accepts contains a digit, so it is never blank. */
  lemma {:induction false} MatchHasDigit(s: string)
    ensures CidrMatch(s) || RangeMatch(s) ==> exists k :: 0 <= k < |s| && IsDigit(s[k])
    decreases |s|
  {
    if AfterGroup(s, '.').Some? {
      assert IsDigit(s[0]);
    } else if |s| > 0 {
      MatchHasDigit(s[1..]);
      if RangeMatch(s[1..]) {
        var k :| 0 <= k < |s[1..]| && IsDigit(s[1..][k]);
        assert IsDigit(s[k + 1]);
      }
    }
  }
}

/** Concrete inputs: the repository's unit tests and the boundaries of the two patterns. */
module InputValidatorExamples {
  import opened Wrappers
  import opened InputValidator
  import opened Text

  lemma {:induction false} ValidByScan(s: string)
    ensures IsIPRangeValid(Some(s)) <==> CidrMatch(s) || RangeMatch(s)
  {
    CidrMatchIsLanguage(s);
    RangeMatchIsLanguage(s);
  }

  /** Null, empty and blank text are invalid. */
  lemma BlankIsInvalid()
    ensures !IsIPRangeValid(None)
    ensures !IsIPRangeValid(Some(""))
    ensures !IsIPRangeValid(Some(" "))
  {
    ValidByScan("");
    ValidByScan(" ");
  }

  /** A /23 prefix is refused. */
  lemma Cidr23Refused()
    ensures !IsIPRangeValid(Some("1.1.1.1/23"))
  {
    var s := "1.1.1.1/23";
    assert s[7] == '/';
    CidrSlashEndsInPrefix(s);
    NoDashNoRange(s);
  }

  lemma Cidr24Accepted()
    ensures IsIPRangeValid(Some("1.1.1.1/24"))
  {
    assert IsCidrSplit("1.1.1.1/24", "1", "1", "1", "1", "/24");
  }

  /** Host bits below the prefix are not checked by the pattern. */
  lemma Cidr24HostBitsAccepted()
    ensures IsIPRangeValid(Some("255.255.254.1/24"))
  {
    var tail := "254" + "." + ("1" + "/24");
    assert tail == "254.1/24";
    var rest := "255" + "." + tail;
    assert rest == "255.254.1/24";
    assert "255" + "." + rest == "255.255.254.1/24";
    assert IsCidrSplit("255.255.254.1/24", "255", "255", "254", "1", "/24");
  }

  /** Neither pattern bounds a group by 255: a bare address and a range of groups above 255 are accepted. */
  lemma NoOctetBound()
    ensures IsIPRangeValid(Some("999.999.999.999"))
    ensures IsIPRangeValid(Some("300.1.1.1-999"))
  {
    assert IsCidrSplit("999.999.999.999", "999", "999", "999", "999", "");
    var s := "300.1.1.1-999";
    assert IsRangeSplit(s[0..|s|], "300", "1", "1", "1", "999");
  }

  lemma DashRangeAccepted()
    ensures IsIPRangeValid(Some("1.1.1.1-223"))
  {
    var s := "1.1.1.1-223";
    assert IsRangeSplit(s[0..|s|], "1", "1", "1", "1", "223");
  }

  /** The dash must be followed by a digit. */
  lemma SpaceAfterDashRefused()
    ensures !IsIPRangeValid(Some("1.1.1.1- 243"))
  {
    var s := "1.1.1.1- 243";
    NoDashNoRange(s);
    CidrHasNoDash(s);
    assert forall k :: 7 <= k && k + 1 < |s| && s[k] == '-' ==> k == 7;
    assert !IsDigit(s[8]);
  }

  /** A text whose only dash comes after the second number is refused. */
  lemma EarlyDashRefused()
    ensures !IsIPRangeValid(Some("10.1-5.1.1"))
  {
    var s := "10.1-5.1.1";
    NoDashNoRange(s);
    CidrHasNoDash(s);
  }

  /**
   * The range pattern is not anchored: an early dash does not stop a later
   * d.d.d.d-d factor from matching.
   */
  lemma LaterRangeAccepted()
    ensures IsIPRangeValid(Some("1-2.3.4.5-6"))
  {
    var s := "1-2.3.4.5-6";
    assert IsRangeSplit(s[2..|s|], "2", "3", "4", "5", "6");
  }

  lemma WordRefused()
    ensures !IsIPRangeValid(Some("invalidIp"))
  {
    var s := "invalidIp";
    NoDashNoRange(s);
    CidrHasNoDash(s);
  }

  /** A range match needs a dash followed by a digit, with at least seven characters before it. */
  lemma {:induction false} NoDashNoRange(s: string)
    ensures InRangeLanguage(s) ==>
      exists k :: 7 <= k && k + 1 < |s| && s[k] == '-' && IsDigit(s[k + 1])
  {
    if InRangeLanguage(s) {
      var i, j :| 0 <= i <= j <= |s| && IsRangeWord(s[i..j]);
      var a, b, c, d, e :| IsRangeSplit(s[i..j], a, b, c, d, e);
      var k := DashInWord(s[i..j], a, b, c, d, e);
      assert s[i + k] == s[i..j][k] && s[i + k + 1] == s[i..j][k + 1];
    }
  }

  /** A range word has its dash after at least seven characters, and a digit after the dash. */
  lemma DashInWord(w: string, a: string, b: string, c: string, d: string, e: string) returns (k: nat)
    requires IsRangeSplit(w, a, b, c, d, e)
    ensures 7 <= k && k + 1 < |w| && w[k] == '-' && IsDigit(w[k + 1])
  {
    var head := a + "." + b + "." + c + "." + d;
    assert w == head + ("-" + e);
    k := |head|;
    assert w[k] == ("-" + e)[0] && w[k + 1] == ("-" + e)[1];
  }

  /** The CIDR pattern admits no dash at all. */
  lemma {:induction false} CidrHasNoDash(s: string)
    ensures InCidrLanguage(s) ==> '-' !in s
  {
    if InCidrLanguage(s) {
      var a, b, c, d, x :| IsCidrSplit(s, a, b, c, d, x);
      assert '-' !in a && '-' !in b && '-' !in c && '-' !in d && '-' !in x;
    }
  }

  /** In a string the CIDR pattern accepts, a slash can only begin "/16" or "/24" at the very end. */
  lemma {:induction false} CidrSlashEndsInPrefix(s: string)
    ensures InCidrLanguage(s) && '/' in s ==> |s| >= 3 && (s[|s| - 3..] == "/16" || s[|s| - 3..] == "/24")
  {
    if InCidrLanguage(s) && '/' in s {
      var a, b, c, d, x :| IsCidrSplit(s, a, b, c, d, x);
      assert s[|s| - 3..] == x;
    }
  }
}
