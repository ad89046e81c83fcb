/**
 * The scanner's result record: a host and a port found open, and the line
 * of text the front-end shows for it.
 */
module OpenPorts {
  import opened Wrappers
  import opened Text

  /** The text after the port number in every rendered line. */
  const OpenSuffix := " is open."

  /**
   * OpenPort: the Host and Port auto-properties. Each is its own field, so
   * assigning one (`o.(host := h)`) leaves the other as it was.
   */
  datatype OpenPort = OpenPort(host: string, port: int)
  {
    /** ToString: the host, a colon, the port in decimal, then " is open.". */
    function ToString(): (s: string)
      ensures |s| == |host| + 1 + |IntToString(port)| + |OpenSuffix|
      ensures s[..|host|] == host && s[|s| - |OpenSuffix|..] == OpenSuffix
    {
      host + ":" + IntToString(port) + OpenSuffix
    }
  }

  /**
   * Reads a rendered line back: the suffix is removed, the rest is split at
   * the colons, and exactly two pieces, the second an Int32, give the record.
   */
  function ReadOpenPort(s: string): Option<OpenPort> {
    if |s| < |OpenSuffix| || s[|s| - |OpenSuffix|..] != OpenSuffix then None
    else
      var pieces := Split(s[..|s| - |OpenSuffix|], ':');
      if |pieces| != 2 then None
      else
        match TryParseInt32(pieces[1])
        case None => None
        case Some(p) => Some(OpenPort(pieces[0], p))
  }

  /** The decimal text of an integer holds no colon. */
  lemma NoColonInDecimal(i: int)
    ensures ':' !in IntToString(i)
  {
    var s := IntToString(i);
    assert forall k :: 0 <= k < |s| ==> s[k] == '-' || IsDigit(s[k]);
  }

  /**
   * Every line that ToString renders for a host text without a colon (the
   * dotted IPv4 text the scanner passes) and an Int32 port reads back as
   * the same record.
   */
  lemma ReadsBack(o: OpenPort)
    requires ':' !in o.host && MinInt32 <= o.port <= MaxInt32
    ensures ReadOpenPort(o.ToString()) == Some(o)
  {
    var s := o.ToString();
    var digits := IntToString(o.port);
    assert s[..|s| - |OpenSuffix|] == o.host + [':'] + digits;
    NoColonInDecimal(o.port);
    SplitAfter(o.host, ':', digits);
    SplitWithout(digits, ':');
    ParseIntToString(o.port, MinInt32, MaxInt32);
  }

  /** Two such records that render the same line are the same record. */
  lemma ToStringInjective(o: OpenPort, q: OpenPort)
    requires ':' !in o.host && MinInt32 <= o.port <= MaxInt32
    requires ':' !in q.host && MinInt32 <= q.port <= MaxInt32
    requires o.ToString() == q.ToString()
    ensures o == q
  {
    ReadsBack(o);
    ReadsBack(q);
  }
}
