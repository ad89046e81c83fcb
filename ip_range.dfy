/**
 * The address range of the scanner (PortScanner/Model/IPRange.cs): the two
 * parsers that fill the begin and end octets, and the enumeration of every
 * address between them.
 *
 * Each operation is given as a specification function over values
 * (CidrAttempt, RangeAttempt, ParseIPRange, AllIP); the class IPRange at the
 * end of the file does the same work on its arrays in loops, and its methods
 * are proved to agree with those functions.
 */
module IPRanges {
  import opened Wrappers
  import opened Exceptions
  import opened Text
  import opened Words
  import InputValidator
  import InputValidatorExamples

  /** System.Net.IPAddress, built from its bytes (four of them here), most significant first. */
  datatype IPAddress = IPAddress(bytes: seq<Octet>)
  {
    /** IPAddress.ToString for IPv4: the octets in decimal, joined by dots. */
    function ToString(): string
      requires |bytes| >= 1
    {
      Join(Decimals(bytes), '.')
    }
  }

  /** The decimal text of each byte. */
  function Decimals(bytes: seq<Octet>): (parts: seq<string>)
    ensures |parts| == |bytes|
    ensures forall i :: 0 <= i < |bytes| ==> parts[i] == NatToString(bytes[i])
  {
    if bytes == [] then [] else [NatToString(bytes[0])] + Decimals(bytes[1..])
  }

  /** The contents of _beginIp and _endIp after a successful parse. */
  datatype Box = Box(begin: seq<Octet>, end: seq<Octet>)

  /** How TryParseCIDR or TryParseRange ends: true with the octets it stored, false, or an exception. */
  datatype Attempt = Parsed(box: Box) | Declined | Threw(fault: Exception)

  /** Why the IPRange constructor throws. */
  datatype RangeError =
    | ArgumentNull              // ArgumentNullException: the text is null
    | ArgumentInvalid           // ArgumentException: both parsers returned false
    | Escaped(fault: Exception) // a parser threw, and the exception leaves the constructor

  /** The value a TryParse method returns, or the exception it throws. */
  function Outcome(a: Attempt): Result<bool, Exception> {
    match a
    case Parsed(_) => Success(true)
    case Declined => Success(false)
    case Threw(x) => Failure(x)
  }

  /* ------------------------------------------------------------ CIDR form */

  /** The `ip` accumulator of TryParseCIDR after its first n rounds of `ip <<= 8; ip += uint.Parse(ipPart[i])`. */
  function Packed(parts: seq<string>, n: nat): (r: Result<int, Exception>)
    requires n <= 4
    ensures r.Success? ==> IsUInt32(r.value)
  {
    if n == 0 then Success(0)
    else
      match Packed(parts, n - 1)
      case Failure(x) => Failure(x)
      case Success(ip) =>
        if n - 1 >= |parts| then Failure(IndexOutOfRangeException)
        else
          match ParseUInt32(parts[n - 1])
          case Failure(x) => Failure(x)
          case Success(v) => Success(AddWrap(ShiftLeft(ip, 8), v))
  }

  /**
   * TryParseCIDR: the text must pass the validator and hold exactly one '/';
   * the prefix length is a byte, the first four dot-parts are uint's packed
   * big-endian. The shift is (byte)(32 - prefix); an address with bits set
   * below the prefix is declined, otherwise the end has all of them set.
   */
  function CidrAttempt(ipRange: string): (a: Attempt)
    ensures a.Parsed? ==> |a.box.begin| == 4 && |a.box.end| == 4
  {
    if !InputValidator.IsIPRangeValid(Some(ipRange)) then Declined
    else
      var split := Split(ipRange, '/');
      if |split| != 2 then Declined else CidrOfParts(split[0], split[1])
  }

  /** TryParseCIDR from the address text and the prefix text on either side of the '/'. */
  function CidrOfParts(address: string, prefix: string): (a: Attempt)
    ensures a.Parsed? ==> |a.box.begin| == 4 && |a.box.end| == 4
  {
    match CidrRead(address, prefix)
    case Failure(x) => Threw(x)
    case Success(read) => CidrBox(read.0, read.1)
  }

  /**
   * The middle of TryParseCIDR: byte.Parse on the prefix, then the first four
   * dot-parts of the address packed big-endian. It yields the packed address
   * and the shift (byte)(32 - prefix), or the exception that ends the parser.
   */
  function CidrRead(address: string, prefix: string): (r: Result<(int, nat), Exception>)
    ensures r.Success? ==> IsUInt32(r.value.0)
  {
    match ParseByte(prefix)
    case Failure(x) => Failure(x)
    case Success(cidrBit) =>
      match Packed(Split(address, '.'), 4)
      case Failure(x) => Failure(x)
      case Success(ip) => Success((ip, PrefixShift(cidrBit)))
  }

  /**
   * The end of TryParseCIDR, from the packed address and the shift (byte)(32 - prefix):
   * an address with bits set below the shift is declined; otherwise the box runs
   * from the address to the address with all of those bits set.
   */
  function CidrBox(ip: int, shiftBits: nat): (a: Attempt)
    requires IsUInt32(ip)
    ensures a.Parsed? ==> |a.box.begin| == 4 && |a.box.end| == 4
  {
    var ip1 := ShiftLeft(ShiftRight(ip, shiftBits), shiftBits);
    if ip1 != ip then Declined
    else Parsed(Box(Unpack(ip1), Unpack(FillOnes(ShiftRight(ip1, shiftBits), shiftBits))))
  }

  /* ---------------------------------------------------------- dashed form */

  /** The outcome for one dot-part of the dashed form: when it parses, one begin and one end octet. */
  type PartAttempt = a: Attempt | a.Parsed? ==> |a.box.begin| == 1 && |a.box.end| == 1 witness Declined

  /** One dot-part of the dashed form: "n" gives n..n, "lo-hi" gives lo..hi, a second dash declines. */
  function PartBounds(part: string): PartAttempt
  {
    var rangeParts := Split(part, '-');
    if |rangeParts| < 1 || |rangeParts| > 2 then Declined
    else
      match ParseByte(rangeParts[0])
      case Failure(x) => Threw(x)
      case Success(lo) =>
        if |rangeParts| == 1 then Parsed(Box([lo], [lo]))
        else
          match ParseByte(rangeParts[1])
          case Failure(x) => Threw(x)
          case Success(hi) => Parsed(Box([lo], [hi]))
  }

  /** The bounds of each dot-part, in order. */
  function PartsBounds(parts: seq<string>): (r: seq<PartAttempt>)
    ensures |r| == |parts|
    ensures forall i :: 0 <= i < |parts| ==> r[i] == PartBounds(parts[i])
  {
    if parts == [] then [] else [PartBounds(parts[0])] + PartsBounds(parts[1..])
  }

  /** The first n rounds of TryParseRange's loop, given the bounds of each dot-part. */
  function RangeUpTo(bounds: seq<PartAttempt>, n: nat): (a: Attempt)
    requires n <= 4
    ensures a.Parsed? ==> |a.box.begin| == n && |a.box.end| == n
  {
    if n == 0 then Parsed(Box([], []))
    else
      var done := RangeUpTo(bounds, n - 1);
      if !done.Parsed? then done
      else if n - 1 >= |bounds| then Threw(IndexOutOfRangeException)
      else
        var part := bounds[n - 1];
        if !part.Parsed? then part
        else Parsed(Box(done.box.begin + part.box.begin, done.box.end + part.box.end))
  }

  /** TryParseRange: the text must pass the validator; then each of the first four dot-parts in turn. */
  function RangeAttempt(ipRange: string): Attempt {
    if !InputValidator.IsIPRangeValid(Some(ipRange)) then Declined
    else RangeUpTo(PartsBounds(Split(ipRange, '.')), 4)
  }

  /* ---------------------------------------------------------- constructor */

  /**
   * The IPRange constructor: null is refused first; then the CIDR parser,
   * and the dashed parser only when the CIDR parser returns false. An
   * exception from either parser escapes unchanged.
   */
  function ParseIPRange(ipRange: Option<string>): (r: Result<Box, RangeError>)
    ensures r == Failure(ArgumentNull) <==> ipRange.None?
    ensures r.Success? ==> |r.value.begin| == 4 && |r.value.end| == 4
  {
    match ipRange
    case None => Failure(ArgumentNull)
    case Some(s) =>
      match CidrAttempt(s)
      case Parsed(box) => Success(box)
      case Threw(x) => Failure(Escaped(x))
      case Declined =>
        match RangeAttempt(s)
        case Parsed(box) => Success(box)
        case Threw(x) => Failure(Escaped(x))
        case Declined => Failure(ArgumentInvalid)
  }

  /* ---------------------------------------------------------- enumeration */

  /** The number of integers from lo to hi. */
  function Count(lo: int, hi: int): nat {
    if hi < lo then 0 else hi - lo + 1
  }

  /** The number of points in the box with corners b and e. */
  function Volume(b: seq<Octet>, e: seq<Octet>): nat
    requires |b| == |e|
  {
    if |b| == 0 then 1 else Count(b[0], e[0]) * Volume(b[1..], e[1..])
  }

  /** q lies in the box: every byte between its begin and end byte. */
  ghost predicate InBox(q: seq<int>, b: seq<Octet>, e: seq<Octet>)
    requires |b| == |e|
  {
    |q| == |b| && forall i :: 0 <= i < |q| ==> b[i] <= q[i] <= e[i]
  }

  /** Every address whose bytes are p followed by a point of the box b..e, in the order of nested loops. */
  function Rows(p: seq<Octet>, b: seq<Octet>, e: seq<Octet>): seq<IPAddress>
    requires |b| == |e|
    decreases |b|, 1, 0
  {
    if |b| == 0 then [IPAddress(p)] else Span(p, b[0], e[0], b[1..], e[1..])
  }

  /** Rows(p + [x], b, e) for x = lo, lo + 1, ..., hi in turn: what one loop adds. */
  function Span(p: seq<Octet>, lo: Octet, hi: int, b: seq<Octet>, e: seq<Octet>): seq<IPAddress>
    requires |b| == |e| && hi < 256
    decreases |b| + 1, 0, hi - lo
  {
    if hi < lo then [] else Span(p, lo, hi - 1, b, e) + Rows(p + [hi], b, e)
  }

  /** The addresses GetAllIP lists for the bounds b and e. */
  function Enumerate(b: seq<Octet>, e: seq<Octet>): seq<IPAddress>
    requires |b| == |e|
  {
    Rows([], b, e)
  }

  /** The byte sequences x and y agree before index k and x is smaller at k. */
  predicate DiffersFirstAt(x: seq<int>, y: seq<int>, k: int) {
    0 <= k < |x| && k < |y| && x[..k] == y[..k] && x[k] < y[k]
  }

  /** x comes before y when octet 0 is the most significant. */
  ghost predicate Before(x: seq<int>, y: seq<int>) {
    |x| == |y| && exists k :: DiffersFirstAt(x, y, k)
  }

  ghost predicate Ascending(s: seq<IPAddress>) {
    forall i, j :: 0 <= i < j < |s| ==> Before(s[i].bytes, s[j].bytes)
  }

  lemma {:induction false} RowsLength(p: seq<Octet>, b: seq<Octet>, e: seq<Octet>)
    requires |b| == |e|
    ensures |Rows(p, b, e)| == Volume(b, e)
    decreases |b|, 1, 0
  {
    if |b| > 0 {
      SpanLength(p, b[0], e[0], b[1..], e[1..]);
    }
  }

  lemma {:induction false} SpanLength(p: seq<Octet>, lo: Octet, hi: int, b: seq<Octet>, e: seq<Octet>)
    requires |b| == |e| && hi < 256
    ensures |Span(p, lo, hi, b, e)| == Count(lo, hi) * Volume(b, e)
    decreases |b| + 1, 0, hi - lo
  {
    if lo <= hi {
      SpanLength(p, lo, hi - 1, b, e);
      RowsLength(p + [hi], b, e);
      var n, v := Count(lo, hi - 1), Volume(b, e);
      assert Count(lo, hi) == n + 1;
      assert Count(lo, hi) * v == n * v + v by {
        MulSucc(n, v);
      }
    }
  }

  lemma InBoxCons(q: seq<int>, b: seq<Octet>, e: seq<Octet>)
    requires |b| == |e| && |b| > 0
    ensures InBox(q, b, e) <==> |q| > 0 && b[0] <= q[0] <= e[0] && InBox(q[1..], b[1..], e[1..])
  {
    if |q| > 0 && b[0] <= q[0] <= e[0] && InBox(q[1..], b[1..], e[1..]) {
      forall i | 0 <= i < |q|
        ensures b[i] <= q[i] <= e[i]
      {
        if i > 0 {
          assert q[1..][i - 1] == q[i];
        }
      }
    }
  }

  lemma {:induction false} RowsMembers(p: seq<Octet>, b: seq<Octet>, e: seq<Octet>, a: IPAddress)
    requires |b| == |e|
    ensures a in Rows(p, b, e) <==> |a.bytes| >= |p| && a.bytes[..|p|] == p && InBox(a.bytes[|p|..], b, e)
    decreases |b|, 1, 0
  {
    if |b| == 0 {
      if |a.bytes| >= |p| && a.bytes[..|p|] == p && InBox(a.bytes[|p|..], b, e) {
        assert a.bytes == a.bytes[..|p|];
      }
    } else {
      SpanMembers(p, b[0], e[0], b[1..], e[1..], a);
      if |a.bytes| >= |p| {
        var q := a.bytes[|p|..];
        InBoxCons(q, b, e);
        if |q| > 0 {
          assert q[1..] == a.bytes[|p| + 1..];
          assert q[0] == a.bytes[|p|];
        }
      }
    }
  }

  lemma {:induction false} SpanMembers(p: seq<Octet>, lo: Octet, hi: int, b: seq<Octet>, e: seq<Octet>, a: IPAddress)
    requires |b| == |e| && hi < 256
    ensures a in Span(p, lo, hi, b, e) <==>
      |a.bytes| > |p| && a.bytes[..|p|] == p && lo <= a.bytes[|p|] <= hi && InBox(a.bytes[|p| + 1..], b, e)
    decreases |b| + 1, 0, hi - lo
  {
    if lo <= hi {
      SpanMembers(p, lo, hi - 1, b, e, a);
      RowsMembers(p + [hi], b, e, a);
      if |a.bytes| > |p| {
        assert a.bytes[..|p| + 1] == a.bytes[..|p|] + [a.bytes[|p|]];
        assert a.bytes[..|p| + 1] == p + [hi] ==> a.bytes[..|p|] == p && a.bytes[|p|] == hi by {
          if a.bytes[..|p| + 1] == p + [hi] {
            assert a.bytes[..|p| + 1][..|p|] == p;
          }
        }
      }
    }
  }

  /** Two ascending runs, every element of the first before every element of the second, make one. */
  lemma ConcatAscending(s: seq<IPAddress>, t: seq<IPAddress>)
    requires Ascending(s) && Ascending(t)
    requires forall x, y :: x in s && y in t ==> Before(x.bytes, y.bytes)
    ensures Ascending(s + t)
  {
    var st := s + t;
    forall i, j | 0 <= i < j < |st|
      ensures Before(st[i].bytes, st[j].bytes)
    {
      if j < |s| {
        assert st[i] == s[i] && st[j] == s[j];
      } else if i >= |s| {
        assert st[i] == t[i - |s|] && st[j] == t[j - |s|];
      } else {
        assert st[i] in s && st[j] in t;
      }
    }
  }

  lemma {:induction false} RowsAscending(p: seq<Octet>, b: seq<Octet>, e: seq<Octet>)
    requires |b| == |e|
    ensures Ascending(Rows(p, b, e))
    decreases |b|, 1, 0
  {
    if |b| > 0 {
      SpanAscending(p, b[0], e[0], b[1..], e[1..]);
    }
  }

  lemma {:induction false} SpanAscending(p: seq<Octet>, lo: Octet, hi: int, b: seq<Octet>, e: seq<Octet>)
    requires |b| == |e| && hi < 256
    ensures Ascending(Span(p, lo, hi, b, e))
    decreases |b| + 1, 0, hi - lo
  {
    if lo <= hi {
      var s, t := Span(p, lo, hi - 1, b, e), Rows(p + [hi], b, e);
      SpanAscending(p, lo, hi - 1, b, e);
      RowsAscending(p + [hi], b, e);
      forall x, y | x in s && y in t
        ensures Before(x.bytes, y.bytes)
      {
        SpanMembers(p, lo, hi - 1, b, e, x);
        RowsMembers(p + [hi], b, e, y);
        var k := |p|;
        assert y.bytes[..k] == y.bytes[..k + 1][..k];
        assert y.bytes[k] == y.bytes[..k + 1][k];
        assert DiffersFirstAt(x.bytes, y.bytes, k);
      }
      ConcatAscending(s, t);
    }
  }

  /** What GetAllIP promises of its list, whenever it returns one: the box, exactly, in ascending order. */
  lemma EnumerateIsTheBox(b: seq<Octet>, e: seq<Octet>)
    requires |b| == |e|
    ensures |Enumerate(b, e)| == Volume(b, e)
    ensures forall a :: a in Enumerate(b, e) <==> InBox(a.bytes, b, e)
    ensures Ascending(Enumerate(b, e))
  {
    RowsLength([], b, e);
    RowsAscending([], b, e);
    forall a
      ensures a in Enumerate(b, e) <==> InBox(a.bytes, b, e)
    {
      RowsMembers([], b, e, a);
      assert a.bytes[0..] == a.bytes;
    }
  }

  /** An ascending list holds no address twice. */
  lemma AscendingDistinct(s: seq<IPAddress>)
    requires Ascending(s)
    ensures forall i, j :: 0 <= i < j < |s| ==> s[i] != s[j]
  {
    forall i, j | 0 <= i < j < |s|
      ensures s[i] != s[j]
    {
      var k :| DiffersFirstAt(s[i].bytes, s[j].bytes, k);
    }
  }

  /* ------------------------------------------------------------ GetAllIP */

  /** GetAllIP's `capacity` after n rounds of `capacity *= _endIp[i] - _beginIp[i] + 1`, an unchecked int product. */
  function Capacity(b: seq<Octet>, e: seq<Octet>, n: nat): int
    requires n <= |b| && |b| == |e|
  {
    if n == 0 then 1 else Wrap32(Capacity(b, e, n - 1) * (e[n - 1] as int - b[n - 1] as int + 1))
  }

  /**
   * The most items a List<T> holds: Array.MaxLength, the longest array
   * .NET allocates. Asking for a larger array throws an OutOfMemoryException.
   */
  const MaxListLength: nat := 0x7FFF_FFC7

  /**
   * GetAllIP: `new List<IPAddress>(capacity)` throws an
   * ArgumentOutOfRangeException when the capacity is negative and an
   * OutOfMemoryException when it exceeds MaxListLength. Otherwise the nested
   * loops add every address of the box, and the Add that would take the
   * list past MaxListLength throws an OutOfMemoryException.
   */
  function AllIP(b: seq<Octet>, e: seq<Octet>): Result<seq<IPAddress>, Exception>
    requires |b| == 4 && |e| == 4
  {
    var capacity := Capacity(b, e, |b|);
    if capacity < 0 then Failure(ArgumentOutOfRangeException)
    else if capacity > MaxListLength || Volume(b, e) > MaxListLength then Failure(OutOfMemoryException)
    else Success(Enumerate(b, e))
  }

  /** The same product of the factors end[i] - begin[i] + 1, without truncation. */
  function Extent(b: seq<Octet>, e: seq<Octet>, n: nat): int
    requires n <= |b| && |b| == |e|
  {
    if n == 0 then 1 else Extent(b, e, n - 1) * (e[n - 1] as int - b[n - 1] as int + 1)
  }

  /** Truncating after every round gives the truncated exact product. */
  lemma {:induction false} CapacityWraps(b: seq<Octet>, e: seq<Octet>, n: nat)
    requires n <= |b| && |b| == |e|
    ensures Capacity(b, e, n) == Wrap32(Extent(b, e, n))
  {
    if n > 0 {
      CapacityWraps(b, e, n - 1);
      Wrap32Mul(Extent(b, e, n - 1), e[n - 1] as int - b[n - 1] as int + 1);
    }
  }

  lemma {:induction false} VolumeSnoc(b: seq<Octet>, e: seq<Octet>, x: Octet, y: Octet)
    requires |b| == |e|
    ensures Volume(b + [x], e + [y]) == Volume(b, e) * Count(x, y)
  {
    if |b| > 0 {
      assert (b + [x])[1..] == b[1..] + [x];
      assert (e + [y])[1..] == e[1..] + [y];
      VolumeSnoc(b[1..], e[1..], x, y);
      MulAssoc(Count(b[0], e[0]), Volume(b[1..], e[1..]), Count(x, y));
    }
  }

  /** With no octet range reversed by more than one, the exact product is the number of addresses in the box. */
  lemma {:induction false} ExtentIsVolume(b: seq<Octet>, e: seq<Octet>, n: nat)
    requires n <= |b| && |b| == |e|
    requires forall i :: 0 <= i < n ==> b[i] as int <= e[i] as int + 1
    ensures Extent(b, e, n) == Volume(b[..n], e[..n])
  {
    if n > 0 {
      ExtentIsVolume(b, e, n - 1);
      assert b[..n] == b[..n - 1] + [b[n - 1]];
      assert e[..n] == e[..n - 1] + [e[n - 1]];
      VolumeSnoc(b[..n - 1], e[..n - 1], b[n - 1], e[n - 1]);
    }
  }

  /** A box of n octet ranges holds at most 2^(8n) addresses. */
  lemma {:induction false} VolumeBound(b: seq<Octet>, e: seq<Octet>)
    requires |b| == |e|
    ensures Volume(b, e) <= Pow2(8 * |b|)
  {
    if |b| > 0 {
      VolumeBound(b[1..], e[1..]);
      var rest := Volume(b[1..], e[1..]);
      var p := Pow2(8 * (|b| - 1));
      assert Pow2(8 * |b|) == 0x100 * p by {
        Pow2Add(8, 8 * (|b| - 1));
        SmallPowers();
      }
      MulMonotone(Count(b[0], e[0]), 0x100, rest);
      MulMonotone(rest, p, 0x100);
    }
  }

  /**
   * For a box whose octet ranges are all in order, GetAllIP lists the box
   * exactly when it holds at most MaxListLength addresses. A count in
   * [2^31, 2^32) wraps the int product to a negative capacity; a count in
   * (MaxListLength, 2^31) is a capacity no array can have; the full space
   * (2^32 addresses) wraps to capacity 0 and fails on the Add past the limit.
   */
  lemma OrderedAllIP(b: seq<Octet>, e: seq<Octet>)
    requires |b| == 4 && |e| == 4
    requires forall i :: 0 <= i < 4 ==> b[i] <= e[i]
    ensures AllIP(b, e).Success? <==> Volume(b, e) <= MaxListLength
    ensures AllIP(b, e).Failure? ==>
              AllIP(b, e).error == if Half <= Volume(b, e) < Word then ArgumentOutOfRangeException else OutOfMemoryException
    ensures AllIP(b, e).Success? ==> AllIP(b, e).value == Enumerate(b, e) && |AllIP(b, e).value| == Volume(b, e)
  {
    OrderedCapacity(b, e);
    var v := Volume(b, e);
    if v == Word {
      assert Wrap32(Word) == 0;
    } else if v >= Half {
      Wrap32Sign(v);
    }
    EnumerateIsTheBox(b, e);
  }

  /** For ordered bounds the capacity is the address count, wrapped to an int, and the count is at most 2^32. */
  lemma OrderedCapacity(b: seq<Octet>, e: seq<Octet>)
    requires |b| == 4 && |e| == 4
    requires forall i :: 0 <= i < 4 ==> b[i] <= e[i]
    ensures Capacity(b, e, 4) == Wrap32(Volume(b, e)) && Volume(b, e) <= Word
  {
    CapacityWraps(b, e, 4);
    ExtentIsVolume(b, e, 4);
    assert b[..4] == b && e[..4] == e;
    VolumeBound(b, e);
    Pow2Of32();
  }

  /** A box with an octet range in reverse order holds no address. */
  lemma {:induction false} ReversedIsEmpty(b: seq<Octet>, e: seq<Octet>, k: nat)
    requires |b| == |e| && k < |b| && e[k] < b[k]
    ensures Volume(b, e) == 0 && Enumerate(b, e) == []
  {
    if k > 0 {
      ReversedIsEmpty(b[1..], e[1..], k - 1);
    }
    EnumerateIsTheBox(b, e);
  }

  /** The address space from 0.0.0.0 to 127.255.255.255 overflows the capacity to -2^31, and GetAllIP throws. */
  lemma HalfSpaceThrows()
    ensures AllIP([0, 0, 0, 0], [127, 255, 255, 255]) == Failure(ArgumentOutOfRangeException)
  {
    var b: seq<Octet>, e: seq<Octet> := [0, 0, 0, 0], [127, 255, 255, 255];
    assert Volume(b, e) == 0x8000_0000 by {
      assert Volume(b[3..], e[3..]) == 0x100;
      assert Volume(b[2..], e[2..]) == 0x1_0000;
      assert Volume(b[1..], e[1..]) == 0x100_0000;
    }
    OrderedAllIP(b, e);
  }

  /**
   * The whole address space wraps the capacity to 0, so the list is
   * created; the Add of its 2^31 - 56th address throws.
   */
  lemma WholeSpaceThrows()
    ensures AllIP([0, 0, 0, 0], [255, 255, 255, 255]) == Failure(OutOfMemoryException)
  {
    var b: seq<Octet>, e: seq<Octet> := [0, 0, 0, 0], [255, 255, 255, 255];
    assert Volume(b, e) == Word by {
      assert Volume(b[3..], e[3..]) == 0x100;
      assert Volume(b[2..], e[2..]) == 0x1_0000;
      assert Volume(b[1..], e[1..]) == 0x100_0000;
    }
    OrderedAllIP(b, e);
  }

  /**
   * 0.0.0.0 to 173.214.225.253 holds 174 * 215 * 226 * 254 = 2^31 - 8
   * addresses: a capacity below 2^31 but above MaxListLength, so the list
   * cannot be created.
   */
  lemma CapacityPastLimitThrows()
    ensures AllIP([0, 0, 0, 0], [173, 214, 225, 253]) == Failure(OutOfMemoryException)
  {
    var b: seq<Octet>, e: seq<Octet> := [0, 0, 0, 0], [173, 214, 225, 253];
    assert Volume(b, e) == 0x7FFF_FFF8 by {
      assert Volume(b[3..], e[3..]) == 254;
      assert Volume(b[2..], e[2..]) == 226 * 254;
      assert Volume(b[1..], e[1..]) == 215 * 226 * 254;
    }
    OrderedAllIP(b, e);
  }

  /** One octet range reversed by two ("d+2-d") makes the capacity -1, and GetAllIP throws. */
  lemma ReversedOnceThrows(a: Octet, b: Octet, c: Octet, d: Octet)
    requires d + 2 <= 255
    ensures AllIP([a, b, c, d + 2], [a, b, c, d]) == Failure(ArgumentOutOfRangeException)
  {
    var lo: seq<Octet>, hi: seq<Octet> := [a, b, c, d + 2], [a, b, c, d];
    assert Capacity(lo, hi, 1) == 1;
    assert Capacity(lo, hi, 2) == 1;
    assert Capacity(lo, hi, 3) == 1;
  }

  /** Two octet ranges reversed by two make the capacity 1: nothing throws, and no address is listed. */
  lemma ReversedTwiceEmpty(a: Octet, b: Octet, c: Octet, d: Octet)
    requires c + 2 <= 255 && d + 2 <= 255
    ensures AllIP([a, b, c + 2, d + 2], [a, b, c, d]) == Success([])
  {
    var lo: seq<Octet>, hi: seq<Octet> := [a, b, c + 2, d + 2], [a, b, c, d];
    assert Capacity(lo, hi, 1) == 1;
    assert Capacity(lo, hi, 2) == 1;
    assert Capacity(lo, hi, 3) == -1;
    ReversedIsEmpty(lo, hi, 2);
  }

  /**
   * Octet 3 reversed by 255 while the others span everything: the product
   * 2^24 * -254 wraps to the positive capacity 2^25, nothing throws, and
   * the list is empty. A reversed range throws only when the wrapped
   * product is negative.
   */
  lemma ReversedMayBeEmpty()
    ensures AllIP([0, 0, 0, 255], [255, 255, 255, 0]) == Success([])
  {
    var lo: seq<Octet>, hi: seq<Octet> := [0, 0, 0, 255], [255, 255, 255, 0];
    assert Capacity(lo, hi, 3) == 0x100_0000;
    assert Capacity(lo, hi, 4) == 0x200_0000;
    ReversedIsEmpty(lo, hi, 3);
  }

  /* ----------------------------------------------- parsing concrete text */

  /** "a.b.c" followed by t, with a, b, c in decimal: the shape of the texts below. */
  function Text3(a: Octet, b: Octet, c: Octet, t: string): string {
    InputValidator.Dotted(NatToString(a), NatToString(b), NatToString(c), t)
  }

  lemma DigitsHaveNo(s: string, c: char)
    requires AllDigits(s) && !IsDigit(c)
    ensures c !in s
  {
  }

  lemma ByteIsGroup(n: Octet)
    ensures InputValidator.IsGroup(NatToString(n))
  {
  }

  /** A decimal text parses back to its number, or overflows beyond max. */
  lemma ParseDecimal(n: nat, min: int, max: int)
    ensures ParseInteger(NatToString(n), min, max)
      == if min <= n <= max then Success(n) else Failure(OverflowException)
  {
    ParseIntToString(n, min, max);
  }

  lemma DottedSplits(a: string, b: string, c: string, t: string)
    requires '.' !in a && '.' !in b && '.' !in c && '.' !in t
    ensures Split(InputValidator.Dotted(a, b, c, t), '.') == [a, b, c, t]
  {
    var parts := [a, b, c, t];
    assert Join(parts[3..], '.') == t;
    assert Join(parts[2..], '.') == c + "." + t;
    assert Join(parts[1..], '.') == b + "." + (c + "." + t);
    assert Join(parts, '.') == InputValidator.Dotted(a, b, c, t);
    SplitJoin(parts, '.');
  }

  lemma DecimalSplits(n: nat, c: char)
    requires !IsDigit(c)
    ensures Split(NatToString(n), c) == [NatToString(n)]
  {
    DigitsHaveNo(NatToString(n), c);
    SplitWithout(NatToString(n), c);
  }

  /** A single number n is the range n..n. */
  lemma PartSingle(n: Octet)
    ensures PartBounds(NatToString(n)) == Parsed(Box([n], [n]))
  {
    DecimalSplits(n, '-');
    ParseDecimal(n, 0, MaxByte);
  }

  /** "lo-hi" is the range lo..hi, whatever the order of lo and hi. */
  lemma PartPair(lo: Octet, hi: Octet)
    ensures PartBounds(NatToString(lo) + "-" + NatToString(hi)) == Parsed(Box([lo], [hi]))
  {
    var l, h := NatToString(lo), NatToString(hi);
    DigitsHaveNo(l, '-');
    DigitsHaveNo(h, '-');
    assert Join([l, h], '-') == l + "-" + h by {
      assert [l, h][1..] == [h];
    }
    SplitJoin([l, h], '-');
    ParseDecimal(lo, 0, MaxByte);
    ParseDecimal(hi, 0, MaxByte);
  }

  /** A part with two or more dashes makes TryParseRange return false. */
  lemma PartTwoDashes(part: string)
    requires multiset(part)['-'] >= 2
    ensures PartBounds(part) == Declined
  {
    SplitCount(part, '-');
  }

  /** A number above 255 in a part makes byte.Parse overflow. */
  lemma PartTooLarge(n: nat)
    requires n > MaxByte
    ensures PartBounds(NatToString(n)) == Threw(OverflowException)
  {
    DecimalSplits(n, '-');
    ParseDecimal(n, 0, MaxByte);
  }

  /** A part holding a character byte.Parse cannot read (a '/', say) and no dash makes it throw a format error. */
  lemma PartStray(part: string, k: nat)
    requires k < |part| && '-' !in part
    requires !IsNumberWhite(part[k]) && !IsDigit(part[k]) && part[k] != '+'
    ensures PartBounds(part) == Threw(FormatException)
  {
    SplitWithout(part, '-');
    ParseRejectsStrayChar(part, k, 0, MaxByte);
  }

  /** Four parts with bounds each give the range their bounds make up. */
  lemma FourParts(bounds: seq<PartAttempt>, b: seq<Octet>, e: seq<Octet>)
    requires |bounds| == 4 && |b| == 4 && |e| == 4
    requires bounds[0] == Parsed(Box([b[0]], [e[0]])) && bounds[1] == Parsed(Box([b[1]], [e[1]]))
    requires bounds[2] == Parsed(Box([b[2]], [e[2]])) && bounds[3] == Parsed(Box([b[3]], [e[3]]))
    ensures RangeUpTo(bounds, 4) == Parsed(Box(b, e))
  {
    assert RangeUpTo(bounds, 1) == Parsed(Box(b[..1], e[..1]));
    assert RangeUpTo(bounds, 2) == Parsed(Box(b[..2], e[..2]));
    assert RangeUpTo(bounds, 3) == Parsed(Box(b[..3], e[..3]));
    assert b[..4] == b && e[..4] == e;
  }

  /** The dot-parts of a text made of four decimal bytes, with the fourth part given. */
  lemma SplitText3(a: Octet, b: Octet, c: Octet, t: string)
    requires '.' !in t
    ensures Split(Text3(a, b, c, t), '.') == [NatToString(a), NatToString(b), NatToString(c), t]
  {
    DigitsHaveNo(NatToString(a), '.');
    DigitsHaveNo(NatToString(b), '.');
    DigitsHaveNo(NatToString(c), '.');
    DottedSplits(NatToString(a), NatToString(b), NatToString(c), t);
  }

  /** Without a '/', the CIDR parser returns false. */
  lemma NoSlashNoCidr(s: string)
    requires '/' !in s
    ensures CidrAttempt(s) == Declined
  {
    SplitWithout(s, '/');
  }

  /** Text the validator refuses makes both parsers return false, so the constructor throws ArgumentException. */
  lemma InvalidTextRefused(s: string)
    requires !InputValidator.IsIPRangeValid(Some(s))
    ensures CidrAttempt(s) == Declined && RangeAttempt(s) == Declined
    ensures ParseIPRange(Some(s)) == Failure(ArgumentInvalid)
  {
  }

  /** The constructor throws ArgumentException for the text "invalidIp". */
  lemma InvalidIpThrows()
    ensures ParseIPRange(Some("invalidIp")) == Failure(ArgumentInvalid)
  {
    InputValidatorExamples.WordRefused();
    InvalidTextRefused("invalidIp");
  }

  /** Valid text without a '/': the constructor's outcome is the dashed parser's. */
  lemma ByRangeAlone(s: string)
    requires InputValidator.IsIPRangeValid(Some(s)) && '/' !in s
    ensures ParseIPRange(Some(s)) == match RangeUpTo(PartsBounds(Split(s, '.')), 4)
      case Parsed(box) => Success(box)
      case Threw(x) => Failure(Escaped(x))
      case Declined => Failure(ArgumentInvalid)
  {
    NoSlashNoCidr(s);
  }

  /** The part bounds of three decimal bytes followed by a fourth part t. */
  lemma TextParts(a: Octet, b: Octet, c: Octet, t: string)
    requires '.' !in t
    ensures var bounds := PartsBounds(Split(Text3(a, b, c, t), '.'));
      |bounds| == 4 && bounds[0] == Parsed(Box([a], [a])) && bounds[1] == Parsed(Box([b], [b]))
      && bounds[2] == Parsed(Box([c], [c])) && bounds[3] == PartBounds(t)
  {
    var parts := Split(Text3(a, b, c, t), '.');
    SplitText3(a, b, c, t);
    PartAt(parts, 0, a);
    PartAt(parts, 1, b);
    PartAt(parts, 2, c);
  }

  /** A dot-part that is a decimal byte n has the bounds n..n. */
  lemma PartAt(parts: seq<string>, i: nat, n: Octet)
    requires i < |parts| && parts[i] == NatToString(n)
    ensures PartsBounds(parts)[i] == Parsed(Box([n], [n]))
  {
    PartSingle(n);
  }

  /** Three single bytes then a fourth part: the loop's outcome is decided by the fourth. */
  lemma ThreeThenLast(bounds: seq<PartAttempt>, a: Octet, b: Octet, c: Octet)
    requires |bounds| == 4 && bounds[0] == Parsed(Box([a], [a])) && bounds[1] == Parsed(Box([b], [b]))
    requires bounds[2] == Parsed(Box([c], [c]))
    ensures RangeUpTo(bounds, 4)
      == if bounds[3].Parsed? then Parsed(Box([a, b, c] + bounds[3].box.begin, [a, b, c] + bounds[3].box.end))
         else bounds[3]
  {
    assert RangeUpTo(bounds, 1) == Parsed(Box([a], [a]));
    assert RangeUpTo(bounds, 2) == Parsed(Box([a] + [b], [a] + [b]));
    assert RangeUpTo(bounds, 3) == Parsed(Box([a] + [b] + [c], [a] + [b] + [c]));
    assert [a] + [b] + [c] == [a, b, c];
  }

  /** Three decimal bytes and a fourth part t: the dashed parser's outcome is decided by t alone. */
  lemma TextBounds(a: Octet, b: Octet, c: Octet, t: string)
    requires '.' !in t
    ensures var last := PartBounds(t);
      RangeUpTo(PartsBounds(Split(Text3(a, b, c, t), '.')), 4)
      == if last.Parsed? then Parsed(Box([a, b, c] + last.box.begin, [a, b, c] + last.box.end)) else last
  {
    TextParts(a, b, c, t);
    ThreeThenLast(PartsBounds(Split(Text3(a, b, c, t), '.')), a, b, c);
  }

  /** The decimal text of an address is the range holding just that address. */
  lemma SingleAddress(a: Octet, b: Octet, c: Octet, d: Octet)
    ensures ParseIPRange(Some(IPAddress([a, b, c, d]).ToString())) == Success(Box([a, b, c, d], [a, b, c, d]))
  {
    AddressText(a, b, c, d);
    SingleText(a, b, c, d);
  }

  /** "a.b.c.d" in decimal is the range a.b.c.d .. a.b.c.d. */
  lemma SingleText(a: Octet, b: Octet, c: Octet, d: Octet)
    ensures ParseIPRange(Some(Text3(a, b, c, NatToString(d)))) == Success(Box([a, b, c, d], [a, b, c, d]))
  {
    PlainTextValid(a, b, c, d);
    SingleBounds(a, b, c, d);
    RangeOutcome(Text3(a, b, c, NatToString(d)), Parsed(Box([a, b, c, d], [a, b, c, d])));
  }

  /** The dashed parser's loop over "a.b.c.d" gives a.b.c.d .. a.b.c.d. */
  lemma SingleBounds(a: Octet, b: Octet, c: Octet, d: Octet)
    ensures RangeUpTo(PartsBounds(Split(Text3(a, b, c, NatToString(d)), '.')), 4)
      == Parsed(Box([a, b, c, d], [a, b, c, d]))
  {
    var D := NatToString(d);
    assert '.' !in D by {
      DigitsHaveNo(D, '.');
    }
    assert PartBounds(D) == Parsed(Box([d], [d])) by {
      PartSingle(d);
    }
    LastParsed(a, b, c, D, d, d);
  }

  /** Valid text without a '/' gives what the dashed parser's loop gives. */
  lemma RangeOutcome(s: string, a: Attempt)
    requires InputValidator.IsIPRangeValid(Some(s)) && '/' !in s
    requires RangeUpTo(PartsBounds(Split(s, '.')), 4) == a
    ensures ParseIPRange(Some(s)) == match a
      case Parsed(box) => Success(box)
      case Threw(x) => Failure(Escaped(x))
      case Declined => Failure(ArgumentInvalid)
  {
    ByRangeAlone(s);
  }

  /** IPAddress.ToString of four bytes is "a.b.c.d" in decimal. */
  lemma AddressText(a: Octet, b: Octet, c: Octet, d: Octet)
    ensures IPAddress([a, b, c, d]).ToString() == Text3(a, b, c, NatToString(d))
  {
    var A, B, C, D := NatToString(a), NatToString(b), NatToString(c), NatToString(d);
    var parts := Decimals([a, b, c, d]);
    assert parts == [A, B, C, D];
    assert Join(parts[3..], '.') == D;
    assert Join(parts[2..], '.') == C + "." + D;
    assert Join(parts[1..], '.') == B + "." + (C + "." + D);
  }

  /** "a.b.c.n" with n below 1000 passes the validator and holds no '/'. */
  lemma PlainTextValid(a: Octet, b: Octet, c: Octet, n: nat)
    requires n < 1000
    ensures InputValidator.IsIPRangeValid(Some(Text3(a, b, c, NatToString(n))))
    ensures '/' !in Text3(a, b, c, NatToString(n))
  {
    var A, B, C, N := NatToString(a), NatToString(b), NatToString(c), NatToString(n);
    assert Text3(a, b, c, N) == InputValidator.Dotted(A, B, C, N + "") by {
      assert N + "" == N;
    }
    ByteIsGroup(a);
    ByteIsGroup(b);
    ByteIsGroup(c);
    InputValidator.CidrSplitValid(A, B, C, N, "");
    DigitsHaveNo(A, '/');
    DigitsHaveNo(B, '/');
    DigitsHaveNo(C, '/');
    DigitsHaveNo(N, '/');
    NoSlashInDotted(A, B, C, N);
  }

  /** "a.b.c.d-e" passes the validator and holds no '/'. */
  lemma DashedTextValid(a: Octet, b: Octet, c: Octet, d: Octet, e: Octet)
    ensures InputValidator.IsIPRangeValid(Some(Text3(a, b, c, NatToString(d) + "-" + NatToString(e))))
    ensures '/' !in Text3(a, b, c, NatToString(d) + "-" + NatToString(e))
  {
    var A, B, C, D, E := NatToString(a), NatToString(b), NatToString(c), NatToString(d), NatToString(e);
    ByteIsGroup(a);
    ByteIsGroup(b);
    ByteIsGroup(c);
    ByteIsGroup(d);
    ByteIsGroup(e);
    InputValidator.RangeSplitValid(A, B, C, D, E);
    DigitsHaveNo(A, '/');
    DigitsHaveNo(B, '/');
    DigitsHaveNo(C, '/');
    DigitsHaveNo(D, '/');
    DigitsHaveNo(E, '/');
    NoSlashInDotted(A, B, C, D + "-" + E);
  }

  /** "a.b.c.d-e" gives a..a, b..b, c..c and d..e; nothing checks that d <= e. */
  lemma DashedLast(a: Octet, b: Octet, c: Octet, d: Octet, e: Octet)
    ensures ParseIPRange(Some(Text3(a, b, c, NatToString(d) + "-" + NatToString(e))))
      == Success(Box([a, b, c, d], [a, b, c, e]))
  {
    DashedTextValid(a, b, c, d, e);
    DashedBounds(a, b, c, d, e);
    RangeOutcome(Text3(a, b, c, NatToString(d) + "-" + NatToString(e)), Parsed(Box([a, b, c, d], [a, b, c, e])));
  }

  /** The dashed parser's loop over "a.b.c.d-e" gives a.b.c.d .. a.b.c.e. */
  lemma DashedBounds(a: Octet, b: Octet, c: Octet, d: Octet, e: Octet)
    ensures RangeUpTo(PartsBounds(Split(Text3(a, b, c, NatToString(d) + "-" + NatToString(e)), '.')), 4)
      == Parsed(Box([a, b, c, d], [a, b, c, e]))
  {
    var D, E := NatToString(d), NatToString(e);
    var last := D + "-" + E;
    assert '.' !in last by {
      DigitsHaveNo(D, '.');
      DigitsHaveNo(E, '.');
    }
    assert PartBounds(last) == Parsed(Box([d], [e])) by {
      PartPair(d, e);
    }
    LastParsed(a, b, c, last, d, e);
  }

  /** Three decimal bytes and a fourth part that parses to lo..hi give a.b.c.lo .. a.b.c.hi. */
  lemma LastParsed(a: Octet, b: Octet, c: Octet, t: string, lo: Octet, hi: Octet)
    requires '.' !in t && PartBounds(t) == Parsed(Box([lo], [hi]))
    ensures RangeUpTo(PartsBounds(Split(Text3(a, b, c, t), '.')), 4) == Parsed(Box([a, b, c, lo], [a, b, c, hi]))
  {
    TextBounds(a, b, c, t);
    assert [a, b, c] + [lo] == [a, b, c, lo];
    assert [a, b, c] + [hi] == [a, b, c, hi];
  }

  /** A number from 256 to 999 passes the validator, then overflows byte.Parse. */
  lemma OctetOverflows(a: Octet, b: Octet, c: Octet, n: nat)
    requires MaxByte < n < 1000
    ensures ParseIPRange(Some(Text3(a, b, c, NatToString(n)))) == Failure(Escaped(OverflowException))
  {
    var N := NatToString(n);
    var s := Text3(a, b, c, N);
    PlainTextValid(a, b, c, n);
    assert RangeUpTo(PartsBounds(Split(s, '.')), 4) == Threw(OverflowException) by {
      DigitsHaveNo(N, '.');
      PartTooLarge(n);
      TextBounds(a, b, c, N);
    }
    RangeOutcome(s, Threw(OverflowException));
  }

  lemma NoSlashInDotted(a: string, b: string, c: string, t: string)
    requires '/' !in a && '/' !in b && '/' !in c && '/' !in t
    ensures '/' !in InputValidator.Dotted(a, b, c, t)
  {
  }

  /* ------------------------------------------------- the CIDR block */

  /**
   * The box TryParseCIDR fills: declined exactly when the address has bits set
   * below the (masked) shift; otherwise it starts at the address and ends at
   * the address with those bits set, or at 255.255.255.255 for a shift of 32 or more.
   */
  lemma CidrBoxIsBlock(ip: int, sb: nat)
    requires IsUInt32(ip)
    ensures CidrBox(ip, sb).Parsed? <==> ip % Pow2(sb % 32) == 0
    ensures CidrBox(ip, sb).Parsed? ==> CidrBox(ip, sb).box == Box(Unpack(ip), Unpack(BlockEnd(ip, sb)))
  {
    SubnetCheck(ip, sb);
    if CidrBox(ip, sb).Parsed? {
      FillShifted(ip, sb);
    }
  }

  /** An address with bits set below a shift under 32 fails the subnet check. */
  lemma CidrDeclines(ip: int, sb: nat)
    requires IsUInt32(ip) && sb < 32 && ip % Pow2(sb) != 0
    ensures CidrBox(ip, sb) == Declined
  {
    ShiftsKeep(ip, sb);
  }

  /** Every octet of the box TryParseCIDR fills is ordered: begin[i] <= end[i]. */
  lemma CidrOrdered(ip: int, sb: nat)
    requires IsUInt32(ip) && CidrBox(ip, sb).Parsed?
    ensures forall i :: 0 <= i < 4 ==> CidrBox(ip, sb).box.begin[i] <= CidrBox(ip, sb).box.end[i]
  {
    CidrBoxIsBlock(ip, sb);
    BlockOrdered(ip, sb);
  }

  /** One more round of the packing loop over a part that parses. */
  lemma PackedNext(parts: seq<string>, n: nat, ip: int, v: int)
    requires 1 <= n <= 4 && n - 1 < |parts|
    requires Packed(parts, n - 1) == Success(ip) && ParseUInt32(parts[n - 1]) == Success(v)
    ensures Packed(parts, n) == Success(AddWrap(ShiftLeft(ip, 8), v))
  {
  }

  /** Parts that parse to bytes pack to those bytes read big-endian. */
  lemma {:induction false} PackedBytes(parts: seq<string>, bytes: seq<Octet>, n: nat)
    requires n <= 4 && n <= |parts| && n <= |bytes|
    requires forall i :: 0 <= i < n ==> ParseUInt32(parts[i]) == Success(bytes[i])
    ensures Packed(parts, n) == Success(BigEndian(bytes[..n]))
  {
    if n == 0 {
      assert bytes[..0] == [];
    } else {
      PackedBytes(parts, bytes, n - 1);
      PackedSnoc(parts, bytes, n);
    }
  }

  /** One more round of the pack loop over a part that parses to a byte reads that byte big-endian. */
  lemma PackedSnoc(parts: seq<string>, bytes: seq<Octet>, n: nat)
    requires 1 <= n <= 4 && n <= |parts| && n <= |bytes|
    requires Packed(parts, n - 1) == Success(BigEndian(bytes[..n - 1]))
    requires ParseUInt32(parts[n - 1]) == Success(bytes[n - 1])
    ensures Packed(parts, n) == Success(BigEndian(bytes[..n]))
  {
    PackBytesStep(bytes, n);
    PackedNext(parts, n, BigEndian(bytes[..n - 1]), bytes[n - 1]);
  }

  /** `ip <<= 8; ip += v` on the first n - 1 bytes read big-endian gives the first n read big-endian. */
  lemma PackBytesStep(bytes: seq<Octet>, n: nat)
    requires 1 <= n <= 4 && n <= |bytes|
    ensures BigEndian(bytes[..n - 1]) < 0x100_0000
    ensures AddWrap(ShiftLeft(BigEndian(bytes[..n - 1]), 8), bytes[n - 1]) == BigEndian(bytes[..n])
  {
    var ip := BigEndian(bytes[..n - 1]);
    var v := bytes[n - 1];
    assert ip < 0x100_0000 by {
      BigEndianBelow(bytes[..n - 1]);
    }
    assert AddWrap(ShiftLeft(ip, 8), v) == ip * 0x100 + v by {
      PackStep(ip, v);
    }
    BigEndianSnoc(bytes, n);
  }

  /** At most three bytes read big-endian stay below 2^24. */
  lemma BigEndianBelow(bytes: seq<Octet>)
    requires |bytes| <= 3
    ensures BigEndian(bytes) < 0x100_0000
  {
    var k := 8 * |bytes|;
    assert BigEndian(bytes) < Pow2(k);
    Pow2Grows(k, 24);
    Pow24();
  }

  /** Reading one more byte big-endian shifts the value read so far by a byte and adds it. */
  lemma BigEndianSnoc(bytes: seq<Octet>, n: nat)
    requires 1 <= n <= |bytes|
    ensures BigEndian(bytes[..n]) == BigEndian(bytes[..n - 1]) * 0x100 + bytes[n - 1]
  {
    assert bytes[..n][..n - 1] == bytes[..n - 1];
  }

  /** The decimal octets of an address, packed by TryParseCIDR's loop, give the address's 32-bit value. */
  lemma PackedAddress(a: Octet, b: Octet, c: Octet, d: Octet)
    ensures Packed([NatToString(a), NatToString(b), NatToString(c), NatToString(d)], 4)
      == Success(Address32(a, b, c, d))
  {
    var parts := [NatToString(a), NatToString(b), NatToString(c), NatToString(d)];
    var bytes := [a, b, c, d];
    forall i | 0 <= i < 4
      ensures ParseUInt32(parts[i]) == Success(bytes[i])
    {
      assert parts[i] == NatToString(bytes[i]);
      ParseDecimal(bytes[i], 0, MaxUInt32);
    }
    PackedBytes(parts, bytes, 4);
    assert bytes[..4] == bytes;
    BigEndianAddress(a, b, c, d);
  }

  /** "a.b.c.d/16" and "a.b.c.d/24" reach the subnet check with the address's value and a shift of 16 or 8. */
  lemma CidrText(a: Octet, b: Octet, c: Octet, d: Octet, prefix: nat)
    requires prefix == 16 || prefix == 24
    ensures CidrAttempt(Text3(a, b, c, NatToString(d) + "/" + NatToString(prefix)))
      == CidrBox(Address32(a, b, c, d), 32 - prefix)
  {
    var A, B, C, D, P := NatToString(a), NatToString(b), NatToString(c), NatToString(d), NatToString(prefix);
    var head := Text3(a, b, c, D);
    var s := Text3(a, b, c, D + "/" + P);
    assert InputValidator.IsIPRangeValid(Some(s)) by {
      CidrTextValid(a, b, c, d, prefix);
    }
    assert Split(s, '/') == [head, P] by {
      SlashSplit(a, b, c, d, prefix);
    }
    assert ParseByte(P) == Success(prefix) by {
      ParseDecimal(prefix, 0, MaxByte);
    }
    assert Packed(Split(head, '.'), 4) == Success(Address32(a, b, c, d)) by {
      HeadPacks(a, b, c, d);
    }
    CidrSteps(s, head, P, prefix, 32 - prefix, Address32(a, b, c, d));
  }

  /** "a.b.c.d/p" splits on '/' into the address text and the prefix text. */
  lemma SlashSplit(a: Octet, b: Octet, c: Octet, d: Octet, prefix: nat)
    ensures Split(Text3(a, b, c, NatToString(d) + "/" + NatToString(prefix)), '/')
      == [Text3(a, b, c, NatToString(d)), NatToString(prefix)]
  {
    var A, B, C, D, P := NatToString(a), NatToString(b), NatToString(c), NatToString(d), NatToString(prefix);
    var head := Text3(a, b, c, D);
    assert Text3(a, b, c, D + "/" + P) == head + ['/'] + P by {
      InputValidator.DottedAppend(A, B, C, D, "/" + P);
      assert D + "/" + P == D + ("/" + P);
    }
    assert '/' !in head by {
      DigitsHaveNo(A, '/');
      DigitsHaveNo(B, '/');
      DigitsHaveNo(C, '/');
      DigitsHaveNo(D, '/');
      NoSlashInDotted(A, B, C, D);
    }
    SplitPair(head, '/', P);
  }

  /** Text with one separator c and a run of digits after it splits into the two sides. */
  lemma SplitPair(head: string, c: char, p: string)
    requires c !in head && AllDigits(p) && !IsDigit(c)
    ensures Split(head + [c] + p, c) == [head, p]
  {
    SplitAfter(head, c, p);
    DigitsHaveNo(p, c);
    SplitWithout(p, c);
  }

  /** The address text "a.b.c.d" packs to the address's 32-bit value. */
  lemma HeadPacks(a: Octet, b: Octet, c: Octet, d: Octet)
    ensures Packed(Split(Text3(a, b, c, NatToString(d)), '.'), 4) == Success(Address32(a, b, c, d))
  {
    DigitsHaveNo(NatToString(d), '.');
    SplitText3(a, b, c, NatToString(d));
    PackedAddress(a, b, c, d);
  }

  /** The CIDR parser on valid text with one '/', a prefix that parses and an address part that packs. */
  lemma CidrSteps(s: string, head: string, prefix: string, cidrBit: int, shiftBits: nat, ip: int)
    requires InputValidator.IsIPRangeValid(Some(s)) && Split(s, '/') == [head, prefix]
    requires ParseByte(prefix) == Success(cidrBit) && Packed(Split(head, '.'), 4) == Success(ip)
    requires shiftBits == PrefixShift(cidrBit)
    ensures IsUInt32(ip) && CidrAttempt(s) == CidrBox(ip, shiftBits)
  {
    assert CidrAttempt(s) == CidrOfParts(head, prefix) by {
      assert Split(s, '/')[0] == head && Split(s, '/')[1] == prefix;
    }
    PartsStep(head, prefix, cidrBit, ip);
  }

  lemma PartsStep(head: string, prefix: string, cidrBit: int, ip: int)
    requires ParseByte(prefix) == Success(cidrBit) && Packed(Split(head, '.'), 4) == Success(ip)
    ensures IsUInt32(ip) && CidrOfParts(head, prefix) == CidrBox(ip, PrefixShift(cidrBit))
  {
    assert CidrRead(head, prefix) == Success((ip, PrefixShift(cidrBit)));
  }

  /** The CIDR parser on valid text with exactly one '/' works on the two sides of it. */
  lemma CidrSplitStep(s: string)
    requires InputValidator.IsIPRangeValid(Some(s)) && |Split(s, '/')| == 2
    ensures CidrAttempt(s) == CidrOfParts(Split(s, '/')[0], Split(s, '/')[1])
  {
  }

  /** "a.b.c.d/16" and "a.b.c.d/24" pass the validator. */
  lemma CidrTextValid(a: Octet, b: Octet, c: Octet, d: Octet, prefix: nat)
    requires prefix == 16 || prefix == 24
    ensures InputValidator.IsIPRangeValid(Some(Text3(a, b, c, NatToString(d) + "/" + NatToString(prefix))))
  {
    var A, B, C, D, P := NatToString(a), NatToString(b), NatToString(c), NatToString(d), NatToString(prefix);
    assert InputValidator.IsCidrSuffix("/" + P) by {
      if prefix == 16 {
        assert P == "16";
      } else {
        assert P == "24";
      }
    }
    assert Text3(a, b, c, D + "/" + P) == InputValidator.Dotted(A, B, C, D + ("/" + P)) by {
      assert D + "/" + P == D + ("/" + P);
    }
    ByteIsGroup(a);
    ByteIsGroup(b);
    ByteIsGroup(c);
    ByteIsGroup(d);
    InputValidator.CidrSplitValid(A, B, C, D, "/" + P);
  }

  /** "a.b.c.0/24" is the block a.b.c.0 .. a.b.c.255. */
  lemma Cidr24Block(a: Octet, b: Octet, c: Octet)
    ensures ParseIPRange(Some(Text3(a, b, c, "0/24"))) == Success(Box([a, b, c, 0], [a, b, c, 255]))
  {
    var ip := Address32(a, b, c, 0);
    assert NatToString(0) + "/" + NatToString(24) == "0/24";
    CidrText(a, b, c, 0, 24);
    Block24(a, b, c);
    CidrBoxIsBlock(ip, 8);
    UnpackAddress(a, b, c, 0);
    UnpackAddress(a, b, c, 255);
  }

  /** "a.b.0.0/16" is the block a.b.0.0 .. a.b.255.255. */
  lemma Cidr16Block(a: Octet, b: Octet)
    ensures ParseIPRange(Some(Text3(a, b, 0, "0/16"))) == Success(Box([a, b, 0, 0], [a, b, 255, 255]))
  {
    var ip := Address32(a, b, 0, 0);
    assert NatToString(0) + "/" + NatToString(16) == "0/16";
    CidrText(a, b, 0, 0, 16);
    Block16(a, b);
    CidrBoxIsBlock(ip, 16);
    UnpackAddress(a, b, 0, 0);
    UnpackAddress(a, b, 255, 255);
  }

  /**
   * An address with host bits set under a /16 or /24 prefix passes the
   * validator, but the CIDR parser returns false, and the dashed parser then
   * meets the '/' in the last part and byte.Parse throws a FormatException.
   */
  lemma HostBitsThrow(a: Octet, b: Octet, c: Octet, d: Octet, prefix: nat)
    requires prefix == 16 || prefix == 24
    requires Address32(a, b, c, d) % HostMask(prefix) != 0
    ensures ParseIPRange(Some(Text3(a, b, c, NatToString(d) + "/" + NatToString(prefix))))
      == Failure(Escaped(FormatException))
  {
    var s := Text3(a, b, c, NatToString(d) + "/" + NatToString(prefix));
    HostBitsDeclined(a, b, c, d, prefix);
    CidrTextValid(a, b, c, d, prefix);
    SlashPartThrows(a, b, c, d, prefix);
    DeclinedThenRange(s, Threw(FormatException));
  }

  /** The CIDR parser declines "a.b.c.d/p" when the address has bits set below the prefix. */
  lemma HostBitsDeclined(a: Octet, b: Octet, c: Octet, d: Octet, prefix: nat)
    requires prefix == 16 || prefix == 24
    requires Address32(a, b, c, d) % HostMask(prefix) != 0
    ensures CidrAttempt(Text3(a, b, c, NatToString(d) + "/" + NatToString(prefix))) == Declined
  {
    CidrText(a, b, c, d, prefix);
    CidrDeclines(Address32(a, b, c, d), 32 - prefix);
  }

  /** The dashed parser's loop over "a.b.c.d/p" meets the '/' in the fourth part: byte.Parse throws. */
  lemma SlashPartThrows(a: Octet, b: Octet, c: Octet, d: Octet, prefix: nat)
    ensures RangeUpTo(PartsBounds(Split(Text3(a, b, c, NatToString(d) + "/" + NatToString(prefix)), '.')), 4)
      == Threw(FormatException)
  {
    var D, P := NatToString(d), NatToString(prefix);
    var last := D + "/" + P;
    assert '.' !in last by {
      DigitsHaveNo(D, '.');
      DigitsHaveNo(P, '.');
    }
    assert PartBounds(last) == Threw(FormatException) by {
      DigitsHaveNo(D, '-');
      DigitsHaveNo(P, '-');
      assert last[|D|] == '/';
      PartStray(last, |D|);
    }
    TextBounds(a, b, c, last);
  }

  /** Valid text the CIDR parser declines gives what the dashed parser's loop gives. */
  lemma DeclinedThenRange(s: string, a: Attempt)
    requires InputValidator.IsIPRangeValid(Some(s)) && CidrAttempt(s) == Declined
    requires RangeUpTo(PartsBounds(Split(s, '.')), 4) == a
    ensures ParseIPRange(Some(s)) == match a
      case Parsed(box) => Success(box)
      case Threw(x) => Failure(Escaped(x))
      case Declined => Failure(ArgumentInvalid)
  {
  }

  /** The validator accepts "255.255.254.1/24", and the constructor then throws a FormatException. */
  lemma HostBitsExample()
    ensures InputValidator.IsIPRangeValid(Some("255.255.254.1/24"))
    ensures ParseIPRange(Some("255.255.254.1/24")) == Failure(Escaped(FormatException))
  {
    assert Address32(255, 255, 254, 1) % HostMask(24) != 0;
    HostBitsText();
    CidrTextValid(255, 255, 254, 1, 24);
    HostBitsThrow(255, 255, 254, 1, 24);
  }

  lemma HostBitsText()
    ensures Text3(255, 255, 254, NatToString(1) + "/" + NatToString(24)) == "255.255.254.1/24"
  {
  }

  /**
   * The CIDR example in the doc comment of TryParseCIDR, "10.10.10.10/16",
   * has host bits set below the prefix, so the constructor throws for it.
   */
  lemma DocCidrExampleThrows()
    ensures InputValidator.IsIPRangeValid(Some("10.10.10.10/16"))
    ensures ParseIPRange(Some("10.10.10.10/16")) == Failure(Escaped(FormatException))
  {
    assert Address32(10, 10, 10, 10) % HostMask(16) != 0;
    assert Text3(10, 10, 10, NatToString(10) + "/" + NatToString(16)) == "10.10.10.10/16";
    CidrTextValid(10, 10, 10, 10, 16);
    HostBitsThrow(10, 10, 10, 10, 16);
  }

  /**
   * The range example in the doc comment of TryParseRange,
   * "10.10.10.10-254-255", passes the validator, but its fourth part has two
   * dashes: the dashed parser returns false and the constructor throws an
   * ArgumentException.
   */
  lemma DocRangeExampleRefused()
    ensures InputValidator.IsIPRangeValid(Some("10.10.10.10-254-255"))
    ensures ParseIPRange(Some("10.10.10.10-254-255")) == Failure(ArgumentInvalid)
  {
    DocRangeText();
    DocRangeValid();
    DocRangePart();
    LastPartDeclined(10, 10, 10, "10-254-255");
  }

  /** Valid text without a '/' whose fourth part the dashed parser declines throws ArgumentException. */
  lemma LastPartDeclined(a: Octet, b: Octet, c: Octet, t: string)
    requires '.' !in t && '/' !in Text3(a, b, c, t)
    requires InputValidator.IsIPRangeValid(Some(Text3(a, b, c, t)))
    requires PartBounds(t) == Declined
    ensures ParseIPRange(Some(Text3(a, b, c, t))) == Failure(ArgumentInvalid)
  {
    TextBounds(a, b, c, t);
    ByRangeAlone(Text3(a, b, c, t));
  }

  lemma DocRangeText()
    ensures Text3(10, 10, 10, "10-254-255") == "10.10.10.10-254-255"
    ensures '/' !in "10.10.10.10-254-255" && '.' !in "10-254-255"
  {
  }

  lemma DocRangeValid()
    ensures InputValidator.IsIPRangeValid(Some("10.10.10.10-254-255"))
  {
    var s := "10.10.10.10-254-255";
    assert InputValidator.IsRangeSplit(s[0..15], "10", "10", "10", "10", "254");
  }

  lemma DocRangePart()
    ensures PartBounds("10-254-255") == Declined
  {
    var parts := ["10", "254", "255"];
    assert Join(parts, '-') == "10-254-255";
    SplitJoin(parts, '-');
  }


  /* ------------------------------------------------- failure propagation */

  /** Once a round of the pack loop has thrown, the exception is the loop's outcome. */
  lemma {:induction false} PackedStuck(parts: seq<string>, n: nat, m: nat)
    requires n <= m <= 4 && Packed(parts, n).Failure?
    ensures Packed(parts, m) == Packed(parts, n)
  {
    if n < m {
      PackedStuck(parts, n, m - 1);
    }
  }

  /** Once a round of TryParseRange's loop has returned false or thrown, that is the loop's outcome. */
  lemma {:induction false} RangeStuck(bounds: seq<PartAttempt>, n: nat, m: nat)
    requires n <= m <= 4
    requires !RangeUpTo(bounds, n).Parsed?
    ensures RangeUpTo(bounds, m) == RangeUpTo(bounds, n)
  {
    if n < m {
      RangeStuck(bounds, n, m - 1);
    }
  }

  /** A round of TryParseRange's loop that returns false or throws ends the loop with that outcome. */
  lemma RangeStopsAt(bounds: seq<PartAttempt>, i: nat)
    requires i < 4
    requires RangeUpTo(bounds, i).Parsed? && (i >= |bounds| || !bounds[i].Parsed?)
    ensures RangeUpTo(bounds, 4) == if i >= |bounds| then Threw(IndexOutOfRangeException) else bounds[i]
  {
    RangeStuck(bounds, i + 1, 4);
  }

  /** A round of TryParseRange's loop that parses its part appends the part's bounds. */
  lemma RangeGrows(bounds: seq<PartAttempt>, i: nat, b: seq<Octet>, e: seq<Octet>, lo: Octet, hi: Octet)
    requires i < 4 && i < |bounds|
    requires RangeUpTo(bounds, i) == Parsed(Box(b, e)) && bounds[i] == Parsed(Box([lo], [hi]))
    ensures RangeUpTo(bounds, i + 1) == Parsed(Box(b + [lo], e + [hi]))
  {
  }

  /* ------------------------------------------------------------ the class */

  /**
   * PortScanner.Model.IPRange: the first and last address of the range, a
   * byte array each (null until a parser stores them).
   */
  class IPRange {
    var beginIp: array?<Octet>
    var endIp: array?<Octet>

    /** Both arrays are present and hold four bytes. */
    predicate Valid()
      reads this
    {
      beginIp != null && endIp != null && beginIp.Length == 4 && endIp.Length == 4
    }

    /** The stored begin and end octets. */
    function Bounds(): Box
      requires Valid()
      reads this, beginIp, endIp
    {
      Box(beginIp[..], endIp[..])
    }

    /** The object before either parser has stored anything. */
    constructor Unparsed()
      ensures beginIp == null && endIp == null
    {
      beginIp, endIp := null, null;
    }

    /**
     * `new IPRange(ipRange)`: a range object exactly when ParseIPRange
     * accepts the text, holding the bounds it gives; otherwise the
     * exception the constructor throws.
     */
    static method Create(ipRange: Option<string>) returns (r: Result<IPRange, RangeError>)
      ensures r.Success? <==> ParseIPRange(ipRange).Success?
      ensures r.Failure? ==> r.error == ParseIPRange(ipRange).error
      ensures r.Success? ==> fresh(r.value) && r.value.Valid() && r.value.Bounds() == ParseIPRange(ipRange).value
    {
      if ipRange.None? {
        return Failure(ArgumentNull);
      }
      var range := new IPRange.Unparsed();
      var cidr := range.TryParseCIDR(ipRange);
      if cidr.Failure? {
        return Failure(Escaped(cidr.error));
      }
      if !cidr.value {
        var dashed := range.TryParseRange(ipRange.value);
        if dashed.Failure? {
          return Failure(Escaped(dashed.error));
        }
        if !dashed.value {
          return Failure(ArgumentInvalid);
        }
      }
      return Success(range);
    }

    /**
     * TryParseCIDR: returns what CidrAttempt decides (false for null text);
     * on true the fields are new arrays holding its box, otherwise they are
     * left as they were.
     */
    method TryParseCIDR(ipRange: Option<string>) returns (r: Result<bool, Exception>)
      modifies this
      ensures r == if ipRange.None? then Success(false) else Outcome(CidrAttempt(ipRange.value))
      ensures r == Success(true) ==>
        Valid() && fresh(beginIp) && fresh(endIp) && Bounds() == CidrAttempt(ipRange.value).box
      ensures r != Success(true) ==> beginIp == old(beginIp) && endIp == old(endIp)
    {
      if !InputValidator.IsIPRangeValid(ipRange) {
        return Success(false);
      }
      var text := ipRange.value;
      var split := Split(text, '/');
      if |split| != 2 {
        return Success(false);
      }
      CidrSplitStep(text);
      var read := ReadCidr(split[0], split[1]);
      if read.Failure? {
        return Failure(read.error);
      }
      r := StoreCidrBlock(read.value.0, read.value.1);
    }

    /**
     * TryParseCIDR between the '/' check and the subnet check: byte.Parse
     * on the prefix, then the pack loop on the address.
     */
    static method ReadCidr(address: string, prefix: string) returns (r: Result<(int, nat), Exception>)
      ensures r == CidrRead(address, prefix)
    {
      var cidrBit := ParseByte(prefix);
      if cidrBit.Failure? {
        return Failure(cidrBit.error);
      }
      var shiftBits := PrefixShift(cidrBit.value);
      var ip := PackAddress(Split(address, '.'));
      if ip.Failure? {
        return Failure(ip.error);
      }
      return Success((ip.value, shiftBits));
    }

    /**
     * TryParseCIDR's pack loop: `ip <<= 8; ip += uint.Parse(ipPart[i])` for
     * the first four dot-parts, stopping at the first exception.
     */
    static method PackAddress(ipPart: seq<string>) returns (r: Result<int, Exception>)
      ensures r == Packed(ipPart, 4)
    {
      var ip := 0;
      var i := 0;
      while i < 4
        invariant 0 <= i <= 4
        invariant Packed(ipPart, i) == Success(ip)
      {
        if i >= |ipPart| {
          PackedStuck(ipPart, i + 1, 4);
          return Failure(IndexOutOfRangeException);
        }
        ip := ShiftLeft(ip, 8);
        var v := ParseUInt32(ipPart[i]);
        if v.Failure? {
          PackedStuck(ipPart, i + 1, 4);
          return Failure(v.error);
        }
        ip := AddWrap(ip, v.value);
        i := i + 1;
      }
      return Success(ip);
    }

    /**
     * The end of TryParseCIDR, from the packed address and the shift: false
     * for an address with bits set below the shift; otherwise the fields
     * become new arrays holding the octets of the block's first and last
     * address, and the answer is true.
     */
    method StoreCidrBlock(ip: int, shiftBits: nat) returns (r: Result<bool, Exception>)
      requires IsUInt32(ip)
      modifies this
      ensures r == Outcome(CidrBox(ip, shiftBits))
      ensures r == Success(true) ==>
        Valid() && fresh(beginIp) && fresh(endIp) && Bounds() == CidrBox(ip, shiftBits).box
      ensures r != Success(true) ==> beginIp == old(beginIp) && endIp == old(endIp)
    {
      var ip1 := ShiftLeft(ShiftRight(ip, shiftBits), shiftBits);
      if ip1 != ip {
        return Success(false);
      }
      var ip2 := FillHostBits(ip1, shiftBits);
      var b, e := UnpackWords(ip1, ip2);
      beginIp, endIp := b, e;
      return Success(true);
    }

    /** TryParseCIDR's last loop: octet i of each new array is byte i of the word, most significant first. */
    static method UnpackWords(ip1: int, ip2: int) returns (b: array<Octet>, e: array<Octet>)
      requires IsUInt32(ip1) && IsUInt32(ip2)
      ensures fresh(b) && fresh(e) && b.Length == 4 && e.Length == 4
      ensures b[..] == Unpack(ip1) && e[..] == Unpack(ip2)
    {
      b := new Octet[4];
      e := new Octet[4];
      var i := 0;
      while i < 4
        invariant 0 <= i <= 4
        invariant forall j :: 0 <= j < i ==> b[j] == OctetOf(ip1, j) && e[j] == OctetOf(ip2, j)
      {
        var lo, hi := OctetOf(ip1, i), OctetOf(ip2, i);
        b[i], e[i] := lo, hi;
        i := i + 1;
      }
      UnpackOf(ip1, b[..]);
      UnpackOf(ip2, e[..]);
    }

    /** TryParseCIDR's second loop: `ip2 = (ip2 << 1) + 1`, shiftBits times, from ip1 >> shiftBits. */
    static method FillHostBits(ip1: int, shiftBits: nat) returns (ip2: int)
      requires IsUInt32(ip1)
      ensures ip2 == FillOnes(ShiftRight(ip1, shiftBits), shiftBits)
    {
      ip2 := ShiftRight(ip1, shiftBits);
      var k := 0;
      while k < shiftBits
        invariant 0 <= k <= shiftBits
        invariant ip2 == FillOnes(ShiftRight(ip1, shiftBits), k)
      {
        ip2 := AddWrap(ShiftLeft(ip2, 1), 1);
        k := k + 1;
      }
    }

    /**
     * TryParseRange: returns what RangeAttempt decides. Once the text is
     * valid, the fields are replaced by new zeroed arrays before the first
     * part is read; on true they hold its box.
     */
    method TryParseRange(ipRange: string) returns (r: Result<bool, Exception>)
      modifies this
      ensures r == Outcome(RangeAttempt(ipRange))
      ensures !InputValidator.IsIPRangeValid(Some(ipRange)) ==> beginIp == old(beginIp) && endIp == old(endIp)
      ensures InputValidator.IsIPRangeValid(Some(ipRange)) ==>
        Valid() && fresh(beginIp) && fresh(endIp)
      ensures r == Success(true) ==> Bounds() == RangeAttempt(ipRange).box
    {
      if !InputValidator.IsIPRangeValid(Some(ipRange)) {
        return Success(false);
      }
      var b := new Octet[4];
      var e := new Octet[4];
      beginIp, endIp := b, e;
      var ipParts := Split(ipRange, '.');
      r := FillRange(ipParts, b, e, PartsBounds(ipParts));
    }

    /** Writes octet i of the begin and end arrays, keeping the octets before it. */
    static method StoreOctets(b: array<Octet>, e: array<Octet>, i: nat, lo: Octet, hi: Octet)
      requires i < b.Length && i < e.Length && b != e
      modifies b, e
      ensures b[..i + 1] == old(b[..i]) + [lo] && e[..i + 1] == old(e[..i]) + [hi]
    {
      b[i], e[i] := lo, hi;
      assert b[..i + 1] == b[..i] + [lo];
      assert e[..i + 1] == e[..i] + [hi];
    }

    /** One dot-part of TryParseRange's loop: split on '-', then byte.Parse each side. */
    static method ParsePart(part: string) returns (a: PartAttempt)
      ensures a == PartBounds(part)
    {
      var rangeParts := Split(part, '-');
      if |rangeParts| < 1 || |rangeParts| > 2 {
        return Declined;
      }
      var lo := ParseByte(rangeParts[0]);
      if lo.Failure? {
        return Threw(lo.error);
      }
      if |rangeParts| == 1 {
        return Parsed(Box([lo.value], [lo.value]));
      }
      var hi := ParseByte(rangeParts[1]);
      if hi.Failure? {
        return Threw(hi.error);
      }
      return Parsed(Box([lo.value], [hi.value]));
    }

    /**
     * TryParseRange's loop, on the arrays it has just stored in the fields:
     * each of the first four dot-parts fills one octet of each array.
     */
    static method FillRange(ipParts: seq<string>, b: array<Octet>, e: array<Octet>, ghost bounds: seq<PartAttempt>)
      returns (r: Result<bool, Exception>)
      requires b.Length == 4 && e.Length == 4 && b != e
      requires |bounds| == |ipParts|
      requires forall k {:trigger PartBounds(ipParts[k])} :: 0 <= k < |ipParts| ==> bounds[k] == PartBounds(ipParts[k])
      modifies b, e
      ensures r == Outcome(RangeUpTo(bounds, 4))
      ensures r == Success(true) ==> Box(b[..], e[..]) == RangeUpTo(bounds, 4).box
    {
      var i := 0;
      while i < 4
        invariant 0 <= i <= 4
        invariant RangeUpTo(bounds, i) == Parsed(Box(b[..i], e[..i]))
      {
        if i >= |ipParts| {
          RangeStopsAt(bounds, i);
          return Failure(IndexOutOfRangeException);
        }
        var part := ParsePart(ipParts[i]);
        if !part.Parsed? {
          RangeStopsAt(bounds, i);
          return if part.Threw? then Failure(part.fault) else Success(false);
        }
        ghost var done := Box(b[..i], e[..i]);
        var lo, hi := part.box.begin[0], part.box.end[0];
        StoreOctets(b, e, i, lo, hi);
        RangeGrows(bounds, i, done.begin, done.end, lo, hi);
        i := i + 1;
      }
      assert b[..] == b[..4] && e[..] == e[..4];
      return Success(true);
    }

    /**
     * GetAllIP: the capacity product over the four octets, then every
     * address of the stored box, octet 0 in the outermost loop.
     */
    method GetAllIP() returns (r: Result<seq<IPAddress>, Exception>)
      requires Valid()
      ensures r == AllIP(beginIp[..], endIp[..])
    {
      var b, e := beginIp[..], endIp[..];
      var capacity := CapacityOf(b, e);
      if capacity < 0 {
        return Failure(ArgumentOutOfRangeException);
      }
      if capacity > MaxListLength {
        return Failure(OutOfMemoryException);
      }
      RowsLength([], b, e);
      r := AddRows([], [], b, e);
      assert [] + Rows([], b, e) == Enumerate(b, e);
    }

    /** GetAllIP's first loop: the int product of end[i] - begin[i] + 1 over the four octets. */
    static method CapacityOf(b: seq<Octet>, e: seq<Octet>) returns (capacity: int)
      requires |b| == 4 && |e| == 4
      ensures capacity == Capacity(b, e, |b|)
    {
      capacity := 1;
      var i := 0;
      while i < 4
        invariant 0 <= i <= 4
        invariant capacity == Capacity(b, e, i)
      {
        capacity := Wrap32(capacity * (e[i] as int - b[i] as int + 1));
        i := i + 1;
      }
    }

    /**
     * The loops of GetAllIP from octet |p| inward: for each value x from
     * b[0] to e[0], the inner loops with x appended to the octets chosen so
     * far; innermost, one address is added, and the Add onto a list of
     * MaxListLength items throws.
     */
    static method AddRows(ips: seq<IPAddress>, p: seq<Octet>, b: seq<Octet>, e: seq<Octet>)
      returns (out: Result<seq<IPAddress>, Exception>)
      requires |b| == |e| && |ips| <= MaxListLength
      ensures |ips| + |Rows(p, b, e)| <= MaxListLength ==> out == Success(ips + Rows(p, b, e))
      ensures |ips| + |Rows(p, b, e)| > MaxListLength ==> out == Failure(OutOfMemoryException)
      decreases |b|
    {
      if |b| == 0 {
        if |ips| == MaxListLength {
          return Failure(OutOfMemoryException);
        }
        return Success(ips + [IPAddress(p)]);
      }
      var added := ips;
      var x: int := b[0];
      while x <= e[0]
        invariant b[0] <= x && (x <= e[0] as int + 1 || x == b[0])
        invariant added == ips + Span(p, b[0], x - 1, b[1..], e[1..])
        invariant |added| <= MaxListLength
      {
        out := AddRows(added, p + [x as Octet], b[1..], e[1..]);
        if out.Failure? {
          SpanLength(p, b[0], x, b[1..], e[1..]);
          SpanLength(p, b[0], e[0], b[1..], e[1..]);
          MulMonotone(Count(b[0], x), Count(b[0], e[0]), Volume(b[1..], e[1..]));
          return;
        }
        added := out.value;
        x := x + 1;
      }
      assert added == ips + Rows(p, b, e);
      return Success(added);
    }
  }
}
