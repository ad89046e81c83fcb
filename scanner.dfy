/**
 * Scanner: which (address, port) pairs a scan hands to ScanPortsAsync, in
 * what order, and when it stops because the cancellation token is set; and
 * the rule that decides whether one probe reports an open port.
 *
 * The token is modelled by `cancelAt`: the checks of IsCancellationRequested
 * that a scan makes are numbered 0, 1, 2, ... in the order it makes them, and
 * check number n sees the token cancelled exactly when n >= cancelAt (a token
 * once cancelled stays cancelled). Only the checks in the scan loops are
 * numbered: the check at the start of ScanPortsAsync and the one after its
 * race are the flags cancelledBefore and cancelledAfter of a Probe.
 */
module Scanners {
  import opened Wrappers
  import opened Words
  import opened Seqs
  import opened OpenPorts
  import opened Text
  import IPRanges

  const MinPort := 1
  const MaxPort := 65535

  /** The private `ports` array: the common ports a quick scan tries, in this order. */
  const CommonPorts: seq<int> := [20, 21, 22, 23, 25, 53, 80, 110, 143, 161, 443, 445, 3389, 8080, 8090]

  /** The ports of the full scan's `for (port = MinPort; port < MaxPort; port++)`. */
  const FullPorts: seq<int> := Range(MinPort, MaxPort - MinPort)

  /** One pair handed to ScanPortsAsync. */
  datatype Target = Target(address: IPRanges.IPAddress, port: int)

  /* --------------------------------------------------------------- grids */

  /** The pairs of one address with each port, in port order. */
  function AddressRow(ip: IPRanges.IPAddress, ports: seq<int>): (row: seq<Target>)
    ensures |row| == |ports|
  {
    seq(|ports|, k requires 0 <= k < |ports| => Target(ip, ports[k]))
  }

  function AddressRows(ips: seq<IPRanges.IPAddress>, ports: seq<int>): (rows: seq<seq<Target>>)
    ensures |rows| == |ips| && forall a :: 0 <= a < |ips| ==> rows[a] == AddressRow(ips[a], ports)
  {
    seq(|ips|, a requires 0 <= a < |ips| => AddressRow(ips[a], ports))
  }

  /** The pairs of one port with each address, in address order. */
  function PortRow(port: int, ips: seq<IPRanges.IPAddress>): (row: seq<Target>)
    ensures |row| == |ips|
  {
    seq(|ips|, k requires 0 <= k < |ips| => Target(ips[k], port))
  }

  function PortRows(ports: seq<int>, ips: seq<IPRanges.IPAddress>): (rows: seq<seq<Target>>)
    ensures |rows| == |ports| && forall p :: 0 <= p < |ports| ==> rows[p] == PortRow(ports[p], ips)
  {
    seq(|ports|, p requires 0 <= p < |ports| => PortRow(ports[p], ips))
  }

  /** Every address with every port, address-major (an address loop around a port loop). */
  function AddressMajor(ips: seq<IPRanges.IPAddress>, ports: seq<int>): seq<Target> {
    Flatten(AddressRows(ips, ports))
  }

  /** Every port with every address, port-major (a port loop around an address loop). */
  function PortMajor(ports: seq<int>, ips: seq<IPRanges.IPAddress>): seq<Target> {
    Flatten(PortRows(ports, ips))
  }

  /** The address-major grid holds exactly the pairs of a listed address and a listed port. */
  lemma AddressMajorMembers(ips: seq<IPRanges.IPAddress>, ports: seq<int>, t: Target)
    ensures t in AddressMajor(ips, ports) <==> t.address in ips && t.port in ports
  {
    var rows := AddressRows(ips, ports);
    FlattenMembers(rows, t);
    if t.address in ips && t.port in ports {
      var a :| 0 <= a < |ips| && ips[a] == t.address;
      var k :| 0 <= k < |ports| && ports[k] == t.port;
      assert rows[a][k] == t;
    }
  }

  /** The port-major grid holds exactly the pairs of a listed address and a listed port. */
  lemma PortMajorMembers(ports: seq<int>, ips: seq<IPRanges.IPAddress>, t: Target)
    ensures t in PortMajor(ports, ips) <==> t.address in ips && t.port in ports
  {
    var rows := PortRows(ports, ips);
    FlattenMembers(rows, t);
    if t.address in ips && t.port in ports {
      var p :| 0 <= p < |ports| && ports[p] == t.port;
      var k :| 0 <= k < |ips| && ips[k] == t.address;
      assert rows[p][k] == t;
    }
  }

  lemma AddressMajorLength(ips: seq<IPRanges.IPAddress>, ports: seq<int>)
    ensures |AddressMajor(ips, ports)| == |ips| * |ports|
  {
    FlattenLength(AddressRows(ips, ports), |ports|);
  }

  lemma PortMajorLength(ports: seq<int>, ips: seq<IPRanges.IPAddress>)
    ensures |PortMajor(ports, ips)| == |ports| * |ips|
  {
    FlattenLength(PortRows(ports, ips), |ips|);
  }

  /** The full scan never tries port 65535 (the loop stops below MaxPort), and tries every port below it. */
  lemma FullScanPorts(ips: seq<IPRanges.IPAddress>, t: Target)
    ensures t in AddressMajor(ips, FullPorts) <==> t.address in ips && MinPort <= t.port < MaxPort
  {
    AddressMajorMembers(ips, FullPorts, t);
    if MinPort <= t.port < MaxPort {
      assert FullPorts[t.port - MinPort] == t.port;
    }
  }

  /* ------------------------------------------------------- cancellation */

  /**
   * In an outer loop around an inner loop of `width` items that checks the
   * token before every outer and every inner step, the number of the check
   * made just before the j-th pair: j inner checks and j / width + 1 outer
   * checks precede it.
   */
  function CheckIndex(j: nat, width: nat): nat
    requires width >= 1
  {
    j + j / width + 1
  }

  /** How many pairs are reached before the check numbered c: full rows of c / (width + 1), then the rest. */
  function Reach(c: nat, width: nat): nat
    requires width >= 1
  {
    var rest := c % (width + 1);
    (c / (width + 1)) * width + (if rest == 0 then 0 else rest - 1)
  }

  /**
   * `done` is what such a pair of loops hands on when the token is cancelled
   * from check number c on: a prefix of the grid, every pair of it preceded
   * by checks that saw no cancellation, and when it stops short, the check
   * before the next pair saw it.
   */
  predicate CutAt(done: seq<Target>, grid: seq<Target>, width: nat, c: nat)
    requires width >= 1
  {
    && done <= grid
    && (forall j :: 0 <= j < |done| ==> CheckIndex(j, width) < c)
    && (|done| < |grid| ==> CheckIndex(|done|, width) >= c)
  }

  /** Comparing q * w + b with Q * w + m for digits b, m below w is comparing (q, b) with (Q, m). */
  lemma LexLess(q: nat, b: nat, Q: nat, m: nat, w: nat)
    requires b < w && m < w
    ensures q * w + b < Q * w + m <==> q < Q || (q == Q && b < m)
  {
    if q < Q {
      MulMonotone(q + 1, Q, w);
    } else if q > Q {
      MulMonotone(Q + 1, q, w);
    }
  }

  /** The j-th pair is reached before check c exactly when its own check comes before c. */
  lemma ReachCounts(c: nat, width: nat, j: nat)
    requires width >= 1
    ensures j < Reach(c, width) <==> CheckIndex(j, width) < c
  {
    CheckBefore(c, width, j);
    ReachedBefore(c, width, j);
  }

  /** Pair j's check precedes check c exactly when (row, column + 1) of j is below (row, column) of c. */
  lemma CheckBefore(c: nat, width: nat, j: nat)
    requires width >= 1
    ensures CheckIndex(j, width) < c <==>
      j / width < c / (width + 1) || (j / width == c / (width + 1) && j % width + 1 < c % (width + 1))
  {
    var q, b := j / width, j % width;
    var Q, R := c / (width + 1), c % (width + 1);
    assert CheckIndex(j, width) == q * (width + 1) + (b + 1) by {
      DivMod(j, width);
      MulAddRight(q, width, 1);
    }
    assert c == Q * (width + 1) + R && 0 <= R < width + 1 && Q >= 0 && q >= 0 by {
      DivMod(c, width + 1);
      DivShrinks(c, width + 1);
      DivShrinks(j, width);
    }
    LexLess(q, b + 1, Q, R, width + 1);
  }

  /** Pair j is among the first Reach(c, width) exactly when the same comparison holds. */
  lemma ReachedBefore(c: nat, width: nat, j: nat)
    requires width >= 1
    ensures j < Reach(c, width) <==>
      j / width < c / (width + 1) || (j / width == c / (width + 1) && j % width + 1 < c % (width + 1))
  {
    var q, b := j / width, j % width;
    var Q, R := c / (width + 1), c % (width + 1);
    var m := if R == 0 then 0 else R - 1;
    assert j == q * width + b;
    LexLess(q, b, Q, m, width);
  }

  /** The checks that come before pair j also come before every earlier pair. */
  lemma CheckIndexGrows(i: nat, j: nat, width: nat)
    requires width >= 1 && i <= j
    ensures CheckIndex(i, width) <= CheckIndex(j, width)
  {
    DivMonotone(i, j, width);
  }

  lemma DivMonotone(i: nat, j: nat, d: nat)
    requires d >= 1 && i <= j
    ensures i / d <= j / d
  {
    if i / d > j / d {
      MulMonotone(j / d + 1, i / d, d);
    }
  }

  /** The cut in closed form: CutAt holds of exactly one prefix, the one of length min(|grid|, Reach(c, width)). */
  lemma CutAtClosedForm(done: seq<Target>, grid: seq<Target>, width: nat, c: nat)
    requires width >= 1
    ensures CutAt(done, grid, width, c) <==> done == grid[..Min(|grid|, Reach(c, width))]
  {
    var n := Min(|grid|, Reach(c, width));
    forall j | 0 <= j < n
      ensures CheckIndex(j, width) < c
    {
      ReachCounts(c, width, j);
    }
    if n < |grid| {
      ReachCounts(c, width, n);
    }
    if CutAt(done, grid, width, c) {
      assert |done| == n;
    }
  }

  function Min(a: int, b: int): int {
    if a <= b then a else b
  }

  /** A token cancelled after every check of the scan lets it hand on the whole grid. */
  lemma NeverCancelled(done: seq<Target>, grid: seq<Target>, width: nat, c: nat)
    requires width >= 1 && CutAt(done, grid, width, c)
    requires |grid| > 0 ==> c > CheckIndex(|grid| - 1, width)
    ensures done == grid
  {
    if |done| < |grid| {
      CheckIndexGrows(|done|, |grid| - 1, width);
    }
  }

  /** A later cancellation hands on everything an earlier one did, and possibly more. */
  lemma LaterCancelMore(d1: seq<Target>, d2: seq<Target>, grid: seq<Target>, width: nat, c1: nat, c2: nat)
    requires width >= 1 && c1 <= c2 && CutAt(d1, grid, width, c1) && CutAt(d2, grid, width, c2)
    ensures d1 <= d2
  {
  }

  /** Pair k of row i of a grid of equal rows: its check comes after the i + 1 outer and the earlier inner checks. */
  lemma PairIndex(rows: seq<seq<Target>>, i: nat, k: nat, width: nat)
    requires width >= 1 && i < |rows| && k < width
    requires forall r :: 0 <= r < |rows| ==> |rows[r]| == width
    ensures CheckIndex(|Flatten(rows[..i])| + k, width) == |Flatten(rows[..i])| + k + i + 1
  {
    FlattenLength(rows[..i], width);
    DivUnique(i * width + k, width, i, k);
  }

  /** A cancelled outer check before row i stops the walk at the rows before it. */
  lemma OuterStop(rows: seq<seq<Target>>, width: nat, c: nat, i: nat, done: seq<Target>)
    requires width >= 1 && i < |rows|
    requires forall r :: 0 <= r < |rows| ==> |rows[r]| == width
    requires done == Flatten(rows[..i]) && |done| + i >= c
    requires forall j :: 0 <= j < |done| ==> CheckIndex(j, width) < c
    ensures CutAt(done, Flatten(rows), width, c)
  {
    PairIndex(rows, i, 0, width);
    FlattenPrefix(rows, i, 1);
  }

  /**
   * After a clean outer check before row i, the inner loop walks the first n
   * pairs of the row, n = min(width, c - first), where `first` numbers its
   * first check: the whole row, or a cut inside it.
   */
  lemma RowStep(rows: seq<seq<Target>>, width: nat, c: nat, i: nat, done: seq<Target>, n: nat)
    requires width >= 1 && i < |rows|
    requires forall r :: 0 <= r < |rows| ==> |rows[r]| == width
    requires done == Flatten(rows[..i]) && |done| + i + 1 <= c
    requires forall j :: 0 <= j < |done| ==> CheckIndex(j, width) < c
    requires n == Min(width, c - (|done| + i + 1))
    ensures forall j :: 0 <= j < |done| + n ==> CheckIndex(j, width) < c
    ensures n == width ==> done + rows[i][..n] == Flatten(rows[..i + 1])
    ensures n < width ==> CutAt(done + rows[i][..n], Flatten(rows), width, c)
  {
    forall j | |done| <= j < |done| + n
      ensures CheckIndex(j, width) < c
    {
      PairIndex(rows, i, j - |done|, width);
    }
    if n == width {
      FlattenStep(rows, i);
      assert rows[i][..n] == rows[i];
    } else {
      PairIndex(rows, i, n, width);
      FlattenPrefix(rows, i, n + 1);
    }
  }

  /** The first pair of row i, if there is such a row and it is not empty. */
  function Lead(rows: seq<seq<Target>>, i: nat): seq<Target> {
    if i < |rows| && |rows[i]| > 0 then [rows[i][0]] else []
  }

  /**
   * What the quick scan's pair of Parallel.ForEach loops, run in order, hands
   * on when the token is cancelled from check c on. `state.Break()` is not
   * followed by a return, so the pair whose check saw the cancellation is
   * still handed on; and when that check was an inner one, the outer loop
   * goes on to the next address, whose own inner loop hands on its first
   * pair before the break there takes effect.
   */
  function QuickCut(rows: seq<seq<Target>>, width: nat, c: nat): (done: seq<Target>)
    requires width >= 1 && forall r :: 0 <= r < |rows| ==> |rows[r]| == width
    ensures |done| <= |Flatten(rows)| + 1
  {
    var grid := Flatten(rows);
    var n := Reach(c, width);
    var a := c / (width + 1);
    if n >= |grid| then grid
    else grid[..n + 1] + (if c % (width + 1) != 0 then Lead(rows, a + 1) else [])
  }

  /** Cancelled at the outer check of row i: the rows before it and the first pair of row i. */
  lemma OuterCut(rows: seq<seq<Target>>, width: nat, i: nat)
    requires width >= 1 && forall r :: 0 <= r < |rows| ==> |rows[r]| == width
    requires i < |rows|
    ensures QuickCut(rows, width, |Flatten(rows[..i])| + i) == Flatten(rows[..i]) + [rows[i][0]]
  {
    var n := |Flatten(rows[..i])|;
    FlattenLength(rows[..i], width);
    MulAddLeft(width, 1, i);
    DivUnique(n + i, width + 1, i, 0);
    FlattenPrefix(rows, i, 1);
    assert rows[i][..1] == [rows[i][0]];
  }

  /** Cancelled at the check of pair k of row i: up to that pair, then the first pair of the next row if any. */
  lemma InnerCut(rows: seq<seq<Target>>, width: nat, i: nat, k: nat)
    requires width >= 1 && forall r :: 0 <= r < |rows| ==> |rows[r]| == width
    requires i < |rows| && k < width
    ensures QuickCut(rows, width, |Flatten(rows[..i])| + i + 1 + k)
         == Flatten(rows[..i]) + rows[i][..k + 1] + Lead(rows, i + 1)
  {
    var n := |Flatten(rows[..i])|;
    FlattenLength(rows[..i], width);
    MulAddLeft(width, 1, i);
    DivUnique(n + i + 1 + k, width + 1, i, k + 1);
    FlattenPrefix(rows, i, k + 1);
  }

  /**
   * After a clean outer check before row i, whose inner loop's first check
   * is numbered `first`: either the row is walked to its end with no check
   * cancelled, or the walk is cut inside it.
   */
  lemma QuickRowStep(rows: seq<seq<Target>>, width: nat, c: nat, i: nat, done: seq<Target>, probed: seq<Target>)
    requires width >= 1 && forall r :: 0 <= r < |rows| ==> |rows[r]| == width
    requires i < |rows| && done == Flatten(rows[..i]) && |done| + i < c
    requires probed == rows[i][..Min(width, c - (|done| + i + 1) + 1)]
    ensures c - (|done| + i + 1) >= width ==> done + probed == Flatten(rows[..i + 1])
    ensures c - (|done| + i + 1) < width ==> done + probed + Lead(rows, i + 1) == QuickCut(rows, width, c)
  {
    var k := c - (|done| + i + 1);
    if k < width {
      InnerCut(rows, width, i, k);
    } else {
      FlattenStep(rows, i);
      assert probed == rows[i];
    }
  }

  /** Never cancelled during its checks: the whole grid. */
  lemma QuickUncut(rows: seq<seq<Target>>, width: nat, c: nat)
    requires width >= 1 && forall r :: 0 <= r < |rows| ==> |rows[r]| == width
    requires c >= |Flatten(rows)| + |rows|
    ensures QuickCut(rows, width, c) == Flatten(rows)
  {
    FlattenLength(rows, width);
    MulAddLeft(width, 1, |rows|);
    DivUnique(|rows| * (width + 1), width + 1, |rows|, 0);
    DivMonotone(|rows| * (width + 1), c, width + 1);
    MulMonotone(|rows|, c / (width + 1), width);
  }

  /**
   * The quick scan hands on every pair the sequential cut does, in the same
   * order, and at most two pairs more.
   */
  lemma QuickCutExtendsCut(rows: seq<seq<Target>>, width: nat, c: nat)
    requires width >= 1 && forall r :: 0 <= r < |rows| ==> |rows[r]| == width
    ensures Flatten(rows)[..Min(|Flatten(rows)|, Reach(c, width))] <= QuickCut(rows, width, c)
    ensures |QuickCut(rows, width, c)| <= Min(|Flatten(rows)|, Reach(c, width)) + 2
  {
  }

  /** Every pair the quick scan hands on is a pair of the grid. */
  lemma QuickCutInGrid(rows: seq<seq<Target>>, width: nat, c: nat, t: Target)
    requires width >= 1 && forall r :: 0 <= r < |rows| ==> |rows[r]| == width
    requires t in QuickCut(rows, width, c)
    ensures t in Flatten(rows)
  {
    var grid, n, a := Flatten(rows), Reach(c, width), c / (width + 1);
    assert a >= 0 by {
      DivShrinks(c, width + 1);
    }
    if n >= |grid| {
      assert QuickCut(rows, width, c) == grid;
    } else {
      var tail := if c % (width + 1) != 0 then Lead(rows, a + 1) else [];
      assert QuickCut(rows, width, c) == grid[..n + 1] + tail;
      if t in grid[..n + 1] {
        assert grid[..n + 1] <= grid;
      } else {
        assert t in Lead(rows, a + 1);
        assert a + 1 < |rows| && t == rows[a + 1][0];
        FlattenMembers(rows, t);
      }
    }
  }

  /* ------------------------------------------------------------- probes */

  /** How the race in ScanPortsAsync ends: the connect task first, successful or faulted, or the 5-second timer first. */
  datatype Connect = Connected | Faulted | TimedOut

  /**
   * What one ScanPortsAsync call meets: whether the main token is already
   * cancelled at its first check, how the race ends, and whether the token
   * is cancelled when it is checked again after the race.
   */
  datatype Probe = Probe(cancelledBefore: bool, race: Connect, cancelledAfter: bool)
  {
    /** A token once cancelled stays cancelled. */
    predicate Consistent() {
      cancelledBefore ==> cancelledAfter
    }
  }

  /**
   * ScanPortsAsync's decision: the callback receives the address text and the
   * port when the token was clear at the start, the connect won the race and
   * succeeded, and the token is still clear; otherwise nothing is reported
   * (a timeout's TaskCanceledException is caught there).
   */
  function ProbeReport(t: Target, p: Probe): (r: Option<OpenPort>)
    requires |t.address.bytes| == 4
    ensures r.Some? <==> !p.cancelledBefore && p.race == Connected && !p.cancelledAfter
    ensures r.Some? ==> r.value.host == t.address.ToString() && r.value.port == t.port
  {
    if p.cancelledBefore then None
    else if p.race != Connected then None
    else if p.cancelledAfter then None
    else Some(OpenPort(t.address.ToString(), t.port))
  }

  /** Every pair names a four-byte address, whose dotted text the report carries. */
  predicate IPv4Targets(targets: seq<Target>) {
    forall j :: 0 <= j < |targets| ==> |targets[j].address.bytes| == 4
  }

  /** The callbacks of a sequence of probes, at most one each, in order. */
  function Reports(targets: seq<Target>, probes: seq<Probe>): (found: seq<OpenPort>)
    requires |probes| == |targets|
    requires IPv4Targets(targets)
    ensures |found| <= |targets|
  {
    if targets == [] then []
    else
      var rest := Reports(targets[1..], probes[1..]);
      match ProbeReport(targets[0], probes[0])
      case Some(o) => [o] + rest
      case None => rest
  }

  /** Every report names a probed pair whose connect succeeded with the token clear throughout. */
  lemma {:induction false} ReportsComeFromOpenPorts(targets: seq<Target>, probes: seq<Probe>, o: OpenPort)
    requires |probes| == |targets|
    requires IPv4Targets(targets)
    requires o in Reports(targets, probes)
    ensures exists j :: 0 <= j < |targets| && probes[j] == Probe(false, Connected, false) &&
                        o == OpenPort(targets[j].address.ToString(), targets[j].port)
  {
    if ProbeReport(targets[0], probes[0]).Some? && o == ProbeReport(targets[0], probes[0]).value {
      assert probes[0] == Probe(false, Connected, false);
    } else {
      ReportsComeFromOpenPorts(targets[1..], probes[1..], o);
      var j :| 0 <= j < |targets| - 1 && probes[1..][j] == Probe(false, Connected, false) &&
               o == OpenPort(targets[1..][j].address.ToString(), targets[1..][j].port);
      assert probes[j + 1] == probes[1..][j] && targets[j + 1] == targets[1..][j];
    }
  }

  /** A token already cancelled at either check of every probe silences all of them. */
  lemma {:induction false} CancelledScanReportsNothing(targets: seq<Target>, probes: seq<Probe>)
    requires |probes| == |targets|
    requires IPv4Targets(targets)
    requires forall j :: 0 <= j < |probes| ==> probes[j].cancelledBefore || probes[j].cancelledAfter
    ensures Reports(targets, probes) == []
  {
    if targets != [] {
      CancelledScanReportsNothing(targets[1..], probes[1..]);
    }
  }

  /** The callbacks of two runs of probes, one after the other, are those of each run in turn. */
  lemma {:induction false} ReportsAppend(t1: seq<Target>, p1: seq<Probe>, t2: seq<Target>, p2: seq<Probe>)
    requires |p1| == |t1| && |p2| == |t2| && IPv4Targets(t1) && IPv4Targets(t2)
    ensures Reports(t1 + t2, p1 + p2) == Reports(t1, p1) + Reports(t2, p2)
  {
    if t1 == [] {
      assert t1 + t2 == t2 && p1 + p2 == p2;
    } else {
      assert (t1 + t2)[1..] == t1[1..] + t2 && (p1 + p2)[1..] == p1[1..] + p2;
      ReportsAppend(t1[1..], p1[1..], t2, p2);
    }
  }

  /**
   * The pairs a quick scan hands on past the sequential cut are probed after
   * the token is cancelled, so ScanPortsAsync returns at its first check for
   * each of them: the scan reports exactly what the pairs before the cut do.
   */
  lemma QuickScanSilentAfterCut(rows: seq<seq<Target>>, width: nat, c: nat, probes: seq<Probe>)
    requires width >= 1 && forall r :: 0 <= r < |rows| ==> |rows[r]| == width
    requires IPv4Targets(QuickCut(rows, width, c)) && |probes| == |QuickCut(rows, width, c)|
    requires forall j :: Min(|Flatten(rows)|, Reach(c, width)) <= j < |probes| ==> probes[j].cancelledBefore
    ensures var m := Min(|Flatten(rows)|, Reach(c, width));
      m <= |probes| && QuickCut(rows, width, c)[..m] == Flatten(rows)[..m]
    ensures var m := Min(|Flatten(rows)|, Reach(c, width));
      Reports(QuickCut(rows, width, c), probes) == Reports(QuickCut(rows, width, c)[..m], probes[..m])
  {
    var done, m := QuickCut(rows, width, c), Min(|Flatten(rows)|, Reach(c, width));
    QuickCutExtendsCut(rows, width, c);
    assert done[..m] == Flatten(rows)[..m];
    assert done == done[..m] + done[m..] && probes == probes[..m] + probes[m..];
    ReportsAppend(done[..m], probes[..m], done[m..], probes[m..]);
    CancelledScanReportsNothing(done[m..], probes[m..]);
  }

  /** The dotted decimal text of an address holds no colon. */
  lemma {:induction false} DottedTextHasNoColon(bytes: seq<Words.Octet>)
    requires |bytes| >= 1
    ensures ':' !in IPRanges.IPAddress(bytes).ToString()
  {
    var parts := IPRanges.Decimals(bytes);
    IPRanges.DigitsHaveNo(parts[0], ':');
    if |bytes| > 1 {
      DottedTextHasNoColon(bytes[1..]);
      assert parts[1..] == IPRanges.Decimals(bytes[1..]);
    }
  }

  /** Every report's line reads back as the same address text and port. */
  lemma ReportReadsBack(t: Target, p: Probe)
    requires |t.address.bytes| == 4 && MinInt32 <= t.port <= MaxInt32
    requires ProbeReport(t, p).Some?
    ensures ReadOpenPort(ProbeReport(t, p).value.ToString()) == ProbeReport(t, p)
  {
    DottedTextHasNoColon(t.address.bytes);
    ReadsBack(ProbeReport(t, p).value);
  }

  /* ------------------------------------------------------------ scanner */

  /** Scanner: the addresses to scan and the common ports of a quick scan. */
  class Scanner {
    const ips: seq<IPRanges.IPAddress>
    const ports: seq<int> := CommonPorts

    /** Both constructors keep the addresses in the order given. */
    constructor (ips: seq<IPRanges.IPAddress>)
      ensures this.ips == ips
    {
      this.ips := ips;
    }

    /**
     * ScanAsync: the pairs handed to ScanPortsAsync, in order. A quick scan
     * walks every address with the common ports; a full one every address
     * with ports 1 to 65534.
     */
    method ScanAsync(scanOnlyCommonPorts: bool, cancelAt: nat) returns (attempted: seq<Target>)
      ensures scanOnlyCommonPorts ==> attempted == QuickCut(AddressRows(ips, ports), |ports|, cancelAt)
      ensures !scanOnlyCommonPorts ==> CutAt(attempted, AddressMajor(ips, FullPorts), |FullPorts|, cancelAt)
    {
      if scanOnlyCommonPorts {
        attempted := ScanCommonPorts(cancelAt);
      } else {
        attempted := ScanAllPorts(cancelAt);
      }
    }

    /** The full scan: an address loop around a port loop, each step after a check of the token. */
    method ScanAllPorts(cancelAt: nat) returns (attempted: seq<Target>)
      ensures CutAt(attempted, AddressMajor(ips, FullPorts), |FullPorts|, cancelAt)
    {
      ghost var rows := AddressRows(ips, FullPorts);
      ghost var width := |FullPorts|;
      attempted := [];
      var checks := 0;
      ghost var stopped := false;
      var i := 0;
      while i < |ips|
        invariant i <= |ips|
        invariant !stopped ==> && attempted == Flatten(rows[..i])
                               && checks == |attempted| + i && checks <= cancelAt
                               && forall j :: 0 <= j < |attempted| ==> CheckIndex(j, width) < cancelAt
        invariant stopped ==> CutAt(attempted, Flatten(rows), width, cancelAt) && checks > cancelAt
      {
        var cancelled := checks >= cancelAt;
        checks := checks + 1;
        if cancelled {
          if !stopped {
            OuterStop(rows, width, cancelAt, i, attempted);
            stopped := true;
          }
          break;
        }
        var probed, next := FullRow(ips[i], checks, cancelAt);
        RowStep(rows, width, cancelAt, i, attempted, |probed|);
        attempted := attempted + probed;
        checks := next;
        stopped := |probed| < width;
        i := i + 1;
      }
      if !stopped {
        assert rows[..i] == rows;
      }
    }

    /**
     * The port loop of the full scan for one address, its first check
     * numbered `first`: ports from 1 up, until a check sees the token
     * cancelled or port 65535 is reached. `next` numbers the check after it.
     */
    method FullRow(ip: IPRanges.IPAddress, first: nat, cancelAt: nat) returns (probed: seq<Target>, next: nat)
      ensures probed == AddressRow(ip, FullPorts)[..if cancelAt <= first then 0 else Min(|FullPorts|, cancelAt - first)]
      ensures next == first + |probed| + (if |probed| < |FullPorts| then 1 else 0)
    {
      probed := [];
      next := first;
      var port := MinPort;
      while port < MaxPort
        invariant MinPort <= port <= MaxPort && next == first + (port - MinPort)
        invariant port > MinPort ==> next <= cancelAt
        invariant probed == AddressRow(ip, FullPorts)[..port - MinPort]
      {
        var cancelled := next >= cancelAt;
        next := next + 1;
        if cancelled {
          break;
        }
        assert AddressRow(ip, FullPorts)[..port + 1 - MinPort] == probed + [Target(ip, port)];
        probed := probed + [Target(ip, port)];
        port := port + 1;
      }
    }

    /**
     * The quick scan: two Parallel.ForEach loops, here run in list order. A
     * cancelled check calls `state.Break()`, which stops later iterations
     * but lets the current one finish.
     */
    method ScanCommonPorts(cancelAt: nat) returns (attempted: seq<Target>)
      ensures attempted == QuickCut(AddressRows(ips, ports), |ports|, cancelAt)
    {
      ghost var rows := AddressRows(ips, ports);
      ghost var width := |ports|;
      ghost var goal := QuickCut(rows, width, cancelAt);
      attempted := [];
      var checks := 0;
      ghost var pending := false;
      var i := 0;
      while i < |ips|
        invariant i <= |ips|
        invariant !pending ==> attempted == Flatten(rows[..i]) && checks == |attempted| + i && checks <= cancelAt
        invariant pending ==> attempted + Lead(rows, i) == goal && checks > cancelAt
      {
        var outerCancelled := checks >= cancelAt;
        checks := checks + 1;
        var probed := QuickRow(ips[i], checks, cancelAt);
        ghost var k := cancelAt - checks;
        if outerCancelled {
          if !pending {
            OuterCut(rows, width, i);
          }
          assert probed == [rows[i][0]];
        } else {
          QuickRowStep(rows, width, cancelAt, i, attempted, probed);
        }
        attempted := attempted + probed;
        checks := checks + |probed|;
        if outerCancelled {
          break;
        }
        pending := k < width;
        i := i + 1;
      }
      if i == |ips| && !pending {
        assert rows[..i] == rows;
        QuickUncut(rows, width, cancelAt);
      }
    }

    /**
     * The inner Parallel.ForEach of the quick scan, over the common ports of
     * one address, its first check numbered `first`: every port up to and
     * including the first whose check sees the token cancelled.
     */
    method QuickRow(ip: IPRanges.IPAddress, first: nat, cancelAt: nat) returns (probed: seq<Target>)
      ensures probed == AddressRow(ip, ports)[..if cancelAt <= first then 1 else Min(|ports|, cancelAt - first + 1)]
    {
      probed := [];
      var checks := first;
      var k := 0;
      while k < |ports|
        invariant k <= |ports| && checks == first + k
        invariant probed == AddressRow(ip, ports)[..k]
        invariant k > 0 ==> checks - 1 < cancelAt
      {
        var cancelled := checks >= cancelAt;
        checks := checks + 1;
        assert AddressRow(ip, ports)[..k + 1] == probed + [Target(ip, ports[k])];
        probed := probed + [Target(ip, ports[k])];
        if cancelled {
          break;
        }
        k := k + 1;
      }
    }

    /**
     * ScanAsyncOnPorts: nothing for a quick scan; otherwise a loop over the
     * given ports around a loop over the addresses, each step after a check
     * of the token.
     */
    method ScanAsyncOnPorts(scanOnlyCommonPorts: bool, cancelAt: nat, portList: seq<int>) returns (attempted: seq<Target>)
      ensures scanOnlyCommonPorts ==> attempted == []
      ensures !scanOnlyCommonPorts && |ips| >= 1 ==> CutAt(attempted, PortMajor(portList, ips), |ips|, cancelAt)
      ensures !scanOnlyCommonPorts && |ips| == 0 ==> attempted == []
    {
      attempted := [];
      if scanOnlyCommonPorts {
        return;
      }
      ghost var rows := PortRows(portList, ips);
      ghost var width := |ips|;
      var checks := 0;
      ghost var stopped := false;
      var p := 0;
      while p < |portList|
        invariant p <= |portList|
        invariant !stopped ==> && attempted == Flatten(rows[..p])
                               && checks == |attempted| + p && checks <= cancelAt
                               && (width >= 1 ==> forall j :: 0 <= j < |attempted| ==> CheckIndex(j, width) < cancelAt)
        invariant stopped ==> width >= 1 && CutAt(attempted, Flatten(rows), width, cancelAt) && checks > cancelAt
      {
        var cancelled := checks >= cancelAt;
        checks := checks + 1;
        if cancelled {
          if !stopped && width >= 1 {
            OuterStop(rows, width, cancelAt, p, attempted);
            stopped := true;
          }
          break;
        }
        var probed, next := PortColumn(portList[p], checks, cancelAt);
        if width >= 1 {
          RowStep(rows, width, cancelAt, p, attempted, |probed|);
        } else {
          FlattenStep(rows, p);
        }
        attempted := attempted + probed;
        checks := next;
        stopped := |probed| < width;
        p := p + 1;
      }
      if !stopped {
        FlattenLength(rows[..p], width);
        if p == |portList| {
          assert rows[..p] == rows;
        }
      }
    }

    /**
     * The address loop of ScanAsyncOnPorts for one port, its first check
     * numbered `first`: addresses in order until a check sees the token
     * cancelled. `next` numbers the check after it.
     */
    method PortColumn(port: int, first: nat, cancelAt: nat) returns (probed: seq<Target>, next: nat)
      ensures probed == PortRow(port, ips)[..if cancelAt <= first then 0 else Min(|ips|, cancelAt - first)]
      ensures next == first + |probed| + (if |probed| < |ips| then 1 else 0)
    {
      probed := [];
      next := first;
      var k := 0;
      while k < |ips|
        invariant k <= |ips| && next == first + k
        invariant k > 0 ==> next <= cancelAt
        invariant probed == PortRow(port, ips)[..k]
      {
        var cancelled := next >= cancelAt;
        next := next + 1;
        if cancelled {
          break;
        }
        assert PortRow(port, ips)[..k + 1] == probed + [Target(ips[k], port)];
        probed := probed + [Target(ips[k], port)];
        k := k + 1;
      }
    }
  }
}
