/**
 * ScannerExecutor: how the addresses of a scan are cut into chunks, which
 * scanning job each chunk goes to, and the list of jobs the executor keeps.
 *
 * A job stands for the Task that runs one Scanner: which addresses it holds,
 * whether the scan is quick, and (in port mode) which ports it walks. The
 * shared CancellationTokenSource is the `cancelled` flag.
 */
module Executors {
  import opened Wrappers
  import opened Exceptions
  import opened Words
  import opened Seqs
  import IPRanges
  import Scanners

  /* ------------------------------------------------------------- chunks */

  /**
   * SplitIPChunks / SplitPortChunks as a value: chunks of `size` items in
   * order and a shorter last one. A size of 0 is never reached by a chunk's
   * count, so the whole source is one chunk.
   */
  function Chunks<T(==)>(source: seq<T>, size: nat): seq<seq<T>>
    decreases |source|
  {
    if |source| == 0 then []
    else if size == 0 || |source| <= size then [source]
    else [source[..size]] + Chunks(source[size..], size)
  }

  /**
   * What a chunking of `source` by `size` is: its chunks read back as the
   * source, none is empty, and with size >= 1 each holds at most `size`
   * items and every one but the last exactly `size`; with size 0 there is
   * at most one chunk.
   */
  ghost predicate ChunkedBy<T>(chunks: seq<seq<T>>, source: seq<T>, size: nat) {
    && Flatten(chunks) == source
    && (forall c :: 0 <= c < |chunks| ==> 1 <= |chunks[c]|)
    && (size == 0 ==> |chunks| <= 1)
    && (size >= 1 ==> forall c :: 0 <= c < |chunks| ==> |chunks[c]| <= size)
    && (size >= 1 ==> forall c :: 0 <= c < |chunks| - 1 ==> |chunks[c]| == size)
  }

  /** The chunks Chunks builds are a chunking of the source. */
  lemma {:induction false} ChunksChunked<T>(source: seq<T>, size: nat)
    ensures ChunkedBy(Chunks(source, size), source, size)
    decreases |source|
  {
    if source == [] {
    } else if size == 0 || |source| <= size {
      assert [source][..0] == [];
    } else {
      ChunksChunked(source[size..], size);
      ChunkedCons(source[..size], Chunks(source[size..], size), source[size..], size);
      assert source[..size] + source[size..] == source;
    }
  }

  /** A full chunk in front of a chunking of the rest is a chunking of the whole. */
  lemma ChunkedCons<T>(head: seq<T>, rest: seq<seq<T>>, tail: seq<T>, size: nat)
    requires |head| == size >= 1 && ChunkedBy(rest, tail, size)
    ensures ChunkedBy([head] + rest, head + tail, size)
  {
    FlattenAppend([head], rest);
    assert [head][..0] == [];
    var chunks := [head] + rest;
    forall c | 1 <= c < |chunks|
      ensures chunks[c] == rest[c - 1]
    {
    }
  }

  /** A chunking by size >= 1 has ceil(|source| / size) chunks. */
  lemma ChunkCount<T>(chunks: seq<seq<T>>, source: seq<T>, size: nat)
    requires size >= 1 && ChunkedBy(chunks, source, size)
    ensures |chunks| == (|source| + size - 1) / size
  {
    var n := |chunks|;
    if n == 0 {
      DivUnique(size - 1, size, 0, size - 1);
    } else {
      var init := chunks[..n - 1];
      FlattenLength(init, size);
      FlattenStep(chunks, n - 1);
      assert chunks[..n] == chunks;
      var last := |chunks[n - 1]|;
      MulAddLeft(n - 1, 1, size);
      DivUnique(|source| + size - 1, size, n, last - 1);
    }
  }

  /** Chunk c of a chunking by size >= 1 is the stretch of the source from c * size, at most `size` long. */
  lemma ChunkAt<T>(chunks: seq<seq<T>>, source: seq<T>, size: nat, c: nat)
    requires size >= 1 && ChunkedBy(chunks, source, size) && c < |chunks|
    ensures c * size <= |source|
    ensures chunks[c] == source[c * size..Scanners.Min(|source|, (c + 1) * size)]
  {
    FlattenLength(chunks[..c], size);
    FlattenPrefix(chunks, c, |chunks[c]|);
    assert chunks[c][..|chunks[c]|] == chunks[c];
    MulAddLeft(c, 1, size);
    if c == |chunks| - 1 {
      FlattenStep(chunks, c);
      assert chunks[..c + 1] == chunks;
    }
  }

  /** A chunking is determined by its source and size. */
  lemma ChunkedUnique<T>(a: seq<seq<T>>, b: seq<seq<T>>, source: seq<T>, size: nat)
    requires ChunkedBy(a, source, size) && ChunkedBy(b, source, size)
    ensures a == b
  {
    if size == 0 {
      if |a| == 1 {
        assert a[..0] == [] && Flatten(a) == a[0];
      }
      if |b| == 1 {
        assert b[..0] == [] && Flatten(b) == b[0];
      }
    } else {
      ChunkCount(a, source, size);
      ChunkCount(b, source, size);
      forall c | 0 <= c < |a|
        ensures a[c] == b[c]
      {
        ChunkAt(a, source, size, c);
        ChunkAt(b, source, size, c);
      }
    }
  }

  /** So Chunks is the one chunking of a source by a size. */
  lemma ChunkedIsChunks<T>(chunks: seq<seq<T>>, source: seq<T>, size: nat)
    requires ChunkedBy(chunks, source, size)
    ensures chunks == Chunks(source, size)
  {
    ChunksChunked(source, size);
    ChunkedUnique(chunks, Chunks(source, size), source, size);
  }

  /**
   * SplitIPChunks and SplitPortChunks (the same code over two item types):
   * items go into the current list, which is handed on when it reaches
   * `size` items; what remains at the end is handed on if not empty.
   */
  method SplitChunks<T(==)>(source: seq<T>, size: nat) returns (chunks: seq<seq<T>>)
    ensures chunks == Chunks(source, size)
  {
    chunks := [];
    var toReturn: seq<T> := [];
    for i := 0 to |source|
      invariant Flatten(chunks) + toReturn == source[..i]
      invariant forall c :: 0 <= c < |chunks| ==> 1 <= |chunks[c]| == size
      invariant size >= 1 ==> |toReturn| < size
    {
      ChunkStep(chunks, toReturn, source, i);
      toReturn := toReturn + [source[i]];
      if |toReturn| != size {
        continue;
      }
      FlattenSnoc(chunks, toReturn);
      chunks := chunks + [toReturn];
      toReturn := [];
    }
    SplitDone(chunks, toReturn, source, size);
    if |toReturn| > 0 {
      chunks := chunks + [toReturn];
    }
    ChunkedIsChunks(chunks, source, size);
  }

  /** One more item read is one more item in the current list. */
  lemma ChunkStep<T>(chunks: seq<seq<T>>, toReturn: seq<T>, source: seq<T>, i: nat)
    requires i < |source| && Flatten(chunks) + toReturn == source[..i]
    ensures Flatten(chunks) + (toReturn + [source[i]]) == source[..i + 1]
  {
    assert source[..i + 1] == source[..i] + [source[i]];
  }

  /** At the end, the full chunks and the non-empty remainder are a chunking of the source. */
  lemma SplitDone<T>(chunks: seq<seq<T>>, toReturn: seq<T>, source: seq<T>, size: nat)
    requires Flatten(chunks) + toReturn == source[..|source|]
    requires forall c :: 0 <= c < |chunks| ==> 1 <= |chunks[c]| == size
    requires size >= 1 ==> |toReturn| < size
    ensures ChunkedBy(if |toReturn| > 0 then chunks + [toReturn] else chunks, source, size)
  {
    assert source[..|source|] == source;
    if |toReturn| > 0 {
      FlattenSnoc(chunks, toReturn);
    }
  }

  /* --------------------------------------------------------------- jobs */

  /** The port list of a full scan in port mode: Enumerable.Range(1, 65535). */
  const AllPorts: seq<int> := Range(1, 65535)

  /**
   * The task that runs one Scanner: ScanAsync over a chunk of addresses, or
   * ScanAsyncOnPorts over all the addresses and a chunk of ports.
   */
  datatype Job =
    | AddressJob(ips: seq<IPRanges.IPAddress>, quick: bool)
    | PortJob(ips: seq<IPRanges.IPAddress>, quick: bool, ports: seq<int>)

  /** The ports a port-mode plan splits: the common ports for a quick scan, else 1 to 65535. */
  function PortSpace(quick: bool): seq<int> {
    if quick then Scanners.CommonPorts else AllPorts
  }

  function AddressJobs(chunks: seq<seq<IPRanges.IPAddress>>, quick: bool): (jobs: seq<Job>)
    ensures |jobs| == |chunks|
    ensures forall j :: 0 <= j < |jobs| ==> jobs[j] == AddressJob(chunks[j], quick)
  {
    seq(|chunks|, j requires 0 <= j < |chunks| => AddressJob(chunks[j], quick))
  }

  function PortJobs(ips: seq<IPRanges.IPAddress>, quick: bool, chunks: seq<seq<int>>): (jobs: seq<Job>)
    ensures |jobs| == |chunks|
    ensures forall j :: 0 <= j < |jobs| ==> jobs[j] == PortJob(ips, quick, chunks[j])
  {
    seq(|chunks|, j requires 0 <= j < |chunks| => PortJob(ips, quick, chunks[j]))
  }

  /** The port chunk size: the port count over numberOfTasks / ipCount port tasks, raised to 1 when 0. */
  function PortChunkSize(ipCount: nat, numberOfTasks: nat, quick: bool): (size: nat)
    requires 1 <= ipCount <= numberOfTasks
    ensures size >= 1
  {
    if |PortSpace(quick)| / (numberOfTasks / ipCount) == 0 then 1 else |PortSpace(quick)| / (numberOfTasks / ipCount)
  }

  /**
   * BuildExecutor's plan as a value: address mode when there are more
   * addresses than tasks, with chunks of ipCount / numberOfTasks addresses;
   * otherwise port mode, with numberOfTasks / ipCount port tasks and chunks
   * of |ports| / portTasks ports (at least one). Either division by zero
   * raises DivideByZeroException before any job starts.
   */
  function Plan(addresses: seq<IPRanges.IPAddress>, numberOfTasks: nat, quick: bool): Result<seq<Job>, Exception> {
    if |addresses| > numberOfTasks then
      if numberOfTasks == 0 then Failure(DivideByZeroException)
      else Success(AddressJobs(Chunks(addresses, |addresses| / numberOfTasks), quick))
    else if |addresses| == 0 then Failure(DivideByZeroException)
    else Success(PortJobs(addresses, quick, Chunks(PortSpace(quick), PortChunkSize(|addresses|, numberOfTasks, quick))))
  }

  /** The plan fails exactly when there are no addresses or no tasks, and then by dividing by zero. */
  lemma PlanFails(addresses: seq<IPRanges.IPAddress>, numberOfTasks: nat, quick: bool)
    ensures Plan(addresses, numberOfTasks, quick).Failure? <==> |addresses| == 0 || numberOfTasks == 0
    ensures Plan(addresses, numberOfTasks, quick).Failure? ==>
              Plan(addresses, numberOfTasks, quick).error == DivideByZeroException
  {
  }

  /**
   * Address mode: one job per chunk of ipCount / numberOfTasks addresses,
   * so ceil(ipCount / chunkSize) jobs, each holding at most chunkSize
   * addresses, and the chunks read back as the address list.
   */
  lemma AddressModePlan(addresses: seq<IPRanges.IPAddress>, numberOfTasks: nat, quick: bool)
    requires |addresses| > numberOfTasks >= 1
    ensures |addresses| / numberOfTasks >= 1 && Plan(addresses, numberOfTasks, quick).Success?
    ensures var jobs, size := Plan(addresses, numberOfTasks, quick).value, |addresses| / numberOfTasks;
      && |jobs| == (|addresses| + size - 1) / size
      && forall j :: 0 <= j < |jobs| ==> jobs[j].AddressJob? && jobs[j].quick == quick && 1 <= |jobs[j].ips| <= size
  {
    var size := |addresses| / numberOfTasks;
    Scanners.DivMonotone(numberOfTasks, |addresses|, numberOfTasks);
    ChunksChunked(addresses, size);
    ChunkCount(Chunks(addresses, size), addresses, size);
  }

  /**
   * The job count is not bounded by the task count: five addresses over
   * three tasks make chunks of one address and five jobs.
   */
  lemma MoreJobsThanTasks(addresses: seq<IPRanges.IPAddress>, quick: bool)
    requires |addresses| == 5
    ensures Plan(addresses, 3, quick).Success? && |Plan(addresses, 3, quick).value| == 5
  {
    AddressModePlan(addresses, 3, quick);
  }

  /** The port chunk of each port job. */
  function PortsOf(jobs: seq<Job>): (chunks: seq<seq<int>>)
    requires forall j :: 0 <= j < |jobs| ==> jobs[j].PortJob?
    ensures |chunks| == |jobs| && forall j :: 0 <= j < |jobs| ==> chunks[j] == jobs[j].ports
  {
    seq(|jobs|, j requires 0 <= j < |jobs| => jobs[j].ports)
  }

  /**
   * Port mode: every job holds all the addresses and a chunk of the port
   * space, and the chunks read back as the port space.
   */
  lemma PortModePlan(addresses: seq<IPRanges.IPAddress>, numberOfTasks: nat, quick: bool)
    requires 1 <= |addresses| <= numberOfTasks
    ensures Plan(addresses, numberOfTasks, quick).Success?
    ensures var jobs := Plan(addresses, numberOfTasks, quick).value;
      && (forall j :: 0 <= j < |jobs| ==> jobs[j].PortJob? && jobs[j].ips == addresses && jobs[j].quick == quick)
      && Flatten(PortsOf(jobs)) == PortSpace(quick)
  {
    var space, size := PortSpace(quick), PortChunkSize(|addresses|, numberOfTasks, quick);
    var chunks := Chunks(space, size);
    assert Plan(addresses, numberOfTasks, quick) == Success(PortJobs(addresses, quick, chunks));
    ChunksChunked(space, size);
    assert PortsOf(PortJobs(addresses, quick, chunks)) == chunks;
  }

  /* ----------------------------------------------------------- coverage */

  /** The ports ScanAsync walks for each address: the common ports, or MinPort up to (not including) MaxPort. */
  function ScannerPorts(quick: bool): seq<int> {
    if quick then Scanners.CommonPorts else Scanners.FullPorts
  }

  /** The pairs a job's scanner hands on when the token is never cancelled. */
  function JobTargets(job: Job): seq<Scanners.Target> {
    match job
    case AddressJob(ips, quick) =>
      Scanners.AddressMajor(ips, ScannerPorts(quick))
    case PortJob(ips, quick, ports) =>
      if quick then [] else Scanners.PortMajor(ports, ips)
  }

  /** The pairs of all the jobs, one job after another. */
  function TargetsOf(jobs: seq<Job>): seq<Scanners.Target> {
    if jobs == [] then [] else TargetsOf(jobs[..|jobs| - 1]) + JobTargets(jobs[|jobs| - 1])
  }

  lemma AddressMajorAppend(a: seq<IPRanges.IPAddress>, b: seq<IPRanges.IPAddress>, ports: seq<int>)
    ensures Scanners.AddressMajor(a + b, ports) == Scanners.AddressMajor(a, ports) + Scanners.AddressMajor(b, ports)
  {
    assert Scanners.AddressRows(a + b, ports) == Scanners.AddressRows(a, ports) + Scanners.AddressRows(b, ports);
    FlattenAppend(Scanners.AddressRows(a, ports), Scanners.AddressRows(b, ports));
  }

  lemma PortMajorAppend(a: seq<int>, b: seq<int>, ips: seq<IPRanges.IPAddress>)
    ensures Scanners.PortMajor(a + b, ips) == Scanners.PortMajor(a, ips) + Scanners.PortMajor(b, ips)
  {
    assert Scanners.PortRows(a + b, ips) == Scanners.PortRows(a, ips) + Scanners.PortRows(b, ips);
    FlattenAppend(Scanners.PortRows(a, ips), Scanners.PortRows(b, ips));
  }

  /** Address jobs over chunks together walk the grid of all the chunks' addresses. */
  lemma {:induction false} AddressJobsCover(chunks: seq<seq<IPRanges.IPAddress>>, quick: bool)
    ensures TargetsOf(AddressJobs(chunks, quick))
         == Scanners.AddressMajor(Flatten(chunks), ScannerPorts(quick))
  {
    var ports := ScannerPorts(quick);
    if chunks == [] {
      assert Scanners.AddressRows([], ports) == [];
    } else {
      var n := |chunks|;
      var init, last := chunks[..n - 1], chunks[n - 1];
      AddressJobsCover(init, quick);
      AddressJobsSnoc(chunks, quick);
      assert Scanners.AddressMajor(Flatten(chunks), ports)
          == Scanners.AddressMajor(Flatten(init), ports) + Scanners.AddressMajor(last, ports) by {
        AddressMajorAppend(Flatten(init), last, ports);
      }
    }
  }

  /** The last address job adds the targets of its own chunk after those of the others. */
  lemma AddressJobsSnoc(chunks: seq<seq<IPRanges.IPAddress>>, quick: bool)
    requires chunks != []
    ensures TargetsOf(AddressJobs(chunks, quick))
         == TargetsOf(AddressJobs(chunks[..|chunks| - 1], quick)) + Scanners.AddressMajor(chunks[|chunks| - 1], ScannerPorts(quick))
  {
    assert AddressJobs(chunks, quick)[..|chunks| - 1] == AddressJobs(chunks[..|chunks| - 1], quick);
  }

  /** Port jobs over chunks of ports together walk the port-major grid of all the ports, unless the scan is quick. */
  lemma {:induction false} PortJobsCover(ips: seq<IPRanges.IPAddress>, quick: bool, chunks: seq<seq<int>>)
    ensures TargetsOf(PortJobs(ips, quick, chunks)) == if quick then [] else Scanners.PortMajor(Flatten(chunks), ips)
  {
    if chunks == [] {
      assert Scanners.PortRows([], ips) == [];
    } else {
      var n := |chunks|;
      PortJobsCover(ips, quick, chunks[..n - 1]);
      assert PortJobs(ips, quick, chunks)[..n - 1] == PortJobs(ips, quick, chunks[..n - 1]);
      PortMajorAppend(Flatten(chunks[..n - 1]), chunks[n - 1], ips);
    }
  }

  /** In address mode the jobs walk every address with the scanner's ports. */
  lemma AddressPlanCovers(addresses: seq<IPRanges.IPAddress>, numberOfTasks: nat, quick: bool)
    requires |addresses| > numberOfTasks >= 1
    ensures Plan(addresses, numberOfTasks, quick).Success?
    ensures TargetsOf(Plan(addresses, numberOfTasks, quick).value) == Scanners.AddressMajor(addresses, ScannerPorts(quick))
  {
    var size := |addresses| / numberOfTasks;
    var chunks := Chunks(addresses, size);
    assert Plan(addresses, numberOfTasks, quick) == Success(AddressJobs(chunks, quick));
    ChunksChunked(addresses, size);
    AddressJobsCover(chunks, quick);
  }

  /** In port mode the jobs walk every port of 1 to 65535 with every address, or nothing for a quick scan. */
  lemma PortPlanCovers(addresses: seq<IPRanges.IPAddress>, numberOfTasks: nat, quick: bool)
    requires 1 <= |addresses| <= numberOfTasks
    ensures Plan(addresses, numberOfTasks, quick).Success?
    ensures TargetsOf(Plan(addresses, numberOfTasks, quick).value) == if quick then [] else Scanners.PortMajor(AllPorts, addresses)
  {
    var space, size := PortSpace(quick), PortChunkSize(|addresses|, numberOfTasks, quick);
    var chunks := Chunks(space, size);
    assert Plan(addresses, numberOfTasks, quick) == Success(PortJobs(addresses, quick, chunks));
    ChunksChunked(space, size);
    PortJobsCover(addresses, quick, chunks);
  }

  /**
   * All the jobs of a plan together walk every address with every port of
   * the mode: in address mode the scanner's ports (1 to 65534, or the common
   * ones); in port mode 1 to 65535, or nothing for a quick scan, whose
   * ScanAsyncOnPorts does nothing.
   */
  lemma PlanCovers(addresses: seq<IPRanges.IPAddress>, numberOfTasks: nat, quick: bool)
    requires Plan(addresses, numberOfTasks, quick).Success?
    ensures TargetsOf(Plan(addresses, numberOfTasks, quick).value) ==
      if |addresses| > numberOfTasks then Scanners.AddressMajor(addresses, ScannerPorts(quick))
      else if quick then []
      else Scanners.PortMajor(AllPorts, addresses)
  {
    if |addresses| > numberOfTasks {
      AddressPlanCovers(addresses, numberOfTasks, quick);
    } else {
      PortPlanCovers(addresses, numberOfTasks, quick);
    }
  }

  /**
   * A quick scan tries no pair unless there are more addresses than tasks:
   * with one address the plan is in port mode, or divides by zero when there
   * are no tasks.
   */
  lemma QuickScanNeedsAddressMode(addresses: seq<IPRanges.IPAddress>, numberOfTasks: nat)
    requires |addresses| == 1 || 1 <= |addresses| <= numberOfTasks
    ensures Plan(addresses, numberOfTasks, true).Failure? <==> numberOfTasks == 0
    ensures Plan(addresses, numberOfTasks, true).Success? ==> TargetsOf(Plan(addresses, numberOfTasks, true).value) == []
  {
    PlanFails(addresses, numberOfTasks, true);
    if numberOfTasks >= 1 {
      PortPlanCovers(addresses, numberOfTasks, true);
    }
  }

  /** The two modes disagree on port 65535: a full scan in port mode tries it, one in address mode never does. */
  lemma LastPortOnlyInPortMode(addresses: seq<IPRanges.IPAddress>, numberOfTasks: nat, ip: IPRanges.IPAddress)
    requires Plan(addresses, numberOfTasks, false).Success? && ip in addresses
    ensures Scanners.Target(ip, 65535) in TargetsOf(Plan(addresses, numberOfTasks, false).value)
        <==> |addresses| <= numberOfTasks
  {
    PlanCovers(addresses, numberOfTasks, false);
    Scanners.FullScanPorts(addresses, Scanners.Target(ip, 65535));
    Scanners.PortMajorMembers(AllPorts, addresses, Scanners.Target(ip, 65535));
    assert AllPorts[65534] == 65535;
  }

  /** No item occurs twice. */
  predicate Distinct<T(==)>(s: seq<T>) {
    forall i, j :: 0 <= i < j < |s| ==> s[i] != s[j]
  }

  lemma DistinctAppend<T>(a: seq<T>, b: seq<T>)
    requires Distinct(a) && Distinct(b) && forall x :: x in a ==> x !in b
    ensures Distinct(a + b)
  {
    forall i, j | 0 <= i < j < |a + b|
      ensures (a + b)[i] != (a + b)[j]
    {
      if i < |a| && j >= |a| {
        assert (a + b)[i] in a && (a + b)[j] in b;
      }
    }
  }

  /** The last item of a list with no repeats is not among the others. */
  lemma DistinctLast<T>(s: seq<T>)
    requires Distinct(s) && |s| >= 1
    ensures Distinct(s[..|s| - 1]) && s[|s| - 1] !in s[..|s| - 1]
  {
    var init := s[..|s| - 1];
    forall k | 0 <= k < |init|
      ensures init[k] != s[|s| - 1]
    {
      assert init[k] == s[k];
    }
  }

  /** One address with ports listed once gives no pair twice. */
  lemma AddressRowDistinct(ip: IPRanges.IPAddress, ports: seq<int>)
    requires Distinct(ports)
    ensures Distinct(Scanners.AddressRow(ip, ports))
  {
    var row := Scanners.AddressRow(ip, ports);
    forall i, j | 0 <= i < j < |row|
      ensures row[i] != row[j]
    {
      assert row[i].port == ports[i] && row[j].port == ports[j];
    }
  }

  /** One port with addresses listed once gives no pair twice. */
  lemma PortRowDistinct(port: int, ips: seq<IPRanges.IPAddress>)
    requires Distinct(ips)
    ensures Distinct(Scanners.PortRow(port, ips))
  {
    var row := Scanners.PortRow(port, ips);
    forall i, j | 0 <= i < j < |row|
      ensures row[i] != row[j]
    {
      assert row[i].address == ips[i] && row[j].address == ips[j];
    }
  }

  /** The grid of some addresses shares no pair with the row of an address not among them. */
  lemma AddressRowApart(ips: seq<IPRanges.IPAddress>, ip: IPRanges.IPAddress, ports: seq<int>)
    requires ip !in ips
    ensures forall t :: t in Scanners.AddressMajor(ips, ports) ==> t !in Scanners.AddressRow(ip, ports)
  {
    var row := Scanners.AddressRow(ip, ports);
    forall t | t in Scanners.AddressMajor(ips, ports)
      ensures t !in row
    {
      Scanners.AddressMajorMembers(ips, ports, t);
      forall k | 0 <= k < |row|
        ensures row[k] != t
      {
        assert row[k].address == ip;
      }
    }
  }

  /** The grid of some ports shares no pair with the row of a port not among them. */
  lemma PortRowApart(ports: seq<int>, port: int, ips: seq<IPRanges.IPAddress>)
    requires port !in ports
    ensures forall t :: t in Scanners.PortMajor(ports, ips) ==> t !in Scanners.PortRow(port, ips)
  {
    var row := Scanners.PortRow(port, ips);
    forall t | t in Scanners.PortMajor(ports, ips)
      ensures t !in row
    {
      Scanners.PortMajorMembers(ports, ips, t);
      forall k | 0 <= k < |row|
        ensures row[k] != t
      {
        assert row[k].port == port;
      }
    }
  }

  /** The grid of one address is its row. */
  lemma AddressMajorSingle(ip: IPRanges.IPAddress, ports: seq<int>)
    ensures Scanners.AddressMajor([ip], ports) == Scanners.AddressRow(ip, ports)
  {
    assert Scanners.AddressRows([ip], ports) == [] + [Scanners.AddressRow(ip, ports)];
    FlattenSnoc([], Scanners.AddressRow(ip, ports));
  }

  /** The grid of one port is its row. */
  lemma PortMajorSingle(port: int, ips: seq<IPRanges.IPAddress>)
    ensures Scanners.PortMajor([port], ips) == Scanners.PortRow(port, ips)
  {
    assert Scanners.PortRows([port], ips) == [] + [Scanners.PortRow(port, ips)];
    FlattenSnoc([], Scanners.PortRow(port, ips));
  }

  /** With no address and no port listed twice, the address-major grid holds no pair twice. */
  lemma {:induction false} AddressMajorDistinct(ips: seq<IPRanges.IPAddress>, ports: seq<int>)
    requires Distinct(ips) && Distinct(ports)
    ensures Distinct(Scanners.AddressMajor(ips, ports))
  {
    if ips == [] {
      assert Scanners.AddressRows(ips, ports) == [];
    } else {
      var init, last := ips[..|ips| - 1], ips[|ips| - 1];
      DistinctLast(ips);
      AddressMajorDistinct(init, ports);
      assert ips == init + [last];
      AddressMajorAppend(init, [last], ports);
      AddressMajorSingle(last, ports);
      AddressRowDistinct(last, ports);
      AddressRowApart(init, last, ports);
      DistinctAppend(Scanners.AddressMajor(init, ports), Scanners.AddressRow(last, ports));
    }
  }

  /** With no address and no port listed twice, the port-major grid holds no pair twice. */
  lemma {:induction false} PortMajorDistinct(ports: seq<int>, ips: seq<IPRanges.IPAddress>)
    requires Distinct(ips) && Distinct(ports)
    ensures Distinct(Scanners.PortMajor(ports, ips))
  {
    if ports == [] {
      assert Scanners.PortRows(ports, ips) == [];
    } else {
      var init, last := ports[..|ports| - 1], ports[|ports| - 1];
      DistinctLast(ports);
      PortMajorDistinct(init, ips);
      assert ports == init + [last];
      PortMajorAppend(init, [last], ips);
      PortMajorSingle(last, ips);
      PortRowDistinct(last, ips);
      PortRowApart(init, last, ips);
      DistinctAppend(Scanners.PortMajor(init, ips), Scanners.PortRow(last, ips));
    }
  }

  /**
   * With distinct addresses, the jobs of a plan for a full scan try every
   * pair of the mode exactly once: each pair they try is a listed address
   * with a port of the mode, every such pair is tried, and none twice.
   */
  lemma PlanTriesEachPairOnce(addresses: seq<IPRanges.IPAddress>, numberOfTasks: nat, t: Scanners.Target)
    requires Plan(addresses, numberOfTasks, false).Success? && Distinct(addresses)
    ensures Distinct(TargetsOf(Plan(addresses, numberOfTasks, false).value))
    ensures t in TargetsOf(Plan(addresses, numberOfTasks, false).value) <==>
      && t.address in addresses
      && 1 <= t.port && t.port < (if |addresses| > numberOfTasks then 65535 else 65536)
  {
    PlanCovers(addresses, numberOfTasks, false);
    if |addresses| > numberOfTasks {
      assert Distinct(Scanners.FullPorts);
      AddressMajorDistinct(addresses, Scanners.FullPorts);
      Scanners.FullScanPorts(addresses, t);
    } else {
      assert Distinct(AllPorts);
      PortMajorDistinct(AllPorts, addresses);
      Scanners.PortMajorMembers(AllPorts, addresses, t);
      if 1 <= t.port <= 65535 {
        assert AllPorts[t.port - 1] == t.port;
      }
    }
  }

  /* ------------------------------------------------------------- tasks */

  /** The tasks started for a plan's jobs, none of them null. */
  function Started(jobs: seq<Job>): (tasks: seq<Option<Job>>)
    ensures |tasks| == |jobs|
    ensures forall j :: 0 <= j < |jobs| ==> tasks[j] == Some(jobs[j])
  {
    seq(|jobs|, j requires 0 <= j < |jobs| => Some(jobs[j]))
  }

  /** Starting one more job adds its task at the end. */
  lemma StartedSnoc(jobs: seq<Job>, job: Job)
    ensures Started(jobs + [job]) == Started(jobs) + [Some(job)]
  {
  }

  /** RemoveAll(task => task == null) as a value: the non-null tasks, in order. */
  function NonNull(tasks: seq<Option<Job>>): seq<Option<Job>> {
    if tasks == [] then []
    else NonNull(tasks[..|tasks| - 1]) + (if tasks[|tasks| - 1].Some? then [tasks[|tasks| - 1]] else [])
  }

  /** Removing the null tasks keeps exactly the others. */
  lemma {:induction false} NonNullMembers(tasks: seq<Option<Job>>, t: Option<Job>)
    ensures t in NonNull(tasks) <==> t in tasks && t.Some?
  {
    if tasks != [] {
      var init := tasks[..|tasks| - 1];
      NonNullMembers(init, t);
      assert tasks == init + [tasks[|tasks| - 1]];
    }
  }

  /** Removing the null tasks of two lists in turn is removing them from the joined list: order is kept. */
  lemma {:induction false} NonNullAppend(a: seq<Option<Job>>, b: seq<Option<Job>>)
    ensures NonNull(a + b) == NonNull(a) + NonNull(b)
    decreases |b|
  {
    if b == [] {
      assert a + b == a;
    } else {
      var init := b[..|b| - 1];
      NonNullAppend(a, init);
      assert (a + b)[..|a + b| - 1] == a + init;
    }
  }

  /** A list with no null task is left as it is; so removing twice is removing once. */
  lemma {:induction false} NonNullKeepsStarted(tasks: seq<Option<Job>>)
    requires forall j :: 0 <= j < |tasks| ==> tasks[j].Some?
    ensures NonNull(tasks) == tasks
  {
    if tasks != [] {
      NonNullKeepsStarted(tasks[..|tasks| - 1]);
    }
  }

  lemma {:induction false} NonNullIdempotent(tasks: seq<Option<Job>>)
    ensures NonNull(NonNull(tasks)) == NonNull(tasks)
  {
    forall j | 0 <= j < |NonNull(tasks)|
      ensures NonNull(tasks)[j].Some?
    {
      NonNullMembers(tasks, NonNull(tasks)[j]);
    }
    NonNullKeepsStarted(NonNull(tasks));
  }

  /** ScannerExecutor: the task count, the list of running tasks and the shared cancellation source. */
  class ScannerExecutor {
    const numberOfTasks: nat
    var runningTasks: seq<Option<Job>>
    var cancelled: bool

    constructor (numberOfTasks: nat)
      ensures this.numberOfTasks == numberOfTasks && runningTasks == [] && !cancelled
    {
      this.numberOfTasks := numberOfTasks;
      runningTasks := [];
      cancelled := false;
    }

    /** `new ScannerExecutor(n)`: a negative count is refused by `new List<Task>(n)`. */
    static method Create(numberOfTasks: int) returns (r: Result<ScannerExecutor, Exception>)
      ensures numberOfTasks < 0 <==> r.Failure?
      ensures r.Failure? ==> r.error == ArgumentOutOfRangeException
      ensures r.Success? ==> && fresh(r.value) && r.value.numberOfTasks == numberOfTasks
                             && r.value.runningTasks == [] && !r.value.cancelled
    {
      if numberOfTasks < 0 {
        return Failure(ArgumentOutOfRangeException);
      }
      var executor := new ScannerExecutor(numberOfTasks);
      return Success(executor);
    }

    /**
     * The first half of BuildExecutor: address mode when there are more
     * addresses than tasks, else port mode; the chunk size and the chunks
     * are computed as the source does, and each chunk becomes one job.
     */
    static method SplitWork(addresses: seq<IPRanges.IPAddress>, numberOfTasks: nat, quickScan: bool)
      returns (r: Result<seq<Job>, Exception>)
      ensures r == Plan(addresses, numberOfTasks, quickScan)
    {
      var ipCount := |addresses|;
      if ipCount > numberOfTasks {
        if numberOfTasks == 0 {
          return Failure(DivideByZeroException);
        }
        var jobs := SplitAddresses(addresses, numberOfTasks, quickScan);
        return Success(jobs);
      }
      if ipCount == 0 {
        return Failure(DivideByZeroException);
      }
      var jobs := SplitPorts(addresses, numberOfTasks, quickScan);
      return Success(jobs);
    }

    /** Address mode: chunks of ipCount / numberOfTasks addresses, one job each. */
    static method SplitAddresses(addresses: seq<IPRanges.IPAddress>, numberOfTasks: nat, quickScan: bool)
      returns (jobs: seq<Job>)
      requires 1 <= numberOfTasks
      ensures jobs == AddressJobs(Chunks(addresses, |addresses| / numberOfTasks), quickScan)
    {
      var chunkSize := |addresses| / numberOfTasks;
      var chunks := SplitChunks(addresses, chunkSize);
      jobs := AddressJobs(chunks, quickScan);
    }

    /** Port mode: numberOfTasks / ipCount port tasks, chunks of the port space sized to match (at least 1), one job each. */
    static method SplitPorts(addresses: seq<IPRanges.IPAddress>, numberOfTasks: nat, quickScan: bool)
      returns (jobs: seq<Job>)
      requires 1 <= |addresses| <= numberOfTasks
      ensures jobs == PortJobs(addresses, quickScan, Chunks(PortSpace(quickScan), PortChunkSize(|addresses|, numberOfTasks, quickScan)))
    {
      var numberOfPortTasks := numberOfTasks / |addresses|;
      var ports := PortSpace(quickScan);
      var chunkSize := |ports| / numberOfPortTasks;
      chunkSize := if chunkSize == 0 then 1 else chunkSize;
      var chunks := SplitChunks(ports, chunkSize);
      jobs := PortJobs(addresses, quickScan, chunks);
    }

    /** BuildExecutor: splits the work by Plan and starts one task per job, after those already running. */
    method BuildExecutor(addresses: seq<IPRanges.IPAddress>, quickScan: bool) returns (thrown: Option<Exception>)
      modifies this
      ensures cancelled == old(cancelled)
      ensures Plan(addresses, numberOfTasks, quickScan).Failure? ==>
                thrown == Some(Plan(addresses, numberOfTasks, quickScan).error) && runningTasks == old(runningTasks)
      ensures Plan(addresses, numberOfTasks, quickScan).Success? ==>
                thrown == None && runningTasks == old(runningTasks) + Started(Plan(addresses, numberOfTasks, quickScan).value)
    {
      var work := SplitWork(addresses, numberOfTasks, quickScan);
      if work.Failure? {
        return Some(work.error);
      }
      StartJobs(work.value);
      thrown := None;
    }

    /** The loop of BuildExecutor: one task per job, appended in order after those already listed. */
    method StartJobs(jobs: seq<Job>)
      modifies this
      ensures runningTasks == old(runningTasks) + Started(jobs) && cancelled == old(cancelled)
    {
      for i := 0 to |jobs|
        invariant runningTasks == old(runningTasks) + Started(jobs[..i])
        invariant cancelled == old(cancelled)
      {
        assert jobs[..i + 1] == jobs[..i] + [jobs[i]];
        StartedSnoc(jobs[..i], jobs[i]);
        runningTasks := runningTasks + [Some(jobs[i])];
      }
      assert jobs[..|jobs|] == jobs;
    }

    /** StopAllTasks: cancels the shared source; the tasks stay listed, and a second call changes nothing. */
    method StopAllTasks()
      modifies this
      ensures cancelled && runningTasks == old(runningTasks)
    {
      cancelled := true;
    }

    /** GetRunningTasks: removes the null entries in place and returns the list. */
    method GetRunningTasks() returns (tasks: seq<Option<Job>>)
      modifies this
      ensures runningTasks == NonNull(old(runningTasks)) && tasks == runningTasks
      ensures cancelled == old(cancelled)
    {
      var kept: seq<Option<Job>> := [];
      for i := 0 to |runningTasks|
        invariant kept == NonNull(runningTasks[..i])
      {
        assert runningTasks[..i + 1][..i] == runningTasks[..i];
        if runningTasks[i].Some? {
          kept := kept + [runningTasks[i]];
        }
      }
      assert runningTasks[..|runningTasks|] == runningTasks;
      runningTasks := kept;
      tasks := kept;
    }
  }
}
