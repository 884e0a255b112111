/**
 * The driver of skaner_ip.cpp (`main` without its console and socket
 * library set-up): the argument guard, the enumeration of the addresses
 * `base.start` .. `base.end`, the scan of the hosts in batches of at most
 * `numThreads`, and the selection of the hosts found alive.
 */
module Scanner {
  import opened Wrappers
  import opened Decimal
  import opened BaseIpFormat
  import opened PortProbe
  import opened HostScan

  /** The fixed list of ports probed on every host. */
  const CommonPorts: seq<int> :=
    [20, 21, 22, 23, 25, 53, 80, 110, 135, 137, 138, 139, 143, 443, 445,
     993, 995, 1723, 3306, 3389, 5900, 8080]

  /** The port list is ascending without repeats, and every entry is a TCP port number. */
  lemma CommonPortsAscending()
    ensures StrictlyAscending(CommonPorts)
    ensures forall k :: 0 <= k < |CommonPorts| ==> 1 <= CommonPorts[k] <= 65535
  {
    assert forall k :: 0 <= k < |CommonPorts| - 1 ==> CommonPorts[k] < CommonPorts[k + 1];
    NeighboursAscending(CommonPorts);
  }

  /** A list whose neighbours ascend strictly is strictly ascending. */
  lemma {:induction false} NeighboursAscending(s: seq<int>)
    requires forall k :: 0 <= k < |s| - 1 ==> s[k] < s[k + 1]
    ensures StrictlyAscending(s)
    decreases |s|
  {
    if |s| > 1 {
      var t := s[1..];
      NeighboursAscending(t);
      forall i, j | 0 <= i < j < |s| ensures s[i] < s[j] {
        if i == 0 {
          if j > 1 {
            assert t[0] < t[j - 1];
          }
        } else {
          assert t[i - 1] < t[j - 1];
        }
      }
    }
  }

  /** No port is probed twice on a host. */
  lemma CommonPortsRepeatFree()
    ensures forall x :: multiset(CommonPorts)[x] <= 1
  {
    CommonPortsAscending();
    StrictlyAscendingHasNoRepeats(CommonPorts);
  }

  // ---------------------------------------------------------------------
  // The argument guard
  // ---------------------------------------------------------------------

  /** Why a run is refused; each reason has its own message and exit code 1. */
  datatype ConfigError = InvalidBaseFormat | InvalidRange | TooFewThreads | TimeoutTooShort

  /**
   * The checks on the numeric arguments, in the order the program makes
   * them: the host range first, then the thread count, then the timeout.
   */
  function CheckScanArguments(startRange: int, endRange: int, numThreads: int, portTimeoutMs: int)
    : (r: Option<ConfigError>)
    ensures r == Some(InvalidRange) <==> startRange < 1 || endRange > 254 || startRange > endRange
    ensures r == Some(TooFewThreads) <==>
              1 <= startRange <= endRange <= 254 && numThreads < 1
    ensures r == Some(TimeoutTooShort) <==>
              1 <= startRange <= endRange <= 254 && numThreads >= 1 && portTimeoutMs < 10
    ensures r.None? <==>
              1 <= startRange <= endRange <= 254 && numThreads >= 1 && portTimeoutMs >= 10
    ensures r != Some(InvalidBaseFormat)
  {
    if startRange < 1 || endRange > 254 || startRange > endRange then Some(InvalidRange)
    else if numThreads < 1 then Some(TooFewThreads)
    else if portTimeoutMs < 10 then Some(TimeoutTooShort)
    else None
  }

  /** How a run ends: a completed scan (exit code 0) or a refusal (exit code 1). */
  datatype Status = Completed | Rejected(reason: ConfigError)

  /**
   * The outcome the arguments decide: the base prefix is checked first,
   * then the numeric arguments.
   */
  function Admission(baseIp: string, startRange: int, endRange: int, numThreads: int, portTimeoutMs: int)
    : (r: Status)
    ensures r.Completed? <==>
              ValidBaseIp(baseIp) && 1 <= startRange <= endRange <= 254 &&
              numThreads >= 1 && portTimeoutMs >= 10
    ensures !ValidBaseIp(baseIp) ==> r == Rejected(InvalidBaseFormat)
    ensures ValidBaseIp(baseIp) && r.Rejected? ==>
              Some(r.reason) == CheckScanArguments(startRange, endRange, numThreads, portTimeoutMs)
  {
    if !ValidBaseIp(baseIp) then Rejected(InvalidBaseFormat)
    else match CheckScanArguments(startRange, endRange, numThreads, portTimeoutMs)
      case None => Completed
      case Some(e) => Rejected(e)
  }

  /** The process exit code of a run. */
  function ExitCode(s: Status): (code: int)
    ensures code == 0 <==> s.Completed?
    ensures code == 1 <==> s.Rejected?
  {
    match s
    case Completed => 0
    case Rejected(_) => 1
  }

  /** The exit code the arguments decide: 0 exactly when every check passes, and 1 otherwise. */
  lemma ExitCodeOfArguments(baseIp: string, startRange: int, endRange: int, numThreads: int, portTimeoutMs: int)
    ensures ExitCode(Admission(baseIp, startRange, endRange, numThreads, portTimeoutMs)) == 0 <==>
              ValidBaseIp(baseIp) && 1 <= startRange <= endRange <= 254 &&
              numThreads >= 1 && portTimeoutMs >= 10
    ensures ExitCode(Admission(baseIp, startRange, endRange, numThreads, portTimeoutMs)) == 1 <==>
              !ValidBaseIp(baseIp) || !(1 <= startRange <= endRange <= 254) ||
              numThreads < 1 || portTimeoutMs < 10
  {
  }

  // ---------------------------------------------------------------------
  // Enumerating the hosts
  // ---------------------------------------------------------------------

  /** `baseIp + "." + std::to_string(n)`. */
  function HostAddress(baseIp: string, n: nat): string {
    baseIp + "." + NatToString(n)
  }

  /** Different host numbers give different addresses, and the number can be read back from the address. */
  lemma HostAddressInjective(baseIp: string, a: nat, b: nat)
    ensures HostAddress(baseIp, a) == HostAddress(baseIp, b) <==> a == b
    ensures HostAddress(baseIp, a)[|baseIp| + 1..] == NatToString(a)
    ensures DecimalValue(HostAddress(baseIp, a)[|baseIp| + 1..]) == a
  {
    var sa := HostAddress(baseIp, a);
    var sb := HostAddress(baseIp, b);
    assert sa[|baseIp| + 1..] == NatToString(a);
    assert sb[|baseIp| + 1..] == NatToString(b);
    if sa == sb {
      NatToStringInjective(a, b);
    }
    DecimalValueOfNatToString(a);
  }

  /** The objects of `hs` are pairwise different. */
  predicate Distinct(hs: seq<HostInfo>) {
    forall i, j :: 0 <= i < j < |hs| ==> hs[i] != hs[j]
  }

  /** A record in its value-initialised state apart from its address. */
  ghost predicate Blank(h: HostInfo)
    reads h
  {
    h.hostname == "" && h.openPorts == [] && !h.alive
  }

  /**
   * The enumeration: the address strings for `startRange` .. `endRange`,
   * then one value-initialised record per address, then the addresses
   * copied into the records.
   */
  method EnumerateHosts(baseIp: string, startRange: int, endRange: int)
    returns (hostInfos: seq<HostInfo>)
    requires 1 <= startRange
    ensures |hostInfos| == if startRange <= endRange then endRange - startRange + 1 else 0
    ensures Distinct(hostInfos)
    ensures forall k :: 0 <= k < |hostInfos| ==> fresh(hostInfos[k])
    ensures forall k :: 0 <= k < |hostInfos| ==>
              hostInfos[k].ip == HostAddress(baseIp, startRange + k) && Blank(hostInfos[k])
  {
    var ipsToScan: seq<string> := [];
    var i := startRange;
    while i <= endRange
      invariant startRange <= i
      invariant i <= endRange + 1 || i == startRange
      invariant |ipsToScan| == i - startRange
      invariant forall k :: 0 <= k < |ipsToScan| ==> ipsToScan[k] == HostAddress(baseIp, startRange + k)
    {
      ipsToScan := ipsToScan + [HostAddress(baseIp, i)];
      i := i + 1;
    }

    hostInfos := [];
    while |hostInfos| < |ipsToScan|
      invariant |hostInfos| <= |ipsToScan|
      invariant Distinct(hostInfos)
      invariant forall k :: 0 <= k < |hostInfos| ==> fresh(hostInfos[k])
      invariant forall k :: 0 <= k < |hostInfos| ==> hostInfos[k].ip == "" && Blank(hostInfos[k])
    {
      var h := new HostInfo();
      hostInfos := hostInfos + [h];
    }

    for k := 0 to |ipsToScan|
      invariant forall j :: 0 <= j < |hostInfos| ==> fresh(hostInfos[j]) && Blank(hostInfos[j])
      invariant forall j :: 0 <= j < k ==> hostInfos[j].ip == ipsToScan[j]
      invariant forall j :: k <= j < |hostInfos| ==> hostInfos[j].ip == ""
    {
      hostInfos[k].ip := ipsToScan[k];
    }
  }

  // ---------------------------------------------------------------------
  // The batches
  // ---------------------------------------------------------------------

  /** The indices `lo`, `lo + 1`, ..., `hi - 1`. */
  function Range(lo: nat, hi: nat): (r: seq<nat>)
    requires lo <= hi
    ensures |r| == hi - lo
    ensures forall k :: 0 <= k < |r| ==> r[k] == lo + k
    decreases hi - lo
  {
    if lo == hi then [] else Range(lo, hi - 1) + [hi - 1]
  }

  lemma RangeAppend(lo: nat, mid: nat, hi: nat)
    requires lo <= mid <= hi
    ensures Range(lo, mid) + Range(mid, hi) == Range(lo, hi)
  {
  }

  function Min(a: nat, b: nat): nat {
    if a <= b then a else b
  }

  /**
   * The index lists of the batches launched from index `lo` on: each
   * takes the next `t` indices, or all that remain.
   */
  function BatchesFrom(lo: nat, n: nat, t: nat): seq<seq<nat>>
    requires lo <= n && t >= 1
    decreases n - lo
  {
    if lo == n then [] else [Range(lo, Min(lo + t, n))] + BatchesFrom(Min(lo + t, n), n, t)
  }

  /** The batches for `n` hosts and `t` threads. */
  function Batches(n: nat, t: nat): seq<seq<nat>>
    requires t >= 1
  {
    BatchesFrom(0, n, t)
  }

  /** The concatenation of a list of index lists. */
  function Flatten(ss: seq<seq<nat>>): seq<nat> {
    if ss == [] then [] else ss[0] + Flatten(ss[1..])
  }

  /** A batch: consecutive indices, at least one and at most `t`. */
  predicate IsRun(b: seq<nat>, t: nat) {
    1 <= |b| <= t && forall k :: 0 <= k < |b| ==> b[k] == b[0] + k
  }

  lemma {:induction false} BatchesFromCover(lo: nat, n: nat, t: nat)
    requires lo <= n && t >= 1
    ensures Flatten(BatchesFrom(lo, n, t)) == Range(lo, n)
    decreases n - lo
  {
    if lo < n {
      var m := Min(lo + t, n);
      var bs := BatchesFrom(lo, n, t);
      assert bs[1..] == BatchesFrom(m, n, t);
      BatchesFromCover(m, n, t);
      RangeAppend(lo, m, n);
    }
  }

  /** Every host is scanned exactly once, in index order: the batches concatenate to 0 .. n-1. */
  lemma BatchesCoverAllHosts(n: nat, t: nat)
    requires t >= 1
    ensures Flatten(Batches(n, t)) == Range(0, n)
  {
    BatchesFromCover(0, n, t);
  }

  lemma {:induction false} BatchesFromShape(lo: nat, n: nat, t: nat)
    requires lo <= n && t >= 1
    ensures forall j :: 0 <= j < |BatchesFrom(lo, n, t)| ==> IsRun(BatchesFrom(lo, n, t)[j], t)
    ensures forall j :: 0 <= j < |BatchesFrom(lo, n, t)| - 1 ==> |BatchesFrom(lo, n, t)[j]| == t
    decreases n - lo
  {
    if lo < n {
      var m := Min(lo + t, n);
      var bs := BatchesFrom(lo, n, t);
      BatchesFromShape(m, n, t);
      assert bs[0] == Range(lo, m);
      assert forall j :: 1 <= j < |bs| ==> bs[j] == BatchesFrom(m, n, t)[j - 1];
      if m < n {
        assert BatchesFrom(m, n, t) != [];
        assert |bs[0]| == t;
      }
    }
  }

  /**
   * Each batch is a run of consecutive indices holding at least one and at
   * most `t` hosts, and every batch but the last holds exactly `t`.
   */
  lemma BatchesShape(n: nat, t: nat)
    requires t >= 1
    ensures forall j :: 0 <= j < |Batches(n, t)| ==> IsRun(Batches(n, t)[j], t)
    ensures forall j :: 0 <= j < |Batches(n, t)| - 1 ==> |Batches(n, t)[j]| == t
  {
    BatchesFromShape(0, n, t);
  }

  lemma {:induction false} FlattenLength(ss: seq<seq<nat>>, t: nat)
    requires forall j :: 0 <= j < |ss| ==> |ss[j]| == t
    ensures |Flatten(ss)| == |ss| * t
  {
    if ss != [] {
      FlattenLength(ss[1..], t);
    }
  }

  /** With one thread the hosts are scanned one at a time: `n` batches of one. */
  lemma OneThreadIsSequential(n: nat)
    ensures |Batches(n, 1)| == n
    ensures forall j :: 0 <= j < n ==> Batches(n, 1)[j] == [j]
  {
    BatchesShape(n, 1);
    BatchesCoverAllHosts(n, 1);
    var bs := Batches(n, 1);
    FlattenLength(bs, 1);
    forall j | 0 <= j < n ensures bs[j] == [j] {
      BatchesFromIndex(0, n, j);
    }
  }

  lemma {:induction false} BatchesFromIndex(lo: nat, n: nat, j: nat)
    requires lo <= n && j < n - lo
    ensures |BatchesFrom(lo, n, 1)| == n - lo
    ensures BatchesFrom(lo, n, 1)[j] == [lo + j]
    decreases n - lo
  {
    BatchesFromShape(lo, n, 1);
    if j > 0 {
      BatchesFromIndex(lo + 1, n, j - 1);
    } else if lo + 1 < n {
      BatchesFromIndex(lo + 1, n, 0);
    }
  }

  /** With at least as many threads as hosts, all hosts are scanned in one batch. */
  lemma EnoughThreadsIsOneBatch(n: nat, t: nat)
    requires t >= n >= 1
    ensures Batches(n, t) == [Range(0, n)]
  {
    assert BatchesFrom(n, n, t) == [];
  }

  /**
   * One batch: launch the worker on the hosts from `first` on until
   * `numThreads` are running or no host is left. The launches are modelled
   * as calls made in launch order (the join that follows is then a no-op);
   * `activeThreads` records the indices launched.
   */
  method LaunchBatch(hostInfos: seq<HostInfo>, first: nat, portsToScan: seq<int>, numThreads: int,
                     portTimeoutMs: int, net: Network, resolve: Resolver)
    returns (next: nat, ghost activeThreads: seq<nat>)
    requires first < |hostInfos| && numThreads >= 1
    requires Distinct(hostInfos)
    modifies set k | first <= k < Min(first + numThreads, |hostInfos|) :: hostInfos[k]
    ensures next == Min(first + numThreads, |hostInfos|)
    ensures activeThreads == Range(first, next)
    ensures forall k :: first <= k < next ==>
              ScannedFrom(hostInfos[k], old(hostInfos[k].ip), old(hostInfos[k].hostname),
                          old(hostInfos[k].openPorts), portsToScan, portTimeoutMs, net, resolve)
  {
    var n := |hostInfos|;
    var i := first;
    activeThreads := [];
    var t := 0;
    while t < numThreads && i < n
      invariant first <= i <= n
      invariant i == first + t && t <= numThreads
      invariant activeThreads == Range(first, i)
      invariant forall k :: first <= k < i ==>
                  ScannedFrom(hostInfos[k], old(hostInfos[k].ip), old(hostInfos[k].hostname),
                              old(hostInfos[k].openPorts), portsToScan, portTimeoutMs, net, resolve)
      invariant forall k :: i <= k < n ==> unchanged(hostInfos[k])
      decreases n - i
    {
      ghost var probed, lookedUp := ScanHostWorker(hostInfos[i], portsToScan, portTimeoutMs, net, resolve);
      activeThreads := activeThreads + [i];
      t := t + 1;
      i := i + 1;
    }
    next := i;
  }

  /**
   * The batched scan of all hosts, batch after batch; `schedule` records
   * the index list of every batch.
   */
  method ScanInBatches(hostInfos: seq<HostInfo>, portsToScan: seq<int>, numThreads: int,
                       portTimeoutMs: int, net: Network, resolve: Resolver)
    returns (ghost schedule: seq<seq<nat>>)
    requires numThreads >= 1
    requires Distinct(hostInfos)
    modifies set k | 0 <= k < |hostInfos| :: hostInfos[k]
    ensures schedule == Batches(|hostInfos|, numThreads)
    ensures forall k :: 0 <= k < |hostInfos| ==>
              ScannedFrom(hostInfos[k], old(hostInfos[k].ip), old(hostInfos[k].hostname),
                          old(hostInfos[k].openPorts), portsToScan, portTimeoutMs, net, resolve)
  {
    var n := |hostInfos|;
    schedule := [];
    var i := 0;
    while i < n
      invariant i <= n
      invariant schedule + BatchesFrom(i, n, numThreads) == Batches(n, numThreads)
      invariant forall k :: 0 <= k < i ==>
                  ScannedFrom(hostInfos[k], old(hostInfos[k].ip), old(hostInfos[k].hostname),
                              old(hostInfos[k].openPorts), portsToScan, portTimeoutMs, net, resolve)
      invariant forall k :: i <= k < n ==> unchanged(hostInfos[k])
      decreases n - i
    {
      ghost var batch;
      var next;
      next, batch := LaunchBatch(hostInfos, i, portsToScan, numThreads, portTimeoutMs, net, resolve);
      schedule := schedule + [batch];
      i := next;
    }
  }

  // ---------------------------------------------------------------------
  // Collecting the live hosts
  // ---------------------------------------------------------------------

  /** A copy of a record's fields, as pushed into the result vector. */
  datatype HostRecord = HostRecord(ip: string, hostname: string, openPorts: seq<int>, alive: bool)

  function Snapshot(h: HostInfo): HostRecord
    reads h
  {
    HostRecord(h.ip, h.hostname, h.openPorts, h.alive)
  }

  /** Copies of the records marked alive, in their order in `hs`. */
  function AliveHosts(hs: seq<HostInfo>): seq<HostRecord>
    reads set k | 0 <= k < |hs| :: hs[k]
  {
    if hs == [] then []
    else
      var rest := AliveHosts(hs[..|hs| - 1]);
      if hs[|hs| - 1].alive then rest + [Snapshot(hs[|hs| - 1])] else rest
  }

  /** The positions in `hs` of the records marked alive, ascending. */
  function AliveIndices(hs: seq<HostInfo>): seq<nat>
    reads set k | 0 <= k < |hs| :: hs[k]
  {
    if hs == [] then []
    else
      var rest := AliveIndices(hs[..|hs| - 1]);
      if hs[|hs| - 1].alive then rest + [|hs| - 1] else rest
  }

  /**
   * `AliveHosts` is the order-preserving selection of the live records:
   * its entries are the copies of the records at strictly increasing
   * positions, and those positions are exactly the ones marked alive.
   */
  lemma {:induction false} AliveHostsSelects(hs: seq<HostInfo>)
    ensures |AliveHosts(hs)| == |AliveIndices(hs)|
    ensures forall j :: 0 <= j < |AliveIndices(hs)| ==>
              AliveIndices(hs)[j] < |hs| && AliveHosts(hs)[j] == Snapshot(hs[AliveIndices(hs)[j]])
    ensures forall j1, j2 :: 0 <= j1 < j2 < |AliveIndices(hs)| ==> AliveIndices(hs)[j1] < AliveIndices(hs)[j2]
    ensures forall k :: 0 <= k < |hs| ==> (k in AliveIndices(hs) <==> hs[k].alive)
  {
    if hs != [] {
      var init := hs[..|hs| - 1];
      AliveHostsSelects(init);
      assert forall k :: 0 <= k < |init| ==> init[k] == hs[k];
    }
  }

  /** Every copied record is marked alive, and every live record is copied. */
  lemma AliveHostsMembership(hs: seq<HostInfo>)
    ensures forall r :: r in AliveHosts(hs) ==> r.alive
    ensures forall k :: 0 <= k < |hs| && hs[k].alive ==> Snapshot(hs[k]) in AliveHosts(hs)
  {
    AliveHostsSelects(hs);
    var I := AliveIndices(hs);
    forall k | 0 <= k < |hs| && hs[k].alive ensures Snapshot(hs[k]) in AliveHosts(hs) {
      var j :| 0 <= j < |I| && I[j] == k;
      assert AliveHosts(hs)[j] == Snapshot(hs[k]);
    }
  }

  /**
   * A reported record: marked alive, with a non-empty, strictly ascending
   * list that holds exactly the listed ports that answered at its address.
   */
  ghost predicate LiveReport(r: HostRecord, timeoutMs: int, net: Network) {
    && r.alive && r.openPorts != [] && StrictlyAscending(r.openPorts)
    && forall p :: p in r.openPorts <==> p in CommonPorts && CheckPortWithTimeout(net, r.ip, p, timeoutMs)
  }

  /** A host that answered on some listed port, as the scan decides it. */
  ghost predicate Answers(ip: string, timeoutMs: int, net: Network) {
    exists p :: p in CommonPorts && CheckPortWithTimeout(net, ip, p, timeoutMs)
  }

  /** A record scanned with the fixed port list from its initial state. */
  lemma ScannedOnCommonPorts(h: HostInfo, ip: string, timeoutMs: int, net: Network, resolve: Resolver)
    requires ScannedFrom(h, ip, "", [], CommonPorts, timeoutMs, net, resolve)
    ensures h.ip == ip
    ensures h.alive <==> Answers(ip, timeoutMs, net)
    ensures h.alive ==> LiveReport(Snapshot(h), timeoutMs, net)
  {
    CommonPortsRepeatFree();
    ScannedRecordConsistent(h, ip, CommonPorts, timeoutMs, net, resolve);
    ScannedPortsMembership(h, ip, CommonPorts, timeoutMs, net, resolve);
  }

  /**
   * What a completed run reports: every result is the copy of a scanned
   * record, and a live report; every scanned address that answered on a
   * listed port is reported.
   */
  lemma ResultsAreTheLiveHosts(baseIp: string, startRange: nat, hs: seq<HostInfo>,
                               timeoutMs: int, net: Network, resolve: Resolver)
    requires forall k :: 0 <= k < |hs| ==>
               ScannedFrom(hs[k], HostAddress(baseIp, startRange + k), "", [],
                           CommonPorts, timeoutMs, net, resolve)
    ensures forall r :: r in AliveHosts(hs) ==>
              (exists k :: 0 <= k < |hs| && r == Snapshot(hs[k])) && LiveReport(r, timeoutMs, net)
    ensures forall k :: 0 <= k < |hs| && Answers(hs[k].ip, timeoutMs, net) ==>
              Snapshot(hs[k]) in AliveHosts(hs)
  {
    forall k | 0 <= k < |hs|
      ensures hs[k].alive <==> Answers(hs[k].ip, timeoutMs, net)
      ensures hs[k].alive ==> LiveReport(Snapshot(hs[k]), timeoutMs, net)
    {
      ScannedOnCommonPorts(hs[k], HostAddress(baseIp, startRange + k), timeoutMs, net, resolve);
    }
    AliveHostsSelects(hs);
    AliveHostsMembership(hs);
    forall r | r in AliveHosts(hs)
      ensures (exists k :: 0 <= k < |hs| && r == Snapshot(hs[k])) && LiveReport(r, timeoutMs, net)
    {
      var j :| 0 <= j < |AliveHosts(hs)| && AliveHosts(hs)[j] == r;
      var k := AliveIndices(hs)[j];
      assert r == Snapshot(hs[k]);
      assert k in AliveIndices(hs);
    }
  }

  /** The result loop: copy every record marked alive, in order. */
  method FilterAlive(hostInfos: seq<HostInfo>) returns (results: seq<HostRecord>)
    ensures results == AliveHosts(hostInfos)
  {
    results := [];
    for k := 0 to |hostInfos|
      invariant results == AliveHosts(hostInfos[..k])
    {
      assert hostInfos[..k + 1][..k] == hostInfos[..k];
      if hostInfos[k].alive {
        results := results + [Snapshot(hostInfos[k])];
      }
    }
    assert hostInfos[..|hostInfos|] == hostInfos;
  }

  // ---------------------------------------------------------------------
  // A whole run
  // ---------------------------------------------------------------------

  /**
   * `main` from the arguments on: check them, enumerate and scan the hosts
   * with the fixed port list, and collect the live ones. A refused run
   * scans nothing.
   */
  method RunScanner(baseIp: string, startRange: int, endRange: int, numThreads: int,
                    portTimeoutMs: int, net: Network, resolve: Resolver)
    returns (status: Status, hostInfos: seq<HostInfo>, results: seq<HostRecord>)
    ensures status == Admission(baseIp, startRange, endRange, numThreads, portTimeoutMs)
    ensures status.Rejected? ==> hostInfos == [] && results == []
    ensures status.Completed? ==>
              && |hostInfos| == endRange - startRange + 1
              && Distinct(hostInfos)
              && (forall k :: 0 <= k < |hostInfos| ==> fresh(hostInfos[k]))
              && (forall k :: 0 <= k < |hostInfos| ==>
                    ScannedFrom(hostInfos[k], HostAddress(baseIp, startRange + k), "", [],
                                CommonPorts, portTimeoutMs, net, resolve))
              && results == AliveHosts(hostInfos)
  {
    var ok := IsValidBaseIpFormat(baseIp);
    if !ok {
      return Rejected(InvalidBaseFormat), [], [];
    }
    var check := CheckScanArguments(startRange, endRange, numThreads, portTimeoutMs);
    if check.Some? {
      return Rejected(check.value), [], [];
    }
    hostInfos := EnumerateHosts(baseIp, startRange, endRange);
    ghost var schedule := ScanInBatches(hostInfos, CommonPorts, numThreads, portTimeoutMs, net, resolve);
    results := FilterAlive(hostInfos);
    status := Completed;
  }
}
