/**
 * The per-host scan of skaner_ip.cpp: the `HostInfo` record and
 * `scanHostWorker`, which probes every port of the list in order,
 * keeps the ones that answered, and only for a host with an open port
 * records the sorted ports, the `alive` flag and the reverse-DNS name.
 */
module HostScan {
  import opened Wrappers
  import opened PortProbe

  /** `struct HostInfo`: one scanned address and what was found there. */
  class HostInfo {
    var ip: string
    var hostname: string
    var openPorts: seq<int>
    var alive: bool

    /** A value-initialised record: empty strings, no ports, `alive = false`. */
    constructor ()
      ensures ip == "" && hostname == "" && openPorts == [] && !alive
    {
      ip := "";
      hostname := "";
      openPorts := [];
      alive := false;
    }
  }

  predicate Ascending(s: seq<int>) {
    forall i, j :: 0 <= i < j < |s| ==> s[i] <= s[j]
  }

  predicate StrictlyAscending(s: seq<int>) {
    forall i, j :: 0 <= i < j < |s| ==> s[i] < s[j]
  }

  /**
   * Insertion of `x` before the first element not below it: one more
   * occurrence of `x`, and the head is the smaller of `x` and the old head.
   */
  function Insert(x: int, s: seq<int>): (r: seq<int>)
    ensures multiset(r) == multiset(s) + multiset{x}
    ensures r != [] && r[0] == if s == [] || x <= s[0] then x else s[0]
  {
    if s == [] || x <= s[0] then
      [x] + s
    else
      assert s == [s[0]] + s[1..];
      [s[0]] + Insert(x, s[1..])
  }

  /** Inserting into an ascending sequence keeps it ascending. */
  lemma {:induction false} InsertAscending(x: int, s: seq<int>)
    requires Ascending(s)
    ensures Ascending(Insert(x, s))
    decreases |s|
  {
    if s != [] && x > s[0] {
      var rest := Insert(x, s[1..]);
      InsertAscending(x, s[1..]);
      assert s[0] <= rest[0];
      assert forall j :: 0 <= j < |rest| ==> rest[0] <= rest[j];
      assert Insert(x, s) == [s[0]] + rest;
    }
  }

  /** The effect of `std::sort` on a `std::vector<int>`: an ascending permutation. */
  function SortAscending(s: seq<int>): (r: seq<int>)
    ensures Ascending(r)
    ensures multiset(r) == multiset(s)
  {
    if s == [] then []
    else
      assert s == [s[0]] + s[1..];
      var sorted := SortAscending(s[1..]);
      InsertAscending(s[0], sorted);
      Insert(s[0], sorted)
  }

  /** Two ascending arrangements of one multiset start with the same element: its least. */
  lemma HeadsAgree(a: seq<int>, b: seq<int>)
    requires Ascending(a) && Ascending(b) && multiset(a) == multiset(b)
    requires a != [] && b != []
    ensures a[0] == b[0]
  {
    assert a[0] in multiset(b);
    assert b[0] in multiset(a);
    var i :| 0 <= i < |b| && b[i] == a[0];
    var j :| 0 <= j < |a| && a[j] == b[0];
    assert b[0] <= b[i] && a[0] <= a[j];
  }

  lemma AscendingTail(s: seq<int>)
    requires Ascending(s) && s != []
    ensures Ascending(s[1..])
  {
    var t := s[1..];
    forall i, j | 0 <= i < j < |t| ensures t[i] <= t[j] {
      assert t[i] == s[i + 1] && t[j] == s[j + 1];
    }
  }

  /** An ascending permutation is unique, so any correct sort gives what `SortAscending` gives. */
  lemma {:induction false} AscendingPermutationUnique(a: seq<int>, b: seq<int>)
    requires Ascending(a) && Ascending(b) && multiset(a) == multiset(b)
    ensures a == b
    decreases |a|
  {
    if a == [] || b == [] {
      assert |multiset(a)| == |a| && |multiset(b)| == |b|;
    } else {
      HeadsAgree(a, b);
      TailMultiset(a);
      TailMultiset(b);
      AscendingTail(a);
      AscendingTail(b);
      AscendingPermutationUnique(a[1..], b[1..]);
      assert a == [a[0]] + a[1..] && b == [b[0]] + b[1..];
    }
  }

  lemma TailMultiset(s: seq<int>)
    requires s != []
    ensures multiset(s[1..]) == multiset(s) - multiset{s[0]}
  {
    assert s == [s[0]] + s[1..];
  }

  /** An ascending sequence in which no value repeats is strictly ascending. */
  lemma AscendingWithoutRepeatsIsStrict(s: seq<int>)
    requires Ascending(s)
    requires forall x :: multiset(s)[x] <= 1
    ensures StrictlyAscending(s)
  {
    forall i, j | 0 <= i < j < |s| ensures s[i] < s[j] {
      RepeatCounted(s, i, j);
    }
  }

  /** Equal values at two positions count twice in the multiset. */
  lemma RepeatCounted(s: seq<int>, i: nat, j: nat)
    requires i < j < |s|
    ensures s[i] == s[j] ==> multiset(s)[s[i]] >= 2
  {
    assert s == s[..j] + s[j..];
    assert s[i] in multiset(s[..j]) && s[j] in multiset(s[j..]);
  }

  /** No value occurs twice in a strictly ascending sequence. */
  lemma {:induction false} StrictlyAscendingHasNoRepeats(s: seq<int>)
    requires StrictlyAscending(s)
    ensures forall x :: multiset(s)[x] <= 1
    decreases |s|
  {
    if s != [] {
      var init, last := s[..|s| - 1], s[|s| - 1];
      assert s == init + [last];
      StrictlyAscendingHasNoRepeats(init);
      assert last !in init;
    }
  }

  /**
   * The ports of `ports` that the probe reports open, in list order,
   * as `foundOpenPorts` accumulates them.
   */
  function FoundOpenPorts(net: Network, ip: string, ports: seq<int>, timeoutMs: int): seq<int>
  {
    if ports == [] then []
    else
      var rest := FoundOpenPorts(net, ip, ports[..|ports| - 1], timeoutMs);
      var last := ports[|ports| - 1];
      if CheckPortWithTimeout(net, ip, last, timeoutMs) then rest + [last] else rest
  }

  /** Each open port of the list is found as often as it occurs in the list; a closed one never. */
  lemma {:induction false} FoundOpenPortsCount(net: Network, ip: string, ports: seq<int>, timeoutMs: int)
    ensures forall p :: multiset(FoundOpenPorts(net, ip, ports, timeoutMs))[p] ==
              if CheckPortWithTimeout(net, ip, p, timeoutMs) then multiset(ports)[p] else 0
    decreases |ports|
  {
    if ports != [] {
      var init, last := ports[..|ports| - 1], ports[|ports| - 1];
      assert ports == init + [last];
      FoundOpenPortsCount(net, ip, init, timeoutMs);
    }
  }

  /** One more port in the list adds it to the found ports exactly when it answers open. */
  lemma FoundOpenPortsSnoc(net: Network, ip: string, ports: seq<int>, p: int, timeoutMs: int)
    ensures FoundOpenPorts(net, ip, ports + [p], timeoutMs) ==
              FoundOpenPorts(net, ip, ports, timeoutMs) +
              (if CheckPortWithTimeout(net, ip, p, timeoutMs) then [p] else [])
  {
    assert (ports + [p])[..|ports|] == ports;
  }

  /** Nothing found exactly when every port of the list answered closed. */
  lemma FoundNothingIff(net: Network, ip: string, ports: seq<int>, timeoutMs: int)
    ensures FoundOpenPorts(net, ip, ports, timeoutMs) == [] <==>
              forall p :: p in ports ==> !CheckPortWithTimeout(net, ip, p, timeoutMs)
  {
    var found := FoundOpenPorts(net, ip, ports, timeoutMs);
    FoundOpenPortsCount(net, ip, ports, timeoutMs);
    if found != [] {
      assert multiset(found)[found[0]] > 0;
    }
    if found == [] {
      forall p | p in ports ensures !CheckPortWithTimeout(net, ip, p, timeoutMs) {
        assert multiset(found)[p] == 0;
      }
    }
  }

  /**
   * What the record holds after `scanHostWorker` ran on a record whose
   * fields were `ip0`, `hostname0` and `openPorts0`: `alive` says whether
   * anything was found; the sorted ports and the name are written only then,
   * otherwise the old ports and name stay.
   */
  ghost predicate ScannedFrom(h: HostInfo, ip0: string, hostname0: string, openPorts0: seq<int>,
                              ports: seq<int>, timeoutMs: int, net: Network, resolve: Resolver)
    reads h
  {
    var found := FoundOpenPorts(net, ip0, ports, timeoutMs);
    && h.ip == ip0
    && h.alive == (found != [])
    && h.openPorts == (if found != [] then SortAscending(found) else openPorts0)
    && h.hostname == (if found != [] then GetHostnameByIp(resolve, ip0) else hostname0)
  }

  /**
   * `scanHostWorker`: probe every port in list order (no early exit),
   * then update the record. The ghost outputs record the calls made: the
   * ports probed, and whether the reverse lookup ran.
   */
  method ScanHostWorker(hostInfo: HostInfo, portsToScan: seq<int>, portTimeoutMs: int,
                        net: Network, resolve: Resolver)
    returns (ghost probed: seq<int>, ghost lookedUp: bool)
    modifies hostInfo
    ensures ScannedFrom(hostInfo, old(hostInfo.ip), old(hostInfo.hostname), old(hostInfo.openPorts),
                        portsToScan, portTimeoutMs, net, resolve)
    ensures probed == portsToScan
    ensures lookedUp == hostInfo.alive
  {
    var foundOpenPorts: seq<int> := [];
    probed := [];
    for k := 0 to |portsToScan|
      invariant unchanged(hostInfo)
      invariant probed == portsToScan[..k]
      invariant foundOpenPorts == FoundOpenPorts(net, hostInfo.ip, portsToScan[..k], portTimeoutMs)
    {
      var port := portsToScan[k];
      assert portsToScan[..k + 1] == portsToScan[..k] + [port];
      FoundOpenPortsSnoc(net, hostInfo.ip, portsToScan[..k], port, portTimeoutMs);
      if CheckPortWithTimeout(net, hostInfo.ip, port, portTimeoutMs) {
        foundOpenPorts := foundOpenPorts + [port];
      }
      probed := probed + [port];
    }
    assert portsToScan[..|portsToScan|] == portsToScan;

    if foundOpenPorts != [] {
      hostInfo.alive := true;
      hostInfo.openPorts := foundOpenPorts;
      hostInfo.openPorts := SortAscending(hostInfo.openPorts);
      hostInfo.hostname := GetHostnameByIp(resolve, hostInfo.ip);
      lookedUp := true;
    } else {
      hostInfo.alive := false;
      lookedUp := false;
    }
  }

  /**
   * A record scanned from its initial state (no ports, empty name) is
   * consistent: `alive` iff some port is listed, iff some probe succeeded;
   * its ports are ascending and are exactly the open ports of the list;
   * a host that is not alive keeps the empty name; with a repeat-free
   * port list the ports are strictly ascending.
   */
  lemma ScannedRecordConsistent(h: HostInfo, ip: string, ports: seq<int>, timeoutMs: int,
                                net: Network, resolve: Resolver)
    requires ScannedFrom(h, ip, "", [], ports, timeoutMs, net, resolve)
    ensures h.alive <==> h.openPorts != []
    ensures h.alive <==> exists p :: p in ports && CheckPortWithTimeout(net, ip, p, timeoutMs)
    ensures Ascending(h.openPorts)
    ensures forall p :: multiset(h.openPorts)[p] ==
              if CheckPortWithTimeout(net, ip, p, timeoutMs) then multiset(ports)[p] else 0
    ensures !h.alive ==> h.hostname == ""
    ensures h.alive ==> h.hostname == (if resolve(ip).Some? then resolve(ip).value else Unresolved)
    ensures (forall x :: multiset(ports)[x] <= 1) ==> StrictlyAscending(h.openPorts)
  {
    var found := FoundOpenPorts(net, ip, ports, timeoutMs);
    FoundOpenPortsCount(net, ip, ports, timeoutMs);
    FoundNothingIff(net, ip, ports, timeoutMs);
    if found != [] {
      assert |multiset(h.openPorts)| == |multiset(found)| > 0;
    }
    if forall x :: multiset(ports)[x] <= 1 {
      AscendingWithoutRepeatsIsStrict(h.openPorts);
    }
  }

  /** For a record scanned from its initial state, a port is listed exactly when it is in the list and answered. */
  lemma ScannedPortsMembership(h: HostInfo, ip: string, ports: seq<int>, timeoutMs: int,
                               net: Network, resolve: Resolver)
    requires ScannedFrom(h, ip, "", [], ports, timeoutMs, net, resolve)
    ensures forall p :: p in h.openPorts <==> p in ports && CheckPortWithTimeout(net, ip, p, timeoutMs)
  {
    ScannedRecordConsistent(h, ip, ports, timeoutMs, net, resolve);
    forall p ensures p in h.openPorts <==> p in ports && CheckPortWithTimeout(net, ip, p, timeoutMs) {
      assert p in h.openPorts <==> multiset(h.openPorts)[p] > 0;
      assert p in ports <==> multiset(ports)[p] > 0;
    }
  }
}
