# skaner_ip — a verified model of the scanner's core

`skaner_ip.cpp` is a LAN scanner. It reads a base prefix `X.Y.Z`, a host range, a
thread count and a port timeout. It then probes a fixed list of 22 TCP ports on every
address `X.Y.Z.start` .. `X.Y.Z.end`, in batches of at most `numThreads` hosts, and
reports, in address order, the hosts that answered on some port, each with its open
ports in ascending order and its reverse-DNS name.

This project models the deterministic core of that program in Dafny and proves what it
promises. The core is:

- the prefix validator `isValidBaseIpFormat`;
- the per-host worker `scanHostWorker` and the `HostInfo` record it updates;
- the driver logic of `main`: the argument guard, the address enumeration, the batches and the selection of live hosts;
- the split of the millisecond timeout into a `timeval`.

The modules follow the program's structure:

| module | file | contents |
|---|---|---|
| `Wrappers` | `wrappers.dfy` | `Option` |
| `Decimal` | `decimal.dfy` | `isdigit` on the "C" locale, the value of a numeral, `std::to_string` on host numbers |
| `BaseIpFormat` | `base_ip_format.dfy` | `std::string::find`, the split loop, `std::stoi` on digit strings, `isValidBaseIpFormat` |
| `PortProbe` | `port_probe.dfy` | C's truncating `/` and `%`, the `timeval` split, the decision tree of `checkPortWithTimeout` over an abstract socket trace, `getHostnameByIp` over an abstract resolver |
| `HostScan` | `host_scan.dfy` | `class HostInfo`, `std::sort` as insertion sort, `scanHostWorker` |
| `Scanner` | `scanner.dfy` | the guard, the enumeration, the batched scan, the result filter, a whole run |

The code is imperative, and so is the model:

- `isValidBaseIpFormat` is a `while` loop that splits on `'.'` and checks every part. It is proved equal to the specification predicate `ValidBaseIp`.
- `scanHostWorker` is a loop over the ports. It then updates the fields of a `HostInfo` object in place.
- `main` fills the records by index, runs the nested batch loops, and copies the live records into a result sequence.

The world outside the program is passed in as parameters:

- The network is a function `Network` from (address, port, `timeval`) to a `SocketTrace`. A trace records what each socket call returned.
- The reverse lookup is a function `Resolver` from an address to an optional name.
- The keyboard input becomes method parameters.

A launched thread is modelled as a call made when the thread is launched. Every thread updates its own record and none reads another's, so the join at the end of each batch changes nothing in this model.

A host with no open port keeps the default empty `hostname`. `"N/A"` comes only from a failed lookup, and a lookup happens only for a live host (skaner_ip.cpp:209-219 and 175-196). `ScannedRecordConsistent` proves `!alive ==> hostname == ""`.

## Model

| member | source | states |
|---|---|---|
| Decimal.NatToString | skaner_ip.cpp:339 | `std::to_string` of a host number is a non-empty digit string with no leading zero unless the number is 0 |
| Decimal.DecimalValueOfNatToString | skaner_ip.cpp:339 | reading the formatted number back gives the number: the formatting loses nothing |
| Decimal.NatToStringInjective | skaner_ip.cpp:339 | two different host numbers are formatted differently |
| Decimal.LeadingZeroIgnored | skaner_ip.cpp:258-262 | a leading `'0'` keeps a part a digit string and does not change its value, so `010` counts as 10 |
| Decimal.PrefixValueBound | skaner_ip.cpp:258-267 | a numeral is worth at least any of its prefixes (used to show that an overlong part is out of range) |
| BaseIpFormat.Find | skaner_ip.cpp:228-235 | `find('.', from)` gives the first index at or after `from` holding the character, or `npos` when there is none |
| BaseIpFormat.JoinSplit | skaner_ip.cpp:231-238 | the split parts, joined with `'.'`, give back the string; no part contains a dot; there is one part more than there are dots |
| BaseIpFormat.SplitJoin | skaner_ip.cpp:231-238 | splitting the join of dot-free parts gives back exactly those parts |
| BaseIpFormat.StoiOfNatToString | skaner_ip.cpp:258-267 | `std::stoi` reads back every non-negative `int` that `std::to_string` writes, as that number |
| BaseIpFormat.SplitOnDots | skaner_ip.cpp:225-238 | the `find`/`substr` loop yields exactly the parts `Split` defines, and `dotCount` is one less than the number of parts |
| BaseIpFormat.IsValidBaseIpFormat | skaner_ip.cpp:223-273 | the validator returns true exactly when the prefix splits into three parts, each non-empty, all digits, and converting to an `int` of at most 255 |
| BaseIpFormat.ValidBaseIpShape | skaner_ip.cpp:240-247 | an accepted prefix has exactly two dots and is its three parts joined by dots |
| BaseIpFormat.ValidBaseIpIff | skaner_ip.cpp:240-271 | `a.b.c` with dot-free parts is accepted if and only if each part is non-empty, all digits, and has a decimal value of at most 255 (both directions) |
| BaseIpFormat.ValidPartIff | skaner_ip.cpp:249-271 | a part passes the per-part checks if and only if it is a non-empty digit string of value at most 255, whatever its length |
| BaseIpFormat.WrongDotCountRejected | skaner_ip.cpp:240-243 | a string with other than two dots is rejected |
| BaseIpFormat.AcceptsTypicalPrefix | skaner_ip.cpp:223-273 | `192.168.1` is accepted |
| BaseIpFormat.AcceptsLeadingZeros | skaner_ip.cpp:249-263 | `010.000.255` is accepted: only digit-ness and value are checked |
| BaseIpFormat.RejectsWrongPartCount | skaner_ip.cpp:240-247 | `192.168` and `192.168.1.1` are rejected |
| BaseIpFormat.RejectsOctetAbove255 | skaner_ip.cpp:260-262 | `192.168.999` is rejected |
| BaseIpFormat.RejectsIntOverflow | skaner_ip.cpp:264-267 | `stoi` on `99999999999` reports `out_of_range`, and `10.0.99999999999` is rejected rather than accepted or thrown |
| BaseIpFormat.RejectsNonDigits | skaner_ip.cpp:253-257 | `abc.def.ghi` and `10.+1.1` are rejected by the digit check, although `stoi` would accept a sign |
| BaseIpFormat.RejectsEmptyPart | skaner_ip.cpp:251-252 | `10..1` is rejected |
| PortProbe.CDiv | skaner_ip.cpp:135 | C++ `/` truncates toward zero: `b*q <= a < b*(q+1)` for a non-negative dividend and `b*(q-1) < a <= b*q` for a negative one |
| PortProbe.CRem | skaner_ip.cpp:136 | C++ `%`: `a == b*(a/b) + a%b`, with a remainder carrying the dividend's sign and smaller than the divisor |
| PortProbe.TimevalFromMs | skaner_ip.cpp:134-136 | `tv_sec*1000 + tv_usec/1000` gives back the timeout, and `tv_usec` is a whole number of milliseconds; for a non-negative timeout, `tv_sec` is the whole seconds and `0 <= tv_usec < 1000000` |
| PortProbe.ProbeVerdict | skaner_ip.cpp:66-172 | a port counts as open if and only if `socket`, `inet_pton` and the non-blocking switch all succeed and either `connect` succeeds at once, or it is in progress, `select` reports the socket writable, `getsockopt` succeeds and `SO_ERROR` is 0 |
| PortProbe.WritableIsNotEnough | skaner_ip.cpp:148-171 | a writable socket whose pending error is non-zero, or whose `getsockopt` fails, is not open |
| HostScan.HostInfo.constructor | skaner_ip.cpp:36-42 | a value-initialised record: empty address and name, no ports, `alive == false` |
| HostScan.Insert | skaner_ip.cpp:213 | insertion adds exactly one occurrence of the element, which stands in front when it is not above the old head |
| HostScan.InsertAscending | skaner_ip.cpp:213 | inserting into an ascending list keeps it ascending |
| HostScan.SortAscending | skaner_ip.cpp:213 | `std::sort` yields an ascending permutation of its input |
| HostScan.AscendingPermutationUnique | skaner_ip.cpp:213 | two ascending lists holding the same multiset are equal, so any correct sort gives the same list as `std::sort` |
| HostScan.AscendingWithoutRepeatsIsStrict | skaner_ip.cpp:213 | an ascending list without repeated elements is strictly ascending |
| HostScan.StrictlyAscendingHasNoRepeats | skaner_ip.cpp:284 | a strictly ascending list holds every value at most once |
| HostScan.FoundOpenPortsCount | skaner_ip.cpp:200-207 | the accumulated list holds each port as often as the list does when the probe answers open there, and not at all otherwise |
| HostScan.FoundOpenPortsSnoc | skaner_ip.cpp:201-206 | one more probed port appends that port exactly when its probe answers open |
| HostScan.FoundNothingIff | skaner_ip.cpp:209 | nothing is found if and only if no port of the list answers open |
| HostScan.ScanHostWorker | skaner_ip.cpp:198-220 | every port is probed in list order, with no early exit. When something was found, `alive` becomes true, `openPorts` becomes the sorted found list, and the name is looked up. Otherwise only `alive := false` is written, and the name and the ports stay as they were. The lookup runs exactly when the host is alive |
| HostScan.ScannedRecordConsistent | skaner_ip.cpp:175-220 | for a record scanned from its initial state: `alive` iff ports are listed, iff some probe succeeded; the ports are ascending and are exactly the open ports, counted with multiplicity; a dead host keeps the empty name, a live one gets the resolver's name or `"N/A"` when the lookup fails; with a repeat-free list the ports are strictly ascending |
| HostScan.ScannedPortsMembership | skaner_ip.cpp:200-213 | for a record scanned from its initial state, a port is listed exactly when it occurs in the probed list and its probe answered open |
| Scanner.CommonPortsAscending | skaner_ip.cpp:284 | the fixed port list is strictly ascending, and every entry is in 1..65535 |
| Scanner.CommonPortsRepeatFree | skaner_ip.cpp:284 | no port occurs twice in the fixed list |
| Scanner.CheckScanArguments | skaner_ip.cpp:306-323 | the range error holds iff `start < 1 or end > 254 or start > end`; the thread error iff the range is fine and `numThreads < 1`; the timeout error iff both are fine and `portTimeoutMs < 10`; no error iff `1 <= start <= end <= 254`, `numThreads >= 1` and `portTimeoutMs >= 10` |
| Scanner.Admission | skaner_ip.cpp:289-323 | a run goes ahead if and only if the prefix is valid and the numeric checks pass; a bad prefix is reported before the numbers are looked at |
| Scanner.ExitCodeOfArguments | skaner_ip.cpp:290-409 | the program exits with 0 exactly when the prefix is valid, `1 <= start <= end <= 254`, `numThreads >= 1` and `portTimeoutMs >= 10`, and with 1 exactly when one of these fails |
| Scanner.HostAddressInjective | skaner_ip.cpp:337-340 | different host numbers give different addresses; the text after `base.` is the host number's numeral and reads back to it |
| Scanner.EnumerateHosts | skaner_ip.cpp:336-346 | one new, distinct record per host number `start..end`. Record `k` has address `base + "." + to_string(start+k)`, an empty name, no ports and `alive == false` |
| Scanner.BatchesFromCover | skaner_ip.cpp:349-363 | the batches from index `lo` on concatenate to `lo .. n-1` |
| Scanner.BatchesCoverAllHosts | skaner_ip.cpp:349-363 | the batches concatenate to `0 .. n-1`, so every index is scanned exactly once, in ascending order |
| Scanner.BatchesFromShape | skaner_ip.cpp:351 | from any start, every batch is a run of between 1 and `numThreads` consecutive indices, and all but the last hold exactly `numThreads` |
| Scanner.BatchesShape | skaner_ip.cpp:351 | every batch is a run of consecutive, hence different, indices, between 1 and `numThreads` of them; every batch but the last is full |
| Scanner.FlattenLength | skaner_ip.cpp:349-363 | batches of `t` indices each concatenate to `t` times their number of indices |
| Scanner.BatchesFromIndex | skaner_ip.cpp:351 | with one thread, the batches from `lo` on are the single indices `lo`, `lo+1`, ... |
| Scanner.OneThreadIsSequential | skaner_ip.cpp:349-363 | with one thread there are `n` batches, and batch `j` is the host `j` alone |
| Scanner.EnoughThreadsIsOneBatch | skaner_ip.cpp:349-363 | with at least as many threads as hosts, all hosts are scanned in a single batch |
| Scanner.LaunchBatch | skaner_ip.cpp:351-354 | the inner loop launches the worker on hosts `first .. min(first+numThreads, n)-1`, in order. It touches no other record, and leaves each launched record scanned from its state at launch |
| Scanner.ScanInBatches | skaner_ip.cpp:348-363 | the outer loop runs exactly the batches `Batches(n, numThreads)`, in order, with `activeThreads` empty between batches, and leaves every record scanned exactly once from its initial state |
| Scanner.AliveHostsSelects | skaner_ip.cpp:365-372 | the result is the records at strictly increasing positions, and those positions are exactly the ones marked alive |
| Scanner.AliveHostsMembership | skaner_ip.cpp:365-372 | every result is marked alive, and every live record is among the results |
| Scanner.ScannedOnCommonPorts | skaner_ip.cpp:198-220 | a record scanned with the fixed list keeps its address, is alive iff some listed port answered, and then reports a non-empty, strictly ascending list of exactly the ports that answered |
| Scanner.ResultsAreTheLiveHosts | skaner_ip.cpp:336-372 | every result of a completed run is a copy of a scanned record with a non-empty, strictly ascending list of exactly its answering ports. Every address that answered on a listed port is among the results |
| Scanner.FilterAlive | skaner_ip.cpp:365-372 | the result loop copies exactly the live records, in order |
| Scanner.RunScanner | skaner_ip.cpp:289-372 | a run is refused exactly as `Admission` says, scanning nothing. A completed run builds `end-start+1` distinct new records, leaves record `k` scanned with the fixed list from a blank record at address `base.(start+k)`, and returns exactly the live records in order |

## Left out

- The socket calls (`socket`, `inet_pton`, `fcntl`/`ioctlsocket`, `connect`, `select`, `getsockopt`, `closesocket`) are I/O. Their results are the fields of the `SocketTrace` that the `Network` parameter supplies, and `ProbeVerdict` models the decision the code takes on them. The closing of the socket on every path has no observable effect in the model.
- `PortProbe.CheckPortWithTimeout`, `PortProbe.GetHostnameByIp` and `HostScan.FoundOpenPorts` are definitions over the oracles. Their properties are `ProbeVerdict`, the `FoundOpenPorts…` lemmas and `ScannedRecordConsistent`.
- `BaseIpFormat.Stoi` and `Scanner.ExitCode` are leaf definitions. Their properties are `StoiOfNatToString`, `ValidPartIff` and `RejectsIntOverflow`, and for `ExitCode`, `ExitCodeOfArguments`.
- `getnameinfo` in `getHostnameByIp` is DNS resolution. It is the `Resolver` parameter, with `"N/A"` on failure. The `inet_pton` failure path is folded into the resolver's `None`.
- The threads and their `join` (skaner_ip.cpp:353-360) are concurrency. Each launch is a call in launch order. This is faithful because every worker writes only its own record.
- Winsock set-up and clean-up, the `std::cin` prompts, the console clearing, and the result table with its "no hosts found" message are interactive I/O and formatting (skaner_ip.cpp:45-63, 287-304, 326-334, 374-406).
- The keyboard input is taken as already-parsed integers. The behaviour of `std::cin >> int` on malformed or overflowing text is not modelled.
- BaseIpFormat.Stoi: modelled only on the non-empty digit strings the validator passes to it. Signs, whitespace and `invalid_argument` cannot reach it there.
- Decimal.IsDigit: stands for `isdigit` in the "C" locale, i.e. `'0'..'9'`. Calling `isdigit` on a negative `char` (a non-ASCII byte) is undefined in C++ and is not modelled.
- The network is modelled as time-invariant: `Network` is a function of (address, port, `timeval`), so a port listed twice in `portsToScan` gives the same answer both times. In the program each occurrence is probed separately and the answers may differ over time. `FoundOpenPortsCount` and `ScannedRecordConsistent` count a repeated port under this assumption; the fixed list has no repeats (`CommonPortsRepeatFree`).
- Scanner.FilterAlive: the records are copied as `HostRecord` values. Objects are not duplicated.

