/**
 * The decision logic of `checkPortWithTimeout` and `getHostnameByIp`
 * (skaner_ip.cpp). The operating system's answers (socket creation,
 * address parsing, switching to non-blocking mode, `connect`, `select`,
 * `getsockopt(SO_ERROR)`, reverse DNS) are oracles handed in as values;
 * what is modelled is how the code turns those answers into a verdict
 * and how it derives the `select` timeout from the millisecond setting.
 */
module PortProbe {
  import opened Wrappers

  /**
   * C's `/` on `int`, which truncates toward zero (Dafny's `/` is Euclidean):
   * the quotient is the multiple of `b` nearest `a` on the side of zero.
   */
  function CDiv(a: int, b: int): (q: int)
    requires b > 0
    ensures a >= 0 ==> b * q <= a < b * (q + 1)
    ensures a < 0 ==> b * (q - 1) < a <= b * q
  {
    if a >= 0 then a / b else -((-a) / b)
  }

  /** C's `%` on `int`: the remainder takes the sign of the dividend. */
  function CRem(a: int, b: int): (r: int)
    requires b > 0
    ensures a == b * CDiv(a, b) + r
    ensures a >= 0 ==> 0 <= r < b
    ensures a < 0 ==> -b < r <= 0
  {
    a - b * CDiv(a, b)
  }

  /** `struct timeval`: seconds and microseconds. */
  datatype Timeval = Timeval(sec: int, usec: int)

  /**
   * `tv.tv_sec = timeout_ms / 1000; tv.tv_usec = (timeout_ms % 1000) * 1000;`
   * The split loses nothing, and for a non-negative timeout the microsecond
   * field is a whole number of milliseconds below one second.
   */
  function TimevalFromMs(timeoutMs: int): (tv: Timeval)
    ensures tv.sec * 1000 + CDiv(tv.usec, 1000) == timeoutMs
    ensures tv.usec % 1000 == 0
    ensures timeoutMs >= 0 ==> tv.sec == timeoutMs / 1000 && 0 <= tv.usec < 1000000
    ensures timeoutMs < 0 ==> tv.sec <= 0 && -1000000 < tv.usec <= 0
  {
    var r := CRem(timeoutMs, 1000);
    assert CDiv(r * 1000, 1000) == r;
    Timeval(CDiv(timeoutMs, 1000), r * 1000)
  }

  /** What `connect` on the non-blocking socket reports. */
  datatype ConnectReturn =
    | Connected     // returned 0: connected at once
    | InProgress    // returned SOCKET_ERROR with EINPROGRESS (WSAEWOULDBLOCK on Windows)
    | ConnectError  // returned SOCKET_ERROR with any other error

  /** What `select` on the one socket's write set reports. */
  datatype SelectReturn =
    | Writable      // select_res > 0
    | TimedOut      // select_res == 0
    | SelectError   // select_res < 0

  /** What `getsockopt(SOL_SOCKET, SO_ERROR)` reports. */
  datatype SoError = PendingError(optval: int) | GetsockoptFailed

  /**
   * The answers the system gives to one probe, in the order the code asks.
   * Answers the code never asks for (because an earlier step failed) are
   * simply ignored.
   */
  datatype SocketTrace = SocketTrace(
    created: bool,        // socket() did not return INVALID_SOCKET
    addressParsed: bool,  // inet_pton() returned a positive value
    nonBlocking: bool,    // fcntl(F_GETFL), fcntl(F_SETFL) (ioctlsocket on Windows) succeeded
    connect: ConnectReturn,
    select: SelectReturn,
    soError: SoError)

  /** The network as the probe sees it: its answers for an address, a port and the `select` timeout. */
  type Network = (string, int, Timeval) -> SocketTrace

  /**
   * The branch structure of `checkPortWithTimeout` after its system calls.
   * A port counts as open when the connect completes at once, or when it
   * is in progress, the socket becomes writable in time AND the pending
   * socket error is zero; every failed step before that means closed.
   */
  function ProbeVerdict(t: SocketTrace): (open: bool)
    ensures open <==>
      t.created && t.addressParsed && t.nonBlocking &&
      (t.connect.Connected? ||
       (t.connect.InProgress? && t.select.Writable? && t.soError.PendingError? && t.soError.optval == 0))
  {
    if !t.created then false
    else if !t.addressParsed then false
    else if !t.nonBlocking then false
    else if t.connect.Connected? then true
    else if t.connect.ConnectError? then false
    else if !t.select.Writable? then false
    else match t.soError
      case GetsockoptFailed => false
      case PendingError(optval) => optval == 0
  }

  /** `checkPortWithTimeout(ip, port, timeout_ms)`: ask the network, with the timeout split into a `timeval`. */
  function CheckPortWithTimeout(net: Network, ip: string, port: int, timeoutMs: int): bool
  {
    ProbeVerdict(net(ip, port, TimevalFromMs(timeoutMs)))
  }

  /** Writability alone is not success: a refused connection is reported through the pending error. */
  lemma WritableIsNotEnough(refused: int)
    requires refused != 0
    ensures !ProbeVerdict(SocketTrace(true, true, true, InProgress, Writable, PendingError(refused)))
    ensures !ProbeVerdict(SocketTrace(true, true, true, InProgress, Writable, GetsockoptFailed))
  {
  }

  /** The reverse lookup as the code sees it: a name, or nothing when `inet_pton` or `getnameinfo(NI_NAMEREQD)` fails. */
  type Resolver = string -> Option<string>

  /** The fallback `getHostnameByIp` returns when no name is found. */
  const Unresolved: string := "N/A"

  /** `getHostnameByIp`: the resolved name, or "N/A" on any failure (never an error). */
  function GetHostnameByIp(resolve: Resolver, ip: string): (name: string)
    ensures resolve(ip).None? ==> name == Unresolved
    ensures resolve(ip).Some? ==> name == resolve(ip).value
  {
    match resolve(ip)
    case None => Unresolved
    case Some(host) => host
  }
}
