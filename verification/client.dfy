/** The per-device connection engine (`TcpClient`): the device-info record, the
    health bookkeeping (retry count, consecutive failures, availability,
    back-off deadline), the connect gate with its quick retries, `disconnect`,
    `update_ip`, the cached-state merge and the device-info handshake.

    Sockets are not modelled: what the network does is an argument (the
    outcome of each connection attempt), and so is the clock reading `now`. */
module Client {
  import opened Wrappers
  import opened JsonValue
  import opened Text
  import opened Const

  /** A reading of the monotonic clock, in seconds. */
  type Time = t: real | t >= 0.0

  function RMin(a: real, b: real): real {
    if a <= b then a else b
  }

  /** `base ** n` for a natural exponent. A base of at least one gives a power of at least one,
      and at least the base itself from the first power on. */
  function Pow(base: real, n: nat): (r: real)
    ensures base >= 1.0 ==> r >= 1.0
    ensures base >= 1.0 && n >= 1 ==> r >= base
  {
    if n == 0 then 1.0 else base * Pow(base, n - 1)
  }

  lemma NonNegativeProduct(a: real, b: real)
    requires a >= 0.0 && b >= 0.0
    ensures a * b >= 0.0
  {
  }

  /** For a base of at least one, a larger exponent never gives a smaller power. */
  lemma {:induction false} PowMonotone(base: real, m: nat, n: nat)
    requires base >= 1.0 && m <= n
    ensures Pow(base, m) <= Pow(base, n)
    decreases n - m
  {
    if m < n {
      PowMonotone(base, m, n - 1);
      PowStep(base, n);
    }
  }

  /** One more factor of a base of at least one never lowers the power. */
  lemma PowStep(base: real, n: nat)
    requires base >= 1.0 && n >= 1
    ensures Pow(base, n - 1) <= Pow(base, n)
  {
    var x := Pow(base, n - 1);
    assert Pow(base, n) == base * x;
    NonNegativeProduct(base - 1.0, x);
    assert base * x == x + (base - 1.0) * x;
  }

  datatype DeviceState = Online | Offline | Connecting | Unknown {
    /** The string the integration stores for the state. */
    function Name(): string {
      match this
      case Online => DeviceStateOnline
      case Offline => DeviceStateOffline
      case Connecting => DeviceStateConnecting
      case Unknown => DeviceStateUnknown
    }
  }

  /** `DeviceInfo`: what the handshake learned about the device. */
  datatype DeviceInfo = DeviceInfo(
    deviceId: string,
    deviceName: string,
    pid: string,
    typeCode: string,
    icon: string,
    modelName: string,
    dpid: seq<string>)

  const EmptyInfo := DeviceInfo("", "", "", "", "", "", [])

  /** The state of one `TcpClient`. `connected` stands for "the writer is open";
      `buffer` is the read buffer for partial responses. */
  datatype Client = Client(
    ip: string,
    connected: bool,
    buffer: string,
    available: bool,
    info: DeviceInfo,
    lastError: Option<string>,
    retryCount: nat,
    nextRetryTime: real,
    consecutiveFailures: nat,
    lastSuccess: real,
    lastActivity: real,
    deviceState: DeviceState,
    lastState: map<string, Json>,
    reconnectDelay: real)

  /** A freshly constructed client. */
  function NewClient(ip: string): (c: Client)
    ensures c.ip == ip && !c.connected && !c.available && c.buffer == ""
    ensures c.retryCount == 0 && c.consecutiveFailures == 0 && c.nextRetryTime == 0.0
    ensures c.deviceState == Unknown && c.lastState == map[] && c.reconnectDelay == ReconnectMinInterval
    ensures c.info == EmptyInfo
  {
    Client(ip, false, "", false, EmptyInfo, None, 0, 0.0, 0, 0.0, 0.0, Unknown, map[], ReconnectMinInterval)
  }

  /** The healthy state that every successful exchange restores. */
  predicate Healthy(c: Client) {
    c.available && c.lastError == None && c.consecutiveFailures == 0 && c.retryCount == 0 && c.nextRetryTime == 0.0
  }

  // ---------------------------------------------------------------------------
  // Back-off after a failed connection

  /** The wait after the `retry`-th failed connection: `min(0.5 * 1.5 ** (retry - 1), 15)`. */
  function RetryDelay(retry: nat): real
    requires retry >= 1
  {
    RMin(InitialRetryDelay * Pow(RetryBackoffFactor, retry - 1), MaxRetryDelay)
  }

  /** `_handle_connection_failure`: the retry count grows up to its cap, the failure count grows
      without one, availability is lost only from the third consecutive failure on, and the
      next attempt is pushed back by the back-off delay for the new retry count, which the cap on
      the retry count keeps at or below 2.53125 s. Nothing else changes. */
  function HandleConnectionFailure(c: Client, error: string, now: Time): (r: Client)
    ensures r.retryCount == if c.retryCount < MaxRetryAttempts then c.retryCount + 1 else MaxRetryAttempts
    ensures r.consecutiveFailures == c.consecutiveFailures + 1
    ensures r.available <==> c.available && r.consecutiveFailures < MaxConsecutiveFailures
    ensures r.retryCount >= 1 && r.nextRetryTime == now + RetryDelay(r.retryCount)
    ensures now + 0.5 <= r.nextRetryTime <= now + 2.53125
    ensures r.lastError == Some(error)
    ensures r.(retryCount := c.retryCount, consecutiveFailures := c.consecutiveFailures, available := c.available,
               nextRetryTime := c.nextRetryTime, lastError := c.lastError) == c
  {
    var retry := if c.retryCount + 1 <= MaxRetryAttempts then c.retryCount + 1 else MaxRetryAttempts;
    var failures := c.consecutiveFailures + 1;
    var available := if failures >= MaxConsecutiveFailures then false else c.available;
    RetryDelayBounds(retry);
    RetryDelayCapped(retry);
    c.(lastError := Some(error), retryCount := retry, consecutiveFailures := failures,
       available := available, nextRetryTime := now + RetryDelay(retry))
  }

  /** Every delay lies between the initial delay and the cap. */
  lemma RetryDelayBounds(retry: nat)
    requires retry >= 1
    ensures 0.5 <= RetryDelay(retry) <= 15.0
  {
  }

  /** The delay never shrinks as the retry count grows. */
  lemma RetryDelayMonotone(a: nat, b: nat)
    requires 1 <= a <= b
    ensures RetryDelay(a) <= RetryDelay(b)
  {
    PowMonotone(RetryBackoffFactor, a - 1, b - 1);
  }

  /** Because the retry count stops at 5, the delay never gets near the 15 s cap:
      it is at most `0.5 * 1.5 ** 4 = 2.53125`. */
  lemma RetryDelayCapped(retry: nat)
    requires 1 <= retry <= MaxRetryAttempts
    ensures RetryDelay(retry) <= 2.53125
    ensures retry == MaxRetryAttempts ==> RetryDelay(retry) == 2.53125
  {
    RetryDelayMonotone(retry, MaxRetryAttempts);
    assert Pow(1.5, 4) == 5.0625;
  }

  /** `n` consecutive connection failures at the same clock reading. */
  function FailRepeatedly(c: Client, n: nat, now: Time): Client
  {
    if n == 0 then c else HandleConnectionFailure(FailRepeatedly(c, n - 1, now), "failure", now)
  }

  /** Hysteresis: starting from a healthy client, the device stays available through two
      consecutive failures and becomes unavailable exactly at the third; the retry count
      saturates at 5 and the wait before the next attempt grows but stays within 0.5 .. 2.53125 s. */
  lemma {:induction false} FailuresFromHealthy(c: Client, n: nat, now: Time)
    requires Healthy(c)
    ensures var r := FailRepeatedly(c, n, now);
      && r.consecutiveFailures == n
      && (r.available <==> n < MaxConsecutiveFailures)
      && r.retryCount == (if n <= MaxRetryAttempts then n else MaxRetryAttempts)
      && (n >= 1 ==> r.nextRetryTime == now + RetryDelay(r.retryCount))
      && (n >= 1 ==> now + 0.5 <= r.nextRetryTime <= now + 2.53125)
  {
    if n > 0 {
      FailuresFromHealthy(c, n - 1, now);
      var r := FailRepeatedly(c, n, now);
      RetryDelayCapped(r.retryCount);
    }
  }

  /** Successive failures never bring the next attempt closer. */
  lemma FailureDelayGrows(c: Client, now: Time)
    requires 1 <= c.retryCount <= MaxRetryAttempts
    ensures var r := HandleConnectionFailure(c, "failure", now);
      r.nextRetryTime - now >= RetryDelay(c.retryCount)
  {
    var r := HandleConnectionFailure(c, "failure", now);
    RetryDelayMonotone(c.retryCount, r.retryCount);
  }

  // ---------------------------------------------------------------------------
  // Communication health

  /** `_mark_communication_success`: available again, error cleared, all counters and the
      back-off deadline zeroed, both timestamps set to now. */
  function MarkSuccess(c: Client, now: Time): (r: Client)
    ensures Healthy(r)
    ensures r.lastSuccess == now && r.lastActivity == now
    ensures r.(available := c.available, lastError := c.lastError, consecutiveFailures := c.consecutiveFailures,
               retryCount := c.retryCount, nextRetryTime := c.nextRetryTime,
               lastSuccess := c.lastSuccess, lastActivity := c.lastActivity) == c
  {
    c.(available := true, lastError := None, consecutiveFailures := 0, retryCount := 0,
       nextRetryTime := 0.0, lastSuccess := now, lastActivity := now)
  }

  /** `_mark_communication_failure`: one more consecutive failure and the same threshold as a
      connection failure; the retry count and back-off deadline are left alone. */
  function MarkFailure(c: Client, error: string, now: Time): (r: Client)
    ensures r.consecutiveFailures == c.consecutiveFailures + 1
    ensures r.available <==> c.available && r.consecutiveFailures < MaxConsecutiveFailures
    ensures r.lastError == Some(error) && r.lastActivity == now
    ensures r.retryCount == c.retryCount && r.nextRetryTime == c.nextRetryTime
    ensures r.(consecutiveFailures := c.consecutiveFailures, available := c.available,
               lastError := c.lastError, lastActivity := c.lastActivity) == c
  {
    var failures := c.consecutiveFailures + 1;
    c.(lastError := Some(error), consecutiveFailures := failures, lastActivity := now,
       available := if failures >= MaxConsecutiveFailures then false else c.available)
  }

  /** Communication failures have the same hysteresis as connection failures: `k` of them in a
      row add `k` to the count, and the device stays available exactly while the count is below 3.
      They never touch the retry count or the back-off deadline. */
  lemma {:induction false} CommunicationHysteresis(c: Client, k: nat, now: Time)
    ensures var r := MarkFailures(c, k, now);
      && r.consecutiveFailures == c.consecutiveFailures + k
      && (k > 0 ==> (r.available <==> c.available && c.consecutiveFailures + k < MaxConsecutiveFailures))
      && r.retryCount == c.retryCount && r.nextRetryTime == c.nextRetryTime
  {
    if k > 0 {
      CommunicationHysteresis(c, k - 1, now);
    }
  }

  /** `k` consecutive communication failures at the same clock reading. */
  function MarkFailures(c: Client, k: nat, now: Time): Client
  {
    if k == 0 then c else MarkFailure(MarkFailures(c, k - 1, now), "failure", now)
  }

  /** `_close_connection`: the writer is dropped and the read buffer cleared; availability is
      deliberately left to the failure counting. */
  function CloseConnection(c: Client): (r: Client)
    ensures !r.connected && r.buffer == ""
    ensures r.(connected := c.connected, buffer := c.buffer) == c
  {
    c.(connected := false, buffer := "")
  }

  /** `disconnect`: close, and zero the retry count, the back-off deadline and the failure count. */
  function Disconnect(c: Client): (r: Client)
    ensures !r.connected && r.buffer == ""
    ensures r.retryCount == 0 && r.nextRetryTime == 0.0 && r.consecutiveFailures == 0
    ensures r.available == c.available && r.info == c.info && r.lastState == c.lastState && r.ip == c.ip
  {
    CloseConnection(c).(retryCount := 0, nextRetryTime := 0.0, consecutiveFailures := 0)
  }

  /** After `disconnect` the client behaves like one that never failed: the next unforced
      connect is not held back, and it takes three fresh failures to lose availability. */
  lemma DisconnectForgetsFailures(c: Client, now: Time)
    requires c.available
    ensures var d := Disconnect(c);
      && !(now < d.nextRetryTime)
      && MarkFailures(d, 2, now).available
      && !MarkFailures(d, 3, now).available
  {
    CommunicationHysteresis(Disconnect(c), 2, now);
    CommunicationHysteresis(Disconnect(c), 3, now);
  }

  // ---------------------------------------------------------------------------
  // Connecting

  /** Why a connection attempt failed: the three "transient" kinds are retried within one
      call, anything else is not. */
  datatype FailureKind = TimedOut | Refused | NetworkError | OtherError

  /** How the dpid query that `connect()` makes after a handshake that left the dpid list empty
      ended: the `msg` of the answer carrying the query's serial number, if one arrived, and
      whether the connection was still open afterwards (an empty read, a failed resend or an
      unexpected error closes it, a timeout does not). */
  datatype QueryEnd = QueryEnd(answer: Option<Json>, stillOpen: bool)

  /** What one attempt of `_connect_internal` did. `Opened(reply, lookup, query)` covers opening
      the socket, the handshake and the dpid query: `reply` is the `msg` dict of the INFO answer
      (`None` when the read timed out, failed, or brought no dict `msg`), `lookup` finds a
      product model in the cloud pid list by the raw `pid` value, and `query` is how the dpid
      query ended, which matters only when the handshake left no dpids. `Failed(kind, wasOpen)`
      says whether the socket was already open when the exception came (a handshake timeout
      leaves it open). */
  datatype Attempt =
    | Opened(reply: Option<map<string, Json>>, lookup: Json -> Option<PidModel>, query: QueryEnd)
    | Failed(kind: FailureKind, wasOpen: bool)

  predicate Transient(a: Attempt) {
    a.Failed? && a.kind != OtherError
  }

  const QuickRetries: nat := 3

  /** The quick-retry loop from attempt `k` on. */
  function Attempts(c: Client, k: nat, now: Time, outcome: nat -> Attempt): (Client, bool)
    requires k < QuickRetries
    decreases QuickRetries - k
  {
    var c1 := if c.connected then CloseConnection(c) else c;
    var a := outcome(k);
    if a.Opened? then (OpenedClient(c1, a, now), true)
    else
      var c2 := c1.(connected := a.wasOpen);
      if a.kind != OtherError && k < QuickRetries - 1 then Attempts(c2, k + 1, now, outcome)
      else (HandleConnectionFailure(c2, "connection failed", now), false)
  }

  /** The client after an attempt that opened the socket: the handshake's information, with the
      dpids from the query when the handshake found none; healthy and online, and still connected
      unless the query lost the connection. The query ends with an empty read buffer. */
  function OpenedClient(c1: Client, a: Attempt, now: Time): (r: Client)
    requires a.Opened?
  {
    var queried := QueriesDpid(c1.info, a);
    MarkSuccess(c1, now).(connected := !queried || a.query.stillOpen, info := OpenedInfo(c1.info, a),
                          deviceState := Online, buffer := if queried then "" else c1.buffer)
  }

  /** The index of the first attempt that decides the call (success or a failure that is not
      retried), or the last attempt. */
  function DecidingAttempt(k: nat, outcome: nat -> Attempt): (d: nat)
    requires k < QuickRetries
    ensures k <= d < QuickRetries
    ensures forall j :: k <= j < d ==> Transient(outcome(j))
    ensures d < QuickRetries - 1 ==> !Transient(outcome(d))
    decreases QuickRetries - k
  {
    if Transient(outcome(k)) && k < QuickRetries - 1 then DecidingAttempt(k + 1, outcome) else k
  }

  /** `connect(force)`: with `force` the back-off deadline is zeroed first; then the gate refuses
      to try before the deadline, and otherwise up to three attempts are made. */
  function Connect(c: Client, force: bool, now: Time, outcome: nat -> Attempt): (r: (Client, bool))
  {
    var c0 := if force then c.(nextRetryTime := 0.0) else c;
    if now < c0.nextRetryTime then (c0, false)
    else Attempts(c0, 0, now, outcome)
  }

  /** The quick-retry loop never touches the reconnection delay of the receive loop, and sets
      the device state only to `online`. */
  lemma {:induction false} AttemptsKeepDelay(c: Client, k: nat, now: Time, outcome: nat -> Attempt)
    requires k < QuickRetries
    ensures var r := Attempts(c, k, now, outcome).0;
      && r.reconnectDelay == c.reconnectDelay
      && (r.deviceState == c.deviceState || r.deviceState == Online)
    decreases QuickRetries - k
  {
    var c1 := if c.connected then CloseConnection(c) else c;
    var a := outcome(k);
    if a.Opened? {
      assert Attempts(c, k, now, outcome).0 == OpenedClient(c1, a, now);
    } else {
      var c2 := c1.(connected := a.wasOpen);
      if a.kind != OtherError && k < QuickRetries - 1 {
        AttemptsKeepDelay(c2, k + 1, now, outcome);
      } else {
        var r := HandleConnectionFailure(c2, "connection failed", now);
        assert r.reconnectDelay == c.reconnectDelay by {
          assert r.(retryCount := c2.retryCount, consecutiveFailures := c2.consecutiveFailures,
                    available := c2.available, nextRetryTime := c2.nextRetryTime,
                    lastError := c2.lastError) == c2;
        }
      }
    }
  }

  /** The gate: before the deadline an unforced connect fails without touching anything. */
  lemma ConnectGateBlocks(c: Client, now: Time, outcome: nat -> Attempt)
    requires now < c.nextRetryTime
    ensures Connect(c, false, now, outcome) == (c, false)
  {
  }

  /** A forced connect is never held back: it succeeds exactly when the deciding attempt opened
      the connection; success leaves the client healthy and online with the information the
      handshake and the dpid query produced, connected unless that query lost the connection;
      failure counts exactly one connection failure. The same holds for an unforced connect
      once the deadline has passed. */
  lemma {:induction false} ConnectOutcome(c: Client, force: bool, now: Time, outcome: nat -> Attempt)
    requires force || now >= c.nextRetryTime
    ensures var (r, ok) := Connect(c, force, now, outcome);
      var d := DecidingAttempt(0, outcome);
      && (ok <==> outcome(d).Opened?)
      && (ok ==> Healthy(r) && r.deviceState == Online && r.info == OpenedInfo(c.info, outcome(d))
                 && (r.connected <==> !QueriesDpid(c.info, outcome(d)) || outcome(d).query.stillOpen)
                 && r.lastSuccess == now && r.ip == c.ip && r.lastState == c.lastState)
      && (!ok ==> r.consecutiveFailures == c.consecutiveFailures + 1
                  && r.retryCount == (if c.retryCount < MaxRetryAttempts then c.retryCount + 1 else MaxRetryAttempts)
                  && now + 0.5 <= r.nextRetryTime
                  && r.info == c.info && r.ip == c.ip && r.lastState == c.lastState
                  && r.connected == outcome(d).wasOpen)
  {
    var c0 := if force then c.(nextRetryTime := 0.0) else c;
    AttemptsOutcome(c0, 0, now, outcome);
  }

  /** What a connect call that was decided by attempt outcome `a` leaves behind, starting from `c`. */
  predicate ConnectResult(c: Client, r: Client, ok: bool, a: Attempt, now: Time) {
    && (ok <==> a.Opened?)
    && (ok ==> Healthy(r) && r.deviceState == Online && r.info == OpenedInfo(c.info, a)
               && (r.connected <==> !QueriesDpid(c.info, a) || a.query.stillOpen)
               && r.lastSuccess == now && r.ip == c.ip && r.lastState == c.lastState)
    && (!ok ==> r.consecutiveFailures == c.consecutiveFailures + 1
                && r.retryCount == (if c.retryCount < MaxRetryAttempts then c.retryCount + 1 else MaxRetryAttempts)
                && now + 0.5 <= r.nextRetryTime
                && r.info == c.info && r.ip == c.ip && r.lastState == c.lastState
                && r.connected == a.wasOpen)
  }

  /** The quick-retry loop from attempt `k` on ends as its deciding attempt says. */
  lemma {:induction false} AttemptsOutcome(c: Client, k: nat, now: Time, outcome: nat -> Attempt)
    requires k < QuickRetries
    ensures var (r, ok) := Attempts(c, k, now, outcome);
      ConnectResult(c, r, ok, outcome(DecidingAttempt(k, outcome)), now)
    decreases QuickRetries - k
  {
    var a := outcome(k);
    if a.Opened? {
      AttemptsOpened(c, k, now, outcome);
    } else if a.kind != OtherError && k < QuickRetries - 1 {
      var c2 := (if c.connected then CloseConnection(c) else c).(connected := a.wasOpen);
      AttemptsOutcome(c2, k + 1, now, outcome);
      AttemptsRetried(c, k, now, outcome);
    } else {
      AttemptsGaveUp(c, k, now, outcome);
    }
  }

  /** An attempt that opens the connection ends the loop. */
  lemma AttemptsOpened(c: Client, k: nat, now: Time, outcome: nat -> Attempt)
    requires k < QuickRetries && outcome(k).Opened?
    ensures var (r, ok) := Attempts(c, k, now, outcome);
      ConnectResult(c, r, ok, outcome(DecidingAttempt(k, outcome)), now)
  {
    assert DecidingAttempt(k, outcome) == k;
    OpenedResult(c, outcome(k), now);
  }

  /** A transient failure before the last attempt hands over to the next attempt. */
  lemma AttemptsRetried(c: Client, k: nat, now: Time, outcome: nat -> Attempt)
    requires k < QuickRetries - 1 && Transient(outcome(k))
    requires var c2 := (if c.connected then CloseConnection(c) else c).(connected := outcome(k).wasOpen);
      var (r, ok) := Attempts(c2, k + 1, now, outcome);
      ConnectResult(c2, r, ok, outcome(DecidingAttempt(k + 1, outcome)), now)
    ensures var (r, ok) := Attempts(c, k, now, outcome);
      ConnectResult(c, r, ok, outcome(DecidingAttempt(k, outcome)), now)
  {
    var a := outcome(k);
    var c2 := (if c.connected then CloseConnection(c) else c).(connected := a.wasOpen);
    FailedAttemptKeeps(c, a.wasOpen);
    assert DecidingAttempt(k, outcome) == DecidingAttempt(k + 1, outcome);
    assert Attempts(c, k, now, outcome) == Attempts(c2, k + 1, now, outcome);
    var (r, ok) := Attempts(c2, k + 1, now, outcome);
    ResultCarriesOver(c, c2, r, ok, outcome(DecidingAttempt(k + 1, outcome)), now);
  }

  /** A failure that is not transient, or on the last attempt, ends the loop. */
  lemma AttemptsGaveUp(c: Client, k: nat, now: Time, outcome: nat -> Attempt)
    requires k < QuickRetries && outcome(k).Failed?
    requires outcome(k).kind == OtherError || k == QuickRetries - 1
    ensures var (r, ok) := Attempts(c, k, now, outcome);
      ConnectResult(c, r, ok, outcome(DecidingAttempt(k, outcome)), now)
  {
    var a := outcome(k);
    var c2 := (if c.connected then CloseConnection(c) else c).(connected := a.wasOpen);
    FailedAttemptKeeps(c, a.wasOpen);
    assert DecidingAttempt(k, outcome) == k;
    FailedResult(c2, a.kind, a.wasOpen, now);
  }

  /** An attempt that opens the connection decides the call successfully. */
  lemma OpenedResult(c: Client, a: Attempt, now: Time)
    requires a.Opened?
    ensures var c1 := if c.connected then CloseConnection(c) else c;
      ConnectResult(c, OpenedClient(c1, a, now), true, a, now)
  {
  }

  /** A failure that ends the loop counts one connection failure. */
  lemma FailedResult(c2: Client, kind: FailureKind, wasOpen: bool, now: Time)
    requires c2.connected == wasOpen
    ensures ConnectResult(c2, HandleConnectionFailure(c2, "connection failed", now), false, Failed(kind, wasOpen), now)
  {
  }

  /** A result stated from a client with the same counters, info, address and cache holds from
      the original client too. */
  lemma ResultCarriesOver(c: Client, c2: Client, r: Client, ok: bool, a: Attempt, now: Time)
    requires c2.consecutiveFailures == c.consecutiveFailures && c2.retryCount == c.retryCount
    requires c2.info == c.info && c2.ip == c.ip && c2.lastState == c.lastState
    requires ConnectResult(c2, r, ok, a, now)
    ensures ConnectResult(c, r, ok, a, now)
  {
  }

  /** A failed attempt leaves the counters, the info, the address and the cache alone. */
  lemma FailedAttemptKeeps(c: Client, wasOpen: bool)
    ensures var c2 := (if c.connected then CloseConnection(c) else c).(connected := wasOpen);
      && c2.consecutiveFailures == c.consecutiveFailures && c2.retryCount == c.retryCount
      && c2.info == c.info && c2.ip == c.ip && c2.lastState == c.lastState && c2.connected == wasOpen
  {
  }

  // ---------------------------------------------------------------------------
  // IP changes and the cached state

  /** `update_ip`: a different address replaces the old one and resets the retry count, the
      back-off deadline and the reconnect delay; the same address changes nothing. */
  function UpdateIp(c: Client, newIp: string): (r: (Client, bool))
    ensures r.1 <==> newIp != c.ip
    ensures !r.1 ==> r.0 == c
    ensures r.1 ==> r.0.ip == newIp && r.0.retryCount == 0 && r.0.nextRetryTime == 0.0
                    && r.0.reconnectDelay == ReconnectMinInterval
                    && r.0.(ip := c.ip, retryCount := c.retryCount, nextRetryTime := c.nextRetryTime,
                            reconnectDelay := c.reconnectDelay) == c
  {
    if newIp == c.ip then (c, false)
    else (c.(ip := newIp, retryCount := 0, nextRetryTime := 0.0, reconnectDelay := ReconnectMinInterval), true)
  }

  /** Applying `update_ip` twice with the same address changes nothing the second time. */
  lemma UpdateIpIdempotent(c: Client, newIp: string)
    ensures UpdateIp(UpdateIp(c, newIp).0, newIp) == (UpdateIp(c, newIp).0, false)
  {
  }

  /** `reconnect_with_new_ip`: take the new address (if it differs), drop the connection and
      connect with `force`. */
  function ReconnectWithNewIp(c: Client, newIp: string, now: Time, outcome: nat -> Attempt): (r: (Client, bool))
  {
    Connect(CloseConnection(UpdateIp(c, newIp).0), true, now, outcome)
  }

  /** The client ends at the new address whatever the connection does; it connects exactly when
      the deciding attempt opened; and after a real move a failed reconnection is counted as the
      first retry, the earlier retry count having been reset. */
  lemma ReconnectWithNewIpSpec(c: Client, newIp: string, now: Time, outcome: nat -> Attempt)
    ensures var (r, ok) := ReconnectWithNewIp(c, newIp, now, outcome);
      && r.ip == newIp
      && (ok <==> outcome(DecidingAttempt(0, outcome)).Opened?)
      && (ok ==> Healthy(r) && r.deviceState == Online
                 && (r.connected <==> !QueriesDpid(c.info, outcome(DecidingAttempt(0, outcome)))
                                      || outcome(DecidingAttempt(0, outcome)).query.stillOpen))
      && (!ok && newIp != c.ip ==> r.retryCount == 1 && r.consecutiveFailures == c.consecutiveFailures + 1)
  {
    ConnectOutcome(CloseConnection(UpdateIp(c, newIp).0), true, now, outcome);
  }

  /** `dict.update` on the cached state: the update's keys take its values, all other keys keep theirs. */
  function Merge(last: map<string, Json>, update: map<string, Json>): (m: map<string, Json>)
    ensures m.Keys == last.Keys + update.Keys
    ensures forall k :: k in update ==> m[k] == update[k]
    ensures forall k :: k in last && k !in update ==> m[k] == last[k]
  {
    last + update
  }

  /** `_dispatch_state`: a non-empty update is merged into the cached state; an empty one leaves it. */
  function DispatchState(c: Client, state: map<string, Json>): (r: Client)
    ensures |state| == 0 ==> r == c
    ensures r.lastState.Keys == c.lastState.Keys + state.Keys
    ensures forall k :: k in state ==> r.lastState[k] == state[k]
    ensures forall k :: k in c.lastState && k !in state ==> r.lastState[k] == c.lastState[k]
    ensures r.(lastState := c.lastState) == c
  {
    if |state| > 0 then c.(lastState := Merge(c.lastState, state)) else c
  }

  /** Dispatching the same update twice is the same as dispatching it once. */
  lemma DispatchIdempotent(c: Client, state: map<string, Json>)
    ensures DispatchState(DispatchState(c, state), state) == DispatchState(c, state)
  {
    var r := DispatchState(c, state);
    assert DispatchState(r, state).lastState == r.lastState;
  }

  // ---------------------------------------------------------------------------
  // Device info

  /** Python's `str(x)` for the scalar JSON values a device sends; containers are written
      as their compact JSON text. A truthy value never renders empty. */
  function PyStr(j: Json): (r: string)
    ensures Truthy(j) ==> r != ""
    ensures j.JStr? ==> r == j.s
  {
    match j
    case JNull => "None"
    case JBool(b) => if b then "True" else "False"
    case JInt(i) => IntToString(i)
    case JStr(s) => s
    case _ => Serialize(j)
  }

  /** The data-point ids that mark a light. */
  predicate HasLightDpid(dpid: seq<string>) {
    DpidTemp in dpid || DpidBright in dpid || DpidHue in dpid || DpidSat in dpid
  }

  /** Type inference from data-point ids: with no type code yet and some dpids, a light
      ("01") if any of 3, 4, 5, 6 is listed, otherwise a switch ("00"). */
  function InferType(info: DeviceInfo): (r: DeviceInfo)
    ensures r.(typeCode := info.typeCode) == info
    ensures info.typeCode != "" || |info.dpid| == 0 ==> r == info
    ensures info.typeCode == "" && |info.dpid| > 0 ==>
      (r.typeCode == LightTypeCode <==> HasLightDpid(info.dpid))
      && (r.typeCode == SwitchTypeCode <==> !HasLightDpid(info.dpid))
  {
    if info.typeCode == "" && |info.dpid| > 0 then
      info.(typeCode := if HasLightDpid(info.dpid) then LightTypeCode else SwitchTypeCode)
    else info
  }

  /** One product model of the cloud pid list (looked up by pid; the list itself is not modelled). */
  datatype PidModel = PidModel(icon: string, modelName: string, dpid: seq<string>, category: string)

  /** The part of `_device_info` after the INFO answer's `msg` dict has been found. A `did` that
      is missing or null ends it. Otherwise the id and name are stored (a falsy id or name as the
      empty string, since every reader only tests them for truth), a truthy `dtp` becomes the type
      code, a non-null `pid` is stored and looked up as it came in the pid list, whose match sets
      the icon, model name and dpids and, when no type is known yet, the category; finally the
      type is inferred from the dpids if still unknown. */
  function ApplyDeviceInfo(info: DeviceInfo, msg: map<string, Json>, lookup: Json -> Option<PidModel>): (r: DeviceInfo)
    ensures ("did" !in msg || msg["did"] == JNull) ==> r == info
    ensures ("did" in msg && msg["did"] != JNull) ==>
      && (r.deviceId != "" <==> Truthy(msg["did"]))
      && (Truthy(msg["did"]) ==> r.deviceId == PyStr(msg["did"]))
      && (r.deviceName != "" <==> "name" in msg && Truthy(msg["name"]))
      && ("name" in msg && Truthy(msg["name"]) ==> r.deviceName == PyStr(msg["name"]))
      && ("dtp" in msg && Truthy(msg["dtp"]) ==> r.typeCode == PyStr(msg["dtp"]))
  {
    if "did" !in msg || msg["did"] == JNull then info
    else
      var did := msg["did"];
      var i1 := info.(deviceId := if Truthy(did) then PyStr(did) else "",
                      deviceName := if "name" in msg && Truthy(msg["name"]) then PyStr(msg["name"]) else "");
      var i2 := if "dtp" in msg && Truthy(msg["dtp"]) then i1.(typeCode := PyStr(msg["dtp"])) else i1;
      var i3 :=
        if "pid" !in msg || msg["pid"] == JNull then i2
        else
          var p := i2.(pid := PyStr(msg["pid"]));
          match lookup(msg["pid"])
          case None => p
          case Some(m) =>
            var q := p.(icon := m.icon, modelName := m.modelName, dpid := m.dpid);
            if q.typeCode == "" then q.(typeCode := m.category) else q;
      InferType(i3)
  }

  /** A pid-list match replaces the dpid list outright, so a model entry with no dpids clears a
      non-empty list learned earlier: the dpid list is not monotone. */
  lemma PidLookupClearsDpid()
    ensures var info := EmptyInfo.(dpid := ["1", "4"]);
      var msg := map["did" := JStr("abc"), "pid" := JStr("p1")];
      var lookup := (j: Json) => if j == JStr("p1") then Some(PidModel("", "", [], "01")) else None;
      ApplyDeviceInfo(info, msg, lookup).dpid == []
  {
  }

  /** The pid is looked up as it came: a numeric pid does not find the model listed under its
      decimal text, and the device keeps its type unknown. */
  lemma PidLookupIsRaw()
    ensures var msg := map["did" := JStr("abc"), "pid" := JInt(7)];
      var lookup := (j: Json) => if j == JStr("7") then Some(PidModel("", "", ["1"], "00")) else None;
      var r := ApplyDeviceInfo(EmptyInfo, msg, lookup);
      r.pid == "7" && r.dpid == [] && r.typeCode == ""
  {
  }

  /** A falsy id still ends the handshake's early-return check but leaves the device without an
      id, and a null name leaves it without a name. */
  lemma FalsyIdentity()
    ensures var r := ApplyDeviceInfo(EmptyInfo, map["did" := JInt(0), "name" := JNull], (j: Json) => None);
      r.deviceId == "" && r.deviceName == ""
  {
  }

  /** The handshake's type-code precedence: a truthy `dtp` wins over the pid list's category
      and over inference; the category wins over inference. */
  lemma DeviceInfoTypePrecedence(info: DeviceInfo, msg: map<string, Json>, lookup: Json -> Option<PidModel>)
    requires "did" in msg && msg["did"] != JNull
    ensures var r := ApplyDeviceInfo(info, msg, lookup);
      && ("dtp" in msg && Truthy(msg["dtp"]) ==> r.typeCode == PyStr(msg["dtp"]))
      && (!("dtp" in msg && Truthy(msg["dtp"])) && info.typeCode == "" && "pid" in msg && msg["pid"] != JNull
          && lookup(msg["pid"]).Some? && lookup(msg["pid"]).value.category != ""
          ==> r.typeCode == lookup(msg["pid"]).value.category)
  {
  }

  /** The dpid capture of a query answer's `msg`: an empty dpid list takes the `str()` of each
      element of a list `attr`; a known list, or a `msg` without a list `attr`, changes nothing.
      Only the dpid list ever changes. */
  function CaptureDpid(info: DeviceInfo, msg: Json): (r: DeviceInfo)
    ensures |info.dpid| > 0 ==> r == info
    ensures r.(dpid := info.dpid) == info
    ensures |info.dpid| == 0 && Get(msg, "attr").Some? && Get(msg, "attr").value.JArr? ==>
      |r.dpid| == |Get(msg, "attr").value.items|
      && forall k :: 0 <= k < |r.dpid| ==> r.dpid[k] == PyStr(Get(msg, "attr").value.items[k])
    ensures !(Get(msg, "attr").Some? && Get(msg, "attr").value.JArr?) ==> r == info
  {
    match Get(msg, "attr")
    case Some(JArr(items)) =>
      if |info.dpid| == 0 then info.(dpid := seq(|items|, k requires 0 <= k < |items| => PyStr(items[k])))
      else info
    case _ => info
  }

  // ---------------------------------------------------------------------------
  // The handshake of a connection attempt

  /** The device information after the handshake of an opened attempt: a missing INFO answer
      changes nothing. */
  function HandshakeInfo(info: DeviceInfo, a: Attempt): (r: DeviceInfo)
    requires a.Opened?
    ensures a.reply.None? ==> r == info
  {
    if a.reply.None? then info else ApplyDeviceInfo(info, a.reply.value, a.lookup)
  }

  /** `connect()` runs the dpid query exactly when the handshake left no dpids. */
  predicate QueriesDpid(info: DeviceInfo, a: Attempt)
    requires a.Opened?
  {
    |HandshakeInfo(info, a).dpid| == 0
  }

  /** The device information an opened attempt leaves: the handshake's, with the dpids of the
      query's answer when it ran. */
  function OpenedInfo(info: DeviceInfo, a: Attempt): (r: DeviceInfo)
    requires a.Opened?
  {
    var h := HandshakeInfo(info, a);
    if QueriesDpid(info, a) && a.query.answer.Some? then CaptureDpid(h, a.query.answer.value) else h
  }

  /** What an opened attempt learns: everything but the dpid list is the handshake's, the type
      code included, because the query runs after the type inference; a handshake that found
      dpids keeps them, and otherwise the dpids are those of a list `attr` in the query's answer,
      or none. */
  lemma OpenedInfoSpec(info: DeviceInfo, a: Attempt)
    requires a.Opened?
    ensures var h := HandshakeInfo(info, a);
      var r := OpenedInfo(info, a);
      && r.(dpid := h.dpid) == h
      && r.typeCode == h.typeCode
      && (|h.dpid| > 0 ==> r == h)
      && (|h.dpid| == 0 && a.query.answer.Some? && Get(a.query.answer.value, "attr").Some?
          && Get(a.query.answer.value, "attr").value.JArr? ==>
            var items := Get(a.query.answer.value, "attr").value.items;
            |r.dpid| == |items| && forall k :: 0 <= k < |items| ==> r.dpid[k] == PyStr(items[k]))
      && (|h.dpid| == 0 && !(a.query.answer.Some? && Get(a.query.answer.value, "attr").Some?
                              && Get(a.query.answer.value, "attr").value.JArr?) ==>
            r.dpid == [])
  {
  }

  /** A device that the handshake cannot type (no `dtp`, no pid match, no dpids) stays untyped
      even when the query's answer lists the dpids of a light: the inference never sees them. */
  lemma QueriedDpidsStayUntyped(info: DeviceInfo, a: Attempt)
    requires a.Opened? && HandshakeInfo(info, a).typeCode == "" && QueriesDpid(info, a)
    ensures OpenedInfo(info, a).typeCode == ""
    ensures a.query.answer.Some? && Get(a.query.answer.value, "attr") == Some(JArr([JInt(1), JInt(3), JInt(4)])) ==>
      HasLightDpid(OpenedInfo(info, a).dpid)
  {
    OpenedInfoSpec(info, a);
    if a.query.answer.Some? && Get(a.query.answer.value, "attr") == Some(JArr([JInt(1), JInt(3), JInt(4)])) {
      var r := OpenedInfo(info, a);
      assert r.dpid[1] == PyStr(JInt(3)) == DpidTemp;
    }
  }
}
