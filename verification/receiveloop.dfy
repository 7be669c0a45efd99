/** One iteration of `_receive_loop`, the background task that keeps a device connected and
    listens for pushed updates. Phase 1 (re)connects when the writer is gone, with its own
    reconnection back-off; phase 2 performs one read. Everything the socket, the device and the
    clock do in an iteration is an argument: the outcomes of the connection attempts, what the
    connection does for the state query that follows a connect, what the read produced and
    whether a heartbeat could be sent. */
module ReceiveLoop {
  import opened Wrappers
  import opened JsonValue
  import opened Const
  import opened Client
  import opened Exchange

  /** What `reader.read(1024)` did within the receive-loop timeout. */
  datatype LoopRead =
    | ReaderGone              // the reader object is missing
    | Received(text: string)  // a non-empty read, decoded
    | ClosedByDevice          // an empty read
    | Idle                    // the read timed out
    | Broken(error: string)   // a connection or OS error

  /** The environment of one iteration. */
  datatype Iteration = Iteration(
    outcome: nat -> Attempt,             // the connection attempts, if phase 1 runs
    sn: string,                          // the serial number of the state query
    query: Transport,                    // the state query's exchange, if it goes to the device
    read: LoopRead,                      // the phase-2 read
    heartbeatSent: bool)                 // whether `_send_heartbeat_internal` managed to write

  /** The reconnection delay after a phase-1 connect: back to the minimum on success, otherwise
      grown by the factor and capped (`min(d * 1.5, 300)`). */
  function NextDelay(d: real, connected: bool): real {
    if connected then ReconnectMinInterval else RMin(d * ReconnectBackoffFactor, ReconnectMaxInterval)
  }

  /** `needs_heartbeat()`: an open connection that has been idle for the heartbeat interval. */
  predicate NeedsHeartbeat(c: Client, now: Time) {
    c.connected && now - c.lastActivity >= HeartbeatInterval
  }

  /** What phase 2 reads: a closed connection has no reader, whatever the socket would do. */
  function Read(c: Client, it: Iteration): LoopRead {
    if c.connected then it.read else ReaderGone
  }

  /** Phase 2: the state is set to online and one read is handled. */
  function ReadPhase(c: Client, it: Iteration, parse: string -> Option<Json>, now: Time): (r: Client)
  {
    var c0 := c.(deviceState := Online);
    match Read(c, it)
    case ReaderGone => CloseConnection(c0)
    case ClosedByDevice => CloseConnection(MarkFailure(c0, "Connection closed by device", now))
    case Received(text) => MarkSuccess(ProcessReceived(c0, text, parse, now), now)
    case Idle =>
      if NeedsHeartbeat(c0, now) then
        if it.heartbeatSent then c0.(lastActivity := now) else CloseConnection(c0)
      else c0
    case Broken(e) => CloseConnection(MarkFailure(c0, e, now))
  }

  /** Phase 1 on a client without a connection: state `connecting`, a forced connect, and then
      either `online` with the delay reset and `query()` dispatched (the cache when there is one,
      otherwise an exchange with the device, which may itself lose the connection), or `offline`
      with the delay grown. The boolean says whether the iteration goes on to phase 2. */
  function ConnectPhase(c: Client, it: Iteration, parse: string -> Option<Json>, now: Time): (r: (Client, bool))
  {
    var (c1, ok) := Connect(c.(deviceState := Connecting), true, now, it.outcome);
    if ok then
      var c2 := c1.(deviceState := Online, reconnectDelay := ReconnectMinInterval);
      var (c3, state) := Query(c2, true, it.sn, it.query, parse, now);
      (DispatchState(c3, state), true)
    else
      (c1.(deviceState := Offline, reconnectDelay := NextDelay(c1.reconnectDelay, false)), false)
  }

  /** One iteration of `_receive_loop` while it is not closing. */
  function Step(c: Client, it: Iteration, parse: string -> Option<Json>, now: Time): (r: Client)
  {
    if c.connected then ReadPhase(c, it, parse, now)
    else
      var (c1, go) := ConnectPhase(c, it, parse, now);
      if go then ReadPhase(c1, it, parse, now) else c1
  }

  // ---------------------------------------------------------------------------
  // Properties

  /** The read phase never touches the reconnection delay, the address or the device info, and
      leaves the state `online`. A closed connection has no reader and stays closed, with no
      failure counted and the cache kept. On an open one, a non-empty read ends healthy; an empty
      read or an error counts one communication failure and drops the connection; a failed
      heartbeat drops the connection without counting a failure; an idle connection that needs
      no heartbeat is kept. */
  lemma ReadPhaseSpec(c: Client, it: Iteration, parse: string -> Option<Json>, now: Time)
    ensures var r := ReadPhase(c, it, parse, now);
      && r.reconnectDelay == c.reconnectDelay && r.ip == c.ip && r.info == c.info
      && r.deviceState == Online
      && (!c.connected ==>
            !r.connected && r.consecutiveFailures == c.consecutiveFailures && r.lastState == c.lastState)
      && (c.connected && it.read.Received? ==> Healthy(r) && r.lastSuccess == now)
      && (c.connected && (it.read.ClosedByDevice? || it.read.Broken?) ==>
            !r.connected && r.consecutiveFailures == c.consecutiveFailures + 1
            && r.retryCount == c.retryCount && r.lastState == c.lastState)
      && (c.connected && it.read.Idle? ==>
            r.consecutiveFailures == c.consecutiveFailures && r.lastState == c.lastState
            && (r.connected <==> !NeedsHeartbeat(c, now) || it.heartbeatSent))
  {
    var c0 := c.(deviceState := Online);
    match Read(c, it) {
      case Received(text) =>
        ProcessReceivedSpec(c0, text, parse, now, "");
        assert ReadPhase(c, it, parse, now) == MarkSuccess(ProcessReceived(c0, text, parse, now), now);
      case ClosedByDevice =>
        assert ReadPhase(c, it, parse, now) == CloseConnection(MarkFailure(c0, "Connection closed by device", now));
      case Broken(e) =>
        assert ReadPhase(c, it, parse, now) == CloseConnection(MarkFailure(c0, e, now));
      case ReaderGone =>
      case Idle =>
    }
  }

  /** Phase 1 succeeds exactly when the deciding connection attempt opened the connection; the
      address is kept and the delay becomes `NextDelay` of the result. On success the client is
      online at the minimum delay. With a cache, nothing is sent: the client is exactly as the
      connect left it, healthy with the handshake's information, connected unless the dpid query
      lost the connection. Without one, the state query goes to the device, and a cache it fills
      means that exchange succeeded. On failure the client is offline, has counted one
      connection failure and keeps its cache. */
  lemma ConnectPhaseSpec(c: Client, it: Iteration, parse: string -> Option<Json>, now: Time)
    ensures var (r, go) := ConnectPhase(c, it, parse, now);
      var a := it.outcome(DecidingAttempt(0, it.outcome));
      && (go <==> a.Opened?)
      && r.reconnectDelay == NextDelay(c.reconnectDelay, go)
      && r.ip == c.ip
      && (go ==> r.deviceState == Online)
      && (go && |c.lastState| > 0 ==>
            Healthy(r) && r.info == OpenedInfo(c.info, a) && r.lastState == c.lastState
            && (r.connected <==> !QueriesDpid(c.info, a) || a.query.stillOpen))
      && (go && |c.lastState| == 0 && |r.lastState| > 0 ==> Healthy(r) && r.lastSuccess == now)
      && (!go ==> r.deviceState == Offline && r.consecutiveFailures == c.consecutiveFailures + 1
                  && r.lastState == c.lastState)
  {
    var c0 := c.(deviceState := Connecting);
    ConnectOutcome(c0, true, now, it.outcome);
    var (c1, ok) := Connect(c0, true, now, it.outcome);
    if ok {
      var c2 := c1.(deviceState := Online, reconnectDelay := ReconnectMinInterval);
      QueryWhileLoopRuns(c2, it.sn, it.query, parse, now);
      SendReceiveSpec(c2, it.sn, it.query, parse, now);
    }
  }

  /** The reconnection delay only moves in phase 1: a connected iteration keeps it, a
      disconnected one applies `NextDelay` with the connect result. */
  lemma StepDelay(c: Client, it: Iteration, parse: string -> Option<Json>, now: Time)
    ensures var r := Step(c, it, parse, now);
      && (c.connected ==> r.reconnectDelay == c.reconnectDelay)
      && (!c.connected ==> r.reconnectDelay == NextDelay(c.reconnectDelay, ConnectPhase(c, it, parse, now).1))
  {
    if c.connected {
      ReadPhaseSpec(c, it, parse, now);
    } else {
      var (c1, go) := ConnectPhase(c, it, parse, now);
      ConnectPhaseSpec(c, it, parse, now);
      if go {
        ReadPhaseSpec(c1, it, parse, now);
      }
    }
  }

  /** The delay stays within `[5, 300]` once it is there (a new client starts at 5, and
      `update_ip` resets it to 5). */
  lemma DelayStaysInRange(c: Client, it: Iteration, parse: string -> Option<Json>, now: Time)
    requires ReconnectMinInterval <= c.reconnectDelay <= ReconnectMaxInterval
    ensures ReconnectMinInterval <= Step(c, it, parse, now).reconnectDelay <= ReconnectMaxInterval
  {
    StepDelay(c, it, parse, now);
  }

  /** The delay after `n` failed reconnections in a row. */
  function DelayAfterFailures(d: real, n: nat): real {
    if n == 0 then d else NextDelay(DelayAfterFailures(d, n - 1), false)
  }

  /** `d * 1.5 ** n`, the uncapped delay. */
  function Grown(d: real, n: nat): (r: real)
    ensures d >= 0.0 ==> r >= 0.0
  {
    if n == 0 then d else Grown(d, n - 1) * ReconnectBackoffFactor
  }

  /** Closed form: `n` failed reconnections from delay `d` wait `min(d * 1.5 ** n, 300)`. */
  lemma {:induction false} DelayClosedForm(d: real, n: nat)
    requires 0.0 <= d <= ReconnectMaxInterval
    ensures DelayAfterFailures(d, n) == RMin(Grown(d, n), ReconnectMaxInterval)
  {
    if n > 0 {
      DelayClosedForm(d, n - 1);
      CapThenGrow(Grown(d, n - 1));
    }
  }

  /** Capping before growing makes no difference once the result is capped again. */
  lemma CapThenGrow(x: real)
    requires x >= 0.0
    ensures NextDelay(RMin(x, ReconnectMaxInterval), false) == RMin(x * ReconnectBackoffFactor, ReconnectMaxInterval)
  {
    if x > ReconnectMaxInterval {
      assert x * ReconnectBackoffFactor > ReconnectMaxInterval;
    }
  }

  /** From the minimum, the tenth failure still waits less than the cap and the eleventh
      reaches it: `5 * 1.5 ** 10 ≈ 288` and `5 * 1.5 ** 11 ≈ 432`. */
  lemma DelayReachesCap()
    ensures DelayAfterFailures(ReconnectMinInterval, 10) < ReconnectMaxInterval
    ensures DelayAfterFailures(ReconnectMinInterval, 11) == ReconnectMaxInterval
  {
    DelayClosedForm(ReconnectMinInterval, 10);
    DelayClosedForm(ReconnectMinInterval, 11);
    assert Grown(ReconnectMinInterval, 10) == 288.3251953125;
  }

  /** Once the device is connected, an iteration whose read brings data leaves it healthy and
      online, and one whose read is empty or fails leaves it disconnected with one more failure,
      so the next iteration reconnects. */
  lemma ConnectedIteration(c: Client, it: Iteration, parse: string -> Option<Json>, now: Time)
    requires c.connected
    ensures var r := Step(c, it, parse, now);
      && r.deviceState == Online && r.reconnectDelay == c.reconnectDelay
      && (it.read.Received? ==> Healthy(r) && r.connected == c.connected)
      && (it.read.ClosedByDevice? || it.read.Broken? ==> !r.connected && r.consecutiveFailures == c.consecutiveFailures + 1)
  {
    ReadPhaseSpec(c, it, parse, now);
    if it.read.Received? {
      ProcessReceivedSpec(c.(deviceState := Online), it.read.text, parse, now, "");
    }
  }
}
