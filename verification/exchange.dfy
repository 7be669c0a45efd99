/** Reading device traffic on an open connection: the response wait of
    `_send_receiver_internal` (up to five events, partial data kept in the read
    buffer) and `_process_received_data`, which turns pushed lines into state
    updates. Each read is an argument: what the socket delivered on that attempt. */
module Exchange {
  import opened Wrappers
  import opened Text
  import opened JsonValue
  import opened Const
  import opened Codec
  import opened Client

  /** What one `reader.read(1024)` produced. `Chunk` holds the decoded text of a non-empty read. */
  datatype ReadEvent = Chunk(text: string) | EmptyRead | ReadTimeout | ReadError(error: string)

  /** How a matched response ends the wait: a `msg` that is not a dict gives `{}` with no health
      change, a `data` that is not a dict likewise (after the dpid capture), and otherwise the
      exchange succeeded and `data` is the result. */
  function FinishResponse(c: Client, resp: Json, now: Time): (r: (Client, map<string, Json>))
  {
    match Get(resp, "msg")
    case Some(msg) =>
      if !msg.JObj? then (c, map[])
      else
        var c1 := c.(info := CaptureDpid(c.info, msg));
        (match Get(msg, "data")
         case Some(JObj(fields)) => (MarkSuccess(c1, now), ToMap(fields))
         case _ => (c1, map[]))
    case None => (c, map[])
  }

  /** A matched response never touches the buffer, address or cache, keeps a known dpid list,
      and returns data only on success. */
  lemma FinishResponseSpec(c: Client, resp: Json, now: Time)
    ensures var (r, data) := FinishResponse(c, resp, now);
      && r.buffer == c.buffer && r.ip == c.ip && r.lastState == c.lastState
      && (|c.info.dpid| > 0 ==> r.info == c.info)
      && (|data| > 0 ==> Healthy(r) && r.lastSuccess == now)
      && (Healthy(r) || (r.consecutiveFailures == c.consecutiveFailures
                         && r.retryCount == c.retryCount && r.nextRetryTime == c.nextRetryTime))
  {
  }

  /** What the read buffer holds after a read: no mention of the serial number (keep reading and
      keep the buffer), a mention without a usable answer (clear it and keep reading), or the
      answer (a non-empty object from `_parse_json_lines`). */
  datatype Scan = NoSerial | NoAnswer | Answer(resp: Json)

  function ScanBuffer(buf: string, sn: string, parse: string -> Option<Json>): (r: Scan)
  {
    if !Contains(buf, sn) then NoSerial
    else
      var resp := ParseJsonLines(buf, sn, parse);
      if resp.None? || !Truthy(resp.value) then NoAnswer else Answer(resp.value)
  }

  /** The outcome of one read: keep waiting with an updated client, or finish with a result. */
  datatype Step = Continue(next: Client) | Done(client: Client, data: map<string, Json>)

  /** The scan `_send_receiver_internal` applies to its buffer, waiting for serial number `sn`. */
  function Scanner(sn: string, parse: string -> Option<Json>): (scan: string -> Scan)
    ensures forall buf :: scan(buf) == ScanBuffer(buf, sn, parse)
  {
    buf => ScanBuffer(buf, sn, parse)
  }

  /** One iteration of the read loop of `_send_receiver_internal` (attempt `attempt` of five). */
  function ReadStep(c: Client, attempt: nat, event: ReadEvent, scan: string -> Scan, now: Time): (s: Step)
  {
    match event
    case EmptyRead => Done(CloseConnection(MarkFailure(c, "Empty response", now)), map[])
    case ReadError(e) => Done(CloseConnection(MarkFailure(c.(buffer := ""), e, now)), map[])
    case ReadTimeout =>
      if attempt == MaxRetryAttempts - 1 then Done(MarkFailure(c.(buffer := ""), "Response timeout", now), map[])
      else Continue(c.(buffer := ""))
    case Chunk(text) =>
      var buf := c.buffer + text;
      (match scan(buf)
       case NoSerial => Continue(c.(buffer := buf))
       case NoAnswer => Continue(c.(buffer := ""))
       case Answer(resp) =>
         var (r, data) := FinishResponse(c.(buffer := ""), resp, now);
         Done(r, data))
  }

  /** What one read preserves. */
  predicate StepKeeps(c: Client, s: Step, now: Time) {
    match s
    case Continue(n) =>
      n.ip == c.ip && n.lastState == c.lastState && n.info == c.info
      && n.reconnectDelay == c.reconnectDelay && n.deviceState == c.deviceState
      && n.consecutiveFailures == c.consecutiveFailures && n.retryCount == c.retryCount
      && n.nextRetryTime == c.nextRetryTime && n.available == c.available
    case Done(r, data) => DoneKeeps(c, r) && DoneHealth(c, r, data, now)
  }

  /** A finished wait empties the buffer and keeps the address, the cache, the device state,
      the reconnection delay and a known dpid list. */
  predicate DoneKeeps(c: Client, r: Client) {
    && r.buffer == ""
    && r.ip == c.ip && r.lastState == c.lastState
    && r.reconnectDelay == c.reconnectDelay && r.deviceState == c.deviceState
    && (|c.info.dpid| > 0 ==> r.info == c.info)
  }

  /** A finished wait returns data only when healthy, and otherwise counts at most one failure. */
  predicate DoneHealth(c: Client, r: Client, data: map<string, Json>, now: Time) {
    && (|data| > 0 ==> Healthy(r) && r.lastSuccess == now)
    && (Healthy(r) || (r.consecutiveFailures <= c.consecutiveFailures + 1
                       && r.retryCount == c.retryCount && r.nextRetryTime == c.nextRetryTime))
  }

  lemma ReadStepSpec(c: Client, attempt: nat, event: ReadEvent, scan: string -> Scan, now: Time)
    ensures StepKeeps(c, ReadStep(c, attempt, event, scan, now), now)
  {
    match event {
      case Chunk(text) =>
        match scan(c.buffer + text) {
          case Answer(resp) => FinishResponseSpec(c.(buffer := ""), resp, now);
          case NoSerial =>
          case NoAnswer =>
        }
      case EmptyRead =>
      case ReadTimeout =>
      case ReadError(_) =>
    }
  }

  /** The read loop of `_send_receiver_internal` from attempt `attempt` on. */
  function ReadResponse(c: Client, attempt: nat, events: nat -> ReadEvent, scan: string -> Scan, now: Time): (r: (Client, map<string, Json>))
    requires attempt <= MaxRetryAttempts
    decreases MaxRetryAttempts - attempt
  {
    if attempt == MaxRetryAttempts then
      (MarkFailure(c.(buffer := ""), "No valid response", now), map[])
    else
      match ReadStep(c, attempt, events(attempt), scan, now)
      case Continue(next) => ReadResponse(next, attempt + 1, events, scan, now)
      case Done(r, data) => (r, data)
  }

  /** Whatever happens, the wait leaves the read buffer empty; it never changes the address,
      the cached state or a dpid list that is already known; and it either ends healthy (the
      only way to return a non-empty result) or counts at most one failure, leaving the retry
      count and back-off deadline alone. */
  lemma ReadResponseInvariants(c: Client, attempt: nat, events: nat -> ReadEvent, scan: string -> Scan, now: Time)
    requires attempt <= MaxRetryAttempts
    ensures var (r, data) := ReadResponse(c, attempt, events, scan, now);
      StepKeeps(c, Done(r, data), now)
  {
    ReadResponseKeeps(c, attempt, events, scan, now);
    ReadResponseHealth(c, attempt, events, scan, now);
  }

  lemma {:induction false} ReadResponseKeeps(c: Client, attempt: nat, events: nat -> ReadEvent, scan: string -> Scan,
                                             now: Time)
    requires attempt <= MaxRetryAttempts
    ensures DoneKeeps(c, ReadResponse(c, attempt, events, scan, now).0)
    decreases MaxRetryAttempts - attempt
  {
    if attempt < MaxRetryAttempts {
      var s := ReadStep(c, attempt, events(attempt), scan, now);
      ReadStepSpec(c, attempt, events(attempt), scan, now);
      if s.Continue? {
        ReadResponseKeeps(s.next, attempt + 1, events, scan, now);
      }
    }
  }

  lemma {:induction false} ReadResponseHealth(c: Client, attempt: nat, events: nat -> ReadEvent, scan: string -> Scan,
                                              now: Time)
    requires attempt <= MaxRetryAttempts
    ensures DoneHealth(c, ReadResponse(c, attempt, events, scan, now).0, ReadResponse(c, attempt, events, scan, now).1, now)
    decreases MaxRetryAttempts - attempt
  {
    if attempt < MaxRetryAttempts {
      var s := ReadStep(c, attempt, events(attempt), scan, now);
      ReadStepSpec(c, attempt, events(attempt), scan, now);
      if s.Continue? {
        ReadResponseHealth(s.next, attempt + 1, events, scan, now);
      }
    }
  }

  /** `_send_receiver_internal`'s wait on an open connection, from the first read. */
  function AwaitResponse(c: Client, sn: string, events: nat -> ReadEvent, parse: string -> Option<Json>, now: Time): (r: (Client, map<string, Json>))
    ensures r.0.buffer == "" && r.0.ip == c.ip && r.0.lastState == c.lastState
    ensures r.0.reconnectDelay == c.reconnectDelay && r.0.deviceState == c.deviceState
    ensures |c.info.dpid| > 0 ==> r.0.info == c.info
    ensures |r.1| > 0 ==> Healthy(r.0) && r.0.lastSuccess == now
    ensures Healthy(r.0) || (r.0.consecutiveFailures <= c.consecutiveFailures + 1
                             && r.0.retryCount == c.retryCount && r.0.nextRetryTime == c.nextRetryTime)
  {
    ReadResponseInvariants(c, 0, events, Scanner(sn, parse), now);
    ReadResponse(c, 0, events, Scanner(sn, parse), now)
  }

  /** Five read timeouts in a row count exactly one communication failure. */
  lemma AllTimeoutsOneFailure(c: Client, sn: string, parse: string -> Option<Json>, now: Time)
    ensures var (r, data) := AwaitResponse(c, sn, _ => ReadTimeout, parse, now);
      && data == map[] && r == MarkFailure(c.(buffer := ""), "Response timeout", now)
  {
  }

  /** A response whose `msg` and `msg.data` are dicts ends the exchange successfully with the
      dict `data` decodes to. */
  lemma FinishWithData(c: Client, resp: Json, now: Time)
    requires Get(resp, "msg").Some? && Get(resp, "msg").value.JObj?
    requires Get(Get(resp, "msg").value, "data").Some? && Get(Get(resp, "msg").value, "data").value.JObj?
    ensures FinishResponse(c, resp, now).1 == ToMap(Get(Get(resp, "msg").value, "data").value.fields)
    ensures Healthy(FinishResponse(c, resp, now).0)
  {
  }

  /** A buffer holding one frame of a response that carries the serial number is answered by it. */
  lemma FrameScansAsAnswer(sn: string, parse: string -> Option<Json>, resp: Json, i: nat)
    requires resp.JObj? && i < |resp.fields| && resp.fields[i].1 == JStr(sn) && Verbatim(sn)
    requires parse(Serialize(resp)) == Some(resp)
    ensures ScanBuffer(Serialize(resp) + "\r\n", sn, parse) == Answer(resp)
  {
    var text := Serialize(resp);
    var buf := text + "\r\n";
    ObjectTextHasString(resp.fields, i, sn);
    ObjectLineAnswers(resp, sn, parse);
    ContainsBefore(text, "\r\n", sn);
    assert Contains(buf, sn) && ParseJsonLines(buf, sn, parse) == Some(resp);
    assert Truthy(resp);
  }

  /** Round trip with a device answer: if the first read is the compact text of a response
      object that carries the request's serial number (needing no escaping), whose `msg` is a
      dict and whose `msg.data` is a dict, and the parser reads that text back, then the wait
      returns that data dict and leaves the client healthy. */
  lemma AnswerOnFirstRead(c: Client, sn: string, events: nat -> ReadEvent, parse: string -> Option<Json>,
                          now: Time, resp: Json, i: nat)
    requires c.buffer == "" && resp.JObj? && i < |resp.fields| && resp.fields[i].1 == JStr(sn) && Verbatim(sn)
    requires events(0) == Chunk(Serialize(resp) + "\r\n")
    requires parse(Serialize(resp)) == Some(resp)
    requires Get(resp, "msg").Some? && Get(resp, "msg").value.JObj?
    requires Get(Get(resp, "msg").value, "data").Some? && Get(Get(resp, "msg").value, "data").value.JObj?
    ensures var (r, data) := AwaitResponse(c, sn, events, parse, now);
      && data == ToMap(Get(Get(resp, "msg").value, "data").value.fields)
      && Healthy(r) && r.buffer == ""
  {
    FrameScansAsAnswer(sn, parse, resp, i);
    FirstReadAnswer(c, sn, events, parse, now, resp);
    FinishWithData(c, resp, now);
  }

  /** A first read whose text alone scans as an answer ends the wait with that answer. */
  lemma FirstReadAnswer(c: Client, sn: string, events: nat -> ReadEvent, parse: string -> Option<Json>,
                        now: Time, resp: Json)
    requires c.buffer == "" && events(0).Chunk? && ScanBuffer(events(0).text, sn, parse) == Answer(resp)
    ensures AwaitResponse(c, sn, events, parse, now) == FinishResponse(c, resp, now)
  {
    assert c.buffer + events(0).text == events(0).text;
    assert c.(buffer := "") == c;
  }

  /** The buffer is emptied after any parse of a buffer that mentions the serial number, even
      when no complete answer was found. So an answer line split across two reads, whose first
      part already contains the serial number, is lost: the line in one read would have
      answered, but the split wait ends in a timeout failure exactly as if the device had
      stayed silent. */
  lemma SplitAnswerIsLost(c: Client, sn: string, line: string, cut: nat, resp: Json, now: Time)
    requires c.buffer == "" && resp.JObj? && Truthy(resp)
    requires Printable(line) && 0 < cut < |line| && !IsSpace(line[0]) && !IsSpace(line[|line| - 1])
    requires Contains(line[..cut], sn) && !Contains(line[cut..] + "\r\n", sn)
    ensures var parse := EchoParser(line, resp);
      var events := (k: nat) => if k == 0 then Chunk(line[..cut]) else if k == 1 then Chunk(line[cut..] + "\r\n") else ReadTimeout;
      && ScanBuffer(line + "\r\n", sn, parse) == Answer(resp)
      && AwaitResponse(c, sn, events, parse, now) == (MarkFailure(c, "Response timeout", now), map[])
  {
    var parse := EchoParser(line, resp);
    var events := (k: nat) => if k == 0 then Chunk(line[..cut]) else if k == 1 then Chunk(line[cut..] + "\r\n") else ReadTimeout;
    var first, second := line[..cut], line[cut..] + "\r\n";
    WholeLineAnswers(sn, line, cut, resp);
    FirstPartDoesNotAnswer(sn, line, cut, resp);
    SplitReadsTimeOut(c, sn, events, parse, now, first, second);
  }

  /** A first read that mentions the serial number without answering, then a read that does not
      mention it, then silence: the wait ends in a timeout failure. */
  lemma SplitReadsTimeOut(c: Client, sn: string, events: nat -> ReadEvent, parse: string -> Option<Json>,
                          now: Time, first: string, second: string)
    requires c.buffer == "" && events(0) == Chunk(first) && events(1) == Chunk(second)
    requires forall k :: 2 <= k ==> events(k) == ReadTimeout
    requires ScanBuffer(first, sn, parse) == NoAnswer && ScanBuffer(second, sn, parse) == NoSerial
    ensures AwaitResponse(c, sn, events, parse, now) == (MarkFailure(c, "Response timeout", now), map[])
  {
    var scan := Scanner(sn, parse);
    assert c.buffer + first == first;
    assert ReadStep(c, 0, events(0), scan, now) == Continue(c);
    assert c.buffer + second == second;
    assert ReadStep(c, 1, events(1), scan, now) == Continue(c.(buffer := second));
    assert ReadStep(c.(buffer := second), 2, events(2), scan, now) == Continue(c);
    assert ReadStep(c, 3, events(3), scan, now) == Continue(c);
    assert ReadStep(c, 4, events(4), scan, now) == Done(MarkFailure(c, "Response timeout", now), map[]);
  }

  /** The line read in one piece answers the wait. */
  lemma WholeLineAnswers(sn: string, line: string, cut: nat, resp: Json)
    requires resp.JObj? && Truthy(resp)
    requires Printable(line) && 0 < cut < |line| && !IsSpace(line[0]) && !IsSpace(line[|line| - 1])
    requires Contains(line[..cut], sn)
    ensures ScanBuffer(line + "\r\n", sn, EchoParser(line, resp)) == Answer(resp)
  {
    var parse := EchoParser(line, resp);
    assert line == line[..cut] + line[cut..];
    ContainsExtend("", line[..cut], line[cut..], sn);
    assert "" + line[..cut] + line[cut..] == line;
    ContainsBefore(line, "\r\n", sn);
    FrameCandidates(line);
    var lines := Candidates(line + "\r\n");
    assert lines[0] == line;
    assert Answers(lines[0], sn, parse);
    assert FirstAnswer(lines, sn, parse) == Some(0);
  }

  /** The first part alone mentions the serial number but is no answer. */
  lemma FirstPartDoesNotAnswer(sn: string, line: string, cut: nat, resp: Json)
    requires Printable(line) && 0 < cut < |line|
    requires Contains(line[..cut], sn)
    ensures ScanBuffer(line[..cut], sn, EchoParser(line, resp)) == NoAnswer
  {
    var parse := EchoParser(line, resp);
    var first := line[..cut];
    assert '\r' !in first && '\n' !in first by {
      forall i | 0 <= i < |first|
        ensures first[i] != '\r' && first[i] != '\n'
      {
        assert first[i] == line[i];
      }
    }
    LinesOfOneLine(first);
    var lines := Candidates(first);
    assert |lines| == 1 && |lines[0]| <= |first| < |line|;
    assert !Answers(lines[0], sn, parse);
    assert FirstAnswer(lines, sn, parse) == None;
  }

  // ---------------------------------------------------------------------------
  // Pushed data

  /** The state update a pushed line carries: a non-empty dict `msg` holding a non-empty dict `data`. */
  function PushedUpdate(line: string, parse: string -> Option<Json>): (r: Option<map<string, Json>>)
    ensures r.Some? ==> |r.value| > 0
  {
    if line == "" then None
    else match parse(line)
      case Some(JObj(fields)) =>
        (match Get(JObj(fields), "msg")
         case Some(msg) =>
           if Truthy(msg) && msg.JObj? then
             match Get(msg, "data")
             case Some(JObj(data)) =>
               if |data| > 0 then
                 ToMapSpec(data);
                 Some(ToMap(data))
               else None
             case _ => None
           else None
         case None => None)
      case _ => None
  }

  /** Process stripped lines in order: every line with an update marks success and is dispatched. */
  function ProcessLines(c: Client, lines: seq<string>, parse: string -> Option<Json>, now: Time): (r: Client)
    decreases |lines|
  {
    if |lines| == 0 then c
    else
      var c1 := match PushedUpdate(lines[0], parse)
        case Some(update) => DispatchState(MarkSuccess(c, now), update)
        case None => c;
      ProcessLines(c1, lines[1..], parse, now)
  }

  /** The updates of a sequence of lines, in order. */
  function Updates(lines: seq<string>, parse: string -> Option<Json>): (ups: seq<map<string, Json>>)
    ensures |ups| <= |lines|
    decreases |lines|
  {
    if |lines| == 0 then []
    else
      match PushedUpdate(lines[0], parse)
      case Some(u) => [u] + Updates(lines[1..], parse)
      case None => Updates(lines[1..], parse)
  }

  /** The value the last update mentioning `key` gives it (the reference for what the cache ends with). */
  function LastValue(ups: seq<map<string, Json>>, key: string): Option<Json>
    decreases |ups|
  {
    if |ups| == 0 then None
    else if key in ups[|ups| - 1] then Some(ups[|ups| - 1][key])
    else LastValue(ups[..|ups| - 1], key)
  }

  /** `_process_received_data(data)`. */
  function ProcessReceived(c: Client, data: string, parse: string -> Option<Json>, now: Time): (r: Client)
  {
    ProcessLines(c, Candidates(data), parse, now)
  }

  /** After processing pushed data, each key of the cache holds the value of the last update that
      mentions it, keys no update mentions are kept as they were, and nothing else changes except
      that any update at all leaves the client healthy. */
  lemma ProcessReceivedSpec(c: Client, data: string, parse: string -> Option<Json>, now: Time, key: string)
    ensures var r := ProcessReceived(c, data, parse, now);
      var ups := Updates(Candidates(data), parse);
      && (LastValue(ups, key).Some? ==> key in r.lastState && r.lastState[key] == LastValue(ups, key).value)
      && (LastValue(ups, key).None? ==> (key in r.lastState <==> key in c.lastState)
                                        && (key in c.lastState ==> r.lastState[key] == c.lastState[key]))
      && (|ups| == 0 ==> r == c)
      && (|ups| > 0 ==> Healthy(r) && r.lastSuccess == now)
      && r.ip == c.ip && r.info == c.info && r.buffer == c.buffer && r.connected == c.connected
      && r.deviceState == c.deviceState && r.reconnectDelay == c.reconnectDelay
  {
    ProcessLinesSpec(c, Candidates(data), parse, now, key);
  }

  lemma {:induction false} ProcessLinesSpec(c: Client, lines: seq<string>, parse: string -> Option<Json>, now: Time, key: string)
    ensures var r := ProcessLines(c, lines, parse, now);
      var ups := Updates(lines, parse);
      && (LastValue(ups, key).Some? ==> key in r.lastState && r.lastState[key] == LastValue(ups, key).value)
      && (LastValue(ups, key).None? ==> (key in r.lastState <==> key in c.lastState)
                                        && (key in c.lastState ==> r.lastState[key] == c.lastState[key]))
      && (|ups| == 0 ==> r == c)
      && (|ups| > 0 ==> Healthy(r) && r.lastSuccess == now)
      && r.ip == c.ip && r.info == c.info && r.buffer == c.buffer && r.connected == c.connected
      && r.deviceState == c.deviceState && r.reconnectDelay == c.reconnectDelay
    decreases |lines|
  {
    if |lines| > 0 {
      var rest := Updates(lines[1..], parse);
      match PushedUpdate(lines[0], parse)
      case Some(u) =>
        var c1 := DispatchState(MarkSuccess(c, now), u);
        ProcessLinesSpec(c1, lines[1..], parse, now, key);
        LastValueConcat(u, rest, key);
      case None =>
        ProcessLinesSpec(c, lines[1..], parse, now, key);
    }
  }

  /** Putting an update in front only matters for keys no later update mentions. */
  lemma {:induction false} LastValueConcat(u: map<string, Json>, rest: seq<map<string, Json>>, key: string)
    ensures LastValue([u] + rest, key) == if LastValue(rest, key).Some? then LastValue(rest, key)
                                          else if key in u then Some(u[key]) else None
    decreases |rest|
  {
    var all := [u] + rest;
    if |rest| > 0 {
      assert all[|all| - 1] == rest[|rest| - 1];
      if key !in rest[|rest| - 1] {
        assert all[..|all| - 1] == [u] + rest[..|rest| - 1];
        LastValueConcat(u, rest[..|rest| - 1], key);
      }
    } else {
      assert all == [u];
      assert all[..0] == [];
    }
  }

  /** A SET frame pushed back by the device is one update: the command's data dict. */
  lemma SetEchoUpdates(payload: Payload, sn: string)
    requires |payload| > 0
    ensures var m := Message(CmdSet, payload, sn).value;
      Updates(Candidates(Package(CmdSet, payload, sn).value), EchoParser(Serialize(m), m)) == [ToMap(PayloadObject(payload))]
  {
    var m := Message(CmdSet, payload, sn).value;
    SetMessageUpdate(payload, sn);
    EchoFrameUpdates(m, ToMap(PayloadObject(payload)));
    assert Package(CmdSet, payload, sn).value == Serialize(m) + "\r\n";
  }

  /** An object echoed back as a frame yields the update its own text carries, and nothing else. */
  lemma EchoFrameUpdates(m: Json, u: map<string, Json>)
    requires m.JObj? && PushedUpdate(Serialize(m), EchoParser(Serialize(m), m)) == Some(u)
    ensures Updates(Candidates(Serialize(m) + "\r\n"), EchoParser(Serialize(m), m)) == [u]
  {
    FrameUpdates(Serialize(m), EchoParser(Serialize(m), m), u);
  }

  /** A frame whose object text carries an update yields exactly that update. */
  lemma FrameUpdates(body: string, parse: string -> Option<Json>, u: map<string, Json>)
    requires Printable(body) && |body| > 0 && body[0] == '{' && body[|body| - 1] == '}'
    requires PushedUpdate(body, parse) == Some(u)
    ensures Updates(Candidates(body + "\r\n"), parse) == [u]
  {
    var lines := Candidates(body + "\r\n");
    ObjectFrameCandidates(body);
    assert lines[1..] == [""];
    assert Updates([""], parse) == [];
  }

  /** The JSON text of a SET message, read back, is a push carrying the command's data dict. */
  lemma SetMessageUpdate(payload: Payload, sn: string)
    requires |payload| > 0
    ensures var m := Message(CmdSet, payload, sn).value;
      PushedUpdate(Serialize(m), EchoParser(Serialize(m), m)) == Some(ToMap(PayloadObject(payload)))
  {
    var m := Message(CmdSet, payload, sn).value;
    SetMessageData(payload, sn);
    ObjectPushedUpdate(Serialize(m), EchoParser(Serialize(m), m), m, PayloadObject(payload));
  }

  /** The `msg` of a SET message is a non-empty dict whose `data` is the command's data dict. */
  lemma SetMessageData(payload: Payload, sn: string)
    requires |payload| > 0
    ensures var m := Message(CmdSet, payload, sn).value;
      && Get(m, "msg").Some? && Get(m, "msg").value.JObj? && Truthy(Get(m, "msg").value)
      && Get(Get(m, "msg").value, "data") == Some(JObj(PayloadObject(payload)))
  {
    var m := Message(CmdSet, payload, sn).value;
    var data := PayloadObject(payload);
    assert Get(m, "msg") == Some(m.fields[3].1) by {
      assert ToMap(m.fields) == ToMap(m.fields[..3])["msg" := m.fields[3].1];
    }
    var msg := m.fields[3].1;
    assert Get(msg, "data") == Some(JObj(data)) by {
      assert msg.fields[1] == ("data", JObj(data));
      assert ToMap(msg.fields) == ToMap(msg.fields[..1])["data" := JObj(data)];
    }
  }

  /** A line that parses to a dict whose `msg` is a non-empty dict with a non-empty dict `data`
      pushes that `data`. */
  lemma ObjectPushedUpdate(body: string, parse: string -> Option<Json>, m: Json, data: seq<(string, Json)>)
    requires body != "" && parse(body) == Some(m) && m.JObj?
    requires Get(m, "msg").Some? && Get(m, "msg").value.JObj? && Truthy(Get(m, "msg").value)
    requires Get(Get(m, "msg").value, "data") == Some(JObj(data)) && |data| > 0
    ensures PushedUpdate(body, parse) == Some(ToMap(data))
  {
  }

  /** A device that echoes a SET frame back as a push makes the cache hold every commanded
      dpid, with the commanded value when the dpid is set only once, and leaves the client healthy. */
  lemma EchoedSetUpdatesCache(c: Client, payload: Payload, sn: string, now: Time, k: nat)
    requires k < |payload|
    ensures var m := Message(CmdSet, payload, sn).value;
      var r := ProcessReceived(c, Package(CmdSet, payload, sn).value, EchoParser(Serialize(m), m), now);
      var key := NatToString(payload[k].0);
      && key in r.lastState
      && ((forall j :: k < j < |payload| ==> payload[j].0 != payload[k].0) ==> r.lastState[key] == JInt(payload[k].1))
      && Healthy(r)
  {
    var m := Message(CmdSet, payload, sn).value;
    SetEchoUpdates(payload, sn);
    PayloadLastSet(payload, k);
    OneUpdateCache(c, Package(CmdSet, payload, sn).value, EchoParser(Serialize(m), m), now,
                   ToMap(PayloadObject(payload)), NatToString(payload[k].0));
  }

  /** Data carrying exactly one update stores each of its keys with its value and leaves the
      client healthy. */
  lemma OneUpdateCache(c: Client, data: string, parse: string -> Option<Json>, now: Time,
                       u: map<string, Json>, key: string)
    requires Updates(Candidates(data), parse) == [u] && key in u
    ensures var r := ProcessReceived(c, data, parse, now);
      key in r.lastState && r.lastState[key] == u[key] && Healthy(r)
  {
    ProcessReceivedSpec(c, data, parse, now, key);
    assert LastValue([u], key) == Some(u[key]);
  }

  // ---------------------------------------------------------------------------
  // Sending a command and querying

  /** What the connection does for one `_send_receiver_internal` call: the attempts of the
      reconnection made when no connection is open, whether the first write and drain succeed,
      the attempts of the reconnection after a failed write, whether the second write succeeds,
      and the reads of the wait. */
  datatype Transport = Transport(
    reconnect: nat -> Attempt,
    sendOk: bool,
    reconnectAgain: nat -> Attempt,
    resendOk: bool,
    events: nat -> ReadEvent)

  /** `_send_receiver_internal` with serial number `sn`: reconnect through the back-off gate when
      no connection is open, send, and on a failed send close, reconnect and send once more; a
      write on a connection the handshake lost fails like any other. Only a completed send
      waits for the answer. */
  function SendReceive(c: Client, sn: string, t: Transport, parse: string -> Option<Json>, now: Time)
    : (r: (Client, map<string, Json>))
  {
    var (c1, ok1) := if c.connected then (c, true) else Connect(c, false, now, t.reconnect);
    if !ok1 then (c1, map[])
    else if t.sendOk && c1.connected then AwaitResponse(c1, sn, t.events, parse, now)
    else
      var (c2, ok2) := Connect(CloseConnection(c1), false, now, t.reconnectAgain);
      if !ok2 then (c2, map[])
      else if t.resendOk && c2.connected then AwaitResponse(c2, sn, t.events, parse, now)
      else (CloseConnection(MarkFailure(c2, "send retry failed", now)), map[])
  }

  /** A send never changes the address, the cached state or the reconnection delay, leaves the
      device state as it was or `online` (a reconnection sets it), and returns data only when
      the exchange succeeded. A client still in its back-off window, with no connection, is left
      exactly as it was and gets nothing. An open connection whose write goes through gets the
      wait's result without reconnecting. When both writes fail nothing is returned. */
  lemma SendReceiveSpec(c: Client, sn: string, t: Transport, parse: string -> Option<Json>, now: Time)
    ensures var (r, data) := SendReceive(c, sn, t, parse, now);
      && r.ip == c.ip && r.lastState == c.lastState && r.reconnectDelay == c.reconnectDelay
      && (r.deviceState == c.deviceState || r.deviceState == Online)
      && (|data| > 0 ==> Healthy(r) && r.lastSuccess == now)
      && (!c.connected && now < c.nextRetryTime ==> r == c && data == map[])
      && (c.connected && t.sendOk ==> (r, data) == AwaitResponse(c, sn, t.events, parse, now))
      && (!t.sendOk && !t.resendOk ==> data == map[])
  {
    var (c1, ok1) := if c.connected then (c, true) else Connect(c, false, now, t.reconnect);
    ConnectKeeps(c, now, t.reconnect);
    if ok1 && !(t.sendOk && c1.connected) {
      ConnectKeeps(CloseConnection(c1), now, t.reconnectAgain);
    }
  }

  /** An unforced connect keeps the address, the cached state and the reconnection delay,
      and leaves the device state as it was or `online`. */
  lemma ConnectKeeps(c: Client, now: Time, outcome: nat -> Attempt)
    ensures var (r, ok) := Connect(c, false, now, outcome);
      && r.ip == c.ip && r.lastState == c.lastState && r.reconnectDelay == c.reconnectDelay
      && (r.deviceState == c.deviceState || r.deviceState == Online)
  {
    if now >= c.nextRetryTime {
      ConnectOutcome(c, false, now, outcome);
      AttemptsKeepDelay(c, 0, now, outcome);
    }
  }

  /** `query()`: while the receive loop runs and the cache is non-empty, a copy of the cache
      with no traffic; otherwise a `CMD_QUERY` exchange. */
  function Query(c: Client, loopRunning: bool, sn: string, t: Transport, parse: string -> Option<Json>, now: Time)
    : (r: (Client, map<string, Json>))
  {
    if loopRunning && |c.lastState| > 0 then (c, c.lastState) else SendReceive(c, sn, t, parse, now)
  }

  /** Dispatching into an empty cache leaves exactly the dispatched state. */
  lemma FreshCache(c: Client, state: map<string, Json>)
    requires c.lastState == map[]
    ensures DispatchState(c, state).lastState == state
  {
    var r := DispatchState(c, state);
    assert r.lastState.Keys == state.Keys;
  }

  /** While the loop runs, a client with a cache is answered from it untouched, and dispatching
      that answer changes nothing; a client without one is queried over the connection, and the
      cache after dispatching holds exactly what the device returned. */
  lemma QueryWhileLoopRuns(c: Client, sn: string, t: Transport, parse: string -> Option<Json>, now: Time)
    ensures var (r, state) := Query(c, true, sn, t, parse, now);
      && (|c.lastState| > 0 ==> r == c && state == c.lastState && DispatchState(r, state) == c)
      && (|c.lastState| == 0 ==> DispatchState(r, state).lastState == state)
  {
    if |c.lastState| > 0 {
      assert Merge(c.lastState, c.lastState) == c.lastState;
    } else {
      var (r, state) := SendReceive(c, sn, t, parse, now);
      SendReceiveSpec(c, sn, t, parse, now);
      FreshCache(r, state);
    }
  }
}
