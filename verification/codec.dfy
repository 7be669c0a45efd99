/** The wire codec of the TCP client: building the INFO / QUERY / SET frames
    and finding the response that carries a given serial number (`sn`) in a
    buffer of newline-delimited JSON. */
module Codec {
  import opened Wrappers
  import opened Text
  import opened JsonValue

  const CmdInfo: int := 0
  const CmdQuery: int := 2
  const CmdSet: int := 3

  /** A SET payload: data-point ids with their values, in dict order. A data-point
      id is written as the decimal string of the number (the dict key `"4"`),
      which is what makes `int(key)` give the number back. */
  type Payload = seq<(nat, int)>

  /** The `data` object of a SET message: the payload dict itself. */
  function PayloadObject(payload: Payload): (fields: seq<(string, Json)>)
    ensures |fields| == |payload|
    ensures forall i :: 0 <= i < |payload| ==> fields[i] == (NatToString(payload[i].0), JInt(payload[i].1))
  {
    seq(|payload|, i requires 0 <= i < |payload| => (NatToString(payload[i].0), JInt(payload[i].1)))
  }

  /** A payload that sets each data point at most once, as a dict literal does. */
  predicate DistinctKeys(payload: Payload) {
    forall i, j :: 0 <= i < j < |payload| ==> payload[i].0 != payload[j].0
  }

  /** Every data point a payload sets is a key of its dict, holding the value it is set to when
      no later entry sets it again. */
  lemma PayloadLastSet(payload: Payload, k: nat)
    requires k < |payload|
    ensures var m := ToMap(PayloadObject(payload));
      var key := NatToString(payload[k].0);
      && key in m
      && ((forall j :: k < j < |payload| ==> payload[j].0 != payload[k].0) ==> m[key] == JInt(payload[k].1))
  {
    var data := PayloadObject(payload);
    ToMapSpec(data);
    assert data[k].0 in ToMap(data);
    if forall j :: k < j < |payload| ==> payload[j].0 != payload[k].0 {
      forall j | k < j < |payload|
        ensures data[j].0 != data[k].0
      {
        if data[j].0 == data[k].0 {
          NatToStringInjective(payload[j].0, payload[k].0);
        }
      }
      ToMapLookup(data, k);
    }
  }

  /** The dict a payload becomes: a data point's decimal id is a key exactly when the payload
      sets it, and maps to the value it is set to. */
  lemma PayloadDict(payload: Payload, k: nat)
    requires DistinctKeys(payload)
    ensures var m := ToMap(PayloadObject(payload));
      && (NatToString(k) in m <==> exists v :: (k, v) in payload)
      && forall v :: (k, v) in payload ==> m[NatToString(k)] == JInt(v)
  {
    var data := PayloadObject(payload);
    var m := ToMap(data);
    ToMapSpec(data);
    if NatToString(k) in m {
      var i :| 0 <= i < |data| && data[i] == (NatToString(k), m[NatToString(k)]);
      NatToStringInjective(payload[i].0, k);
      assert (k, payload[i].1) in payload;
    }
    forall v | (k, v) in payload
      ensures m[NatToString(k)] == JInt(v)
    {
      var i :| 0 <= i < |payload| && payload[i] == (k, v);
      forall j | i < j < |data|
        ensures data[j].0 != data[i].0
      {
        if data[j].0 == data[i].0 {
          NatToStringInjective(payload[j].0, payload[i].0);
        }
      }
      ToMapLookup(data, i);
    }
  }

  /** The message dict `_get_package` builds before serialising it; `None` for an
      unknown command (where the source raises `ValueError`). */
  function Message(cmd: int, payload: Payload, sn: string): (r: Option<Json>)
    ensures r.Some? <==> cmd == CmdInfo || cmd == CmdQuery || cmd == CmdSet
    ensures r.Some? ==> r.value.JObj? && |r.value.fields| == 4
    ensures r.Some? ==> r.value.fields[..3] == [("pv", JInt(0)), ("cmd", JInt(cmd)), ("sn", JStr(sn))]
    ensures r.Some? ==> r.value.fields[3].0 == "msg"
    ensures cmd == CmdInfo ==> r == Some(JObj(r.value.fields[..3] + [("msg", JObj([]))]))
    ensures cmd == CmdQuery ==> r == Some(JObj(r.value.fields[..3] + [("msg", JObj([("attr", JArr([JInt(0)]))]))]))
    ensures cmd == CmdSet ==>
      var msg := r.value.fields[3].1;
      && msg.JObj? && |msg.fields| == 2
      && msg.fields[0].0 == "attr" && msg.fields[0].1.JArr?
      && msg.fields[1] == ("data", JObj(PayloadObject(payload)))
      // `attr` lists `int(k)` for every key `k` of `data`, in the same order
      && var attr := msg.fields[0].1.items;
      && var data := PayloadObject(payload);
      && |attr| == |data|
      && forall i :: 0 <= i < |attr| ==> attr[i] == JInt(DecimalValue(data[i].0))
  {
    var head := [("pv", JInt(0)), ("cmd", JInt(cmd)), ("sn", JStr(sn))];
    if cmd == CmdSet then
      var attr := seq(|payload|, i requires 0 <= i < |payload| => JInt(payload[i].0));
      var data := PayloadObject(payload);
      assert forall i :: 0 <= i < |payload| ==> DecimalValue(data[i].0) == payload[i].0 by {
        forall i | 0 <= i < |payload| {
          DecimalRoundTrip(payload[i].0);
        }
      }
      Some(JObj(head + [("msg", JObj([("attr", JArr(attr)), ("data", JObj(data))]))]))
    else if cmd == CmdQuery then
      Some(JObj(head + [("msg", JObj([("attr", JArr([JInt(0)]))]))]))
    else if cmd == CmdInfo then
      Some(JObj(head + [("msg", JObj([]))]))
    else None
  }

  /** `_get_package`: the compact JSON of the message followed by CRLF. The frame is one
      line: nothing before the final CRLF is a line break or anything but printable ASCII. */
  function Package(cmd: int, payload: Payload, sn: string): (r: Result<string, string>)
    ensures r.Success? <==> Message(cmd, payload, sn).Some?
    ensures r.Success? ==>
      && |r.value| >= 2
      && r.value[|r.value| - 2..] == "\r\n"
      && Printable(r.value[..|r.value| - 2])
      && r.value[..|r.value| - 2] == Serialize(Message(cmd, payload, sn).value)
  {
    match Message(cmd, payload, sn)
    case Some(m) =>
      var body := Serialize(m);
      assert (body + "\r\n")[..|body|] == body;
      Success(body + "\r\n")
    case None => Failure("Invalid command type")
  }

  // ---------------------------------------------------------------------------
  // Decoding

  /** The buffer's lines: `\r\n` and then lone `\r` become `\n`, and the result is split on `\n`. */
  function Lines(data: string): (lines: seq<string>)
    ensures |lines| >= 1
    ensures forall i :: 0 <= i < |lines| ==> '\n' !in lines[i] && '\r' !in lines[i]
  {
    var unified := Replace(Replace(data, "\r\n", "\n"), "\r", "\n");
    ReplaceRemovesChar(Replace(data, "\r\n", "\n"), '\r', "\n");
    var lines := Split(unified, '\n');
    assert forall i :: 0 <= i < |lines| ==> '\r' !in lines[i] by {
      forall i | 0 <= i < |lines|
        ensures '\r' !in lines[i]
      {
        SplitPiecesAvoid(unified, '\n', '\r', i);
      }
    }
    lines
  }

  /** Text without line breaks is a single line. */
  lemma LinesOfOneLine(s: string)
    requires '\r' !in s && '\n' !in s
    ensures Lines(s) == [s]
  {
    ReplaceSkip(s, "", "\r\n", "\n");
    ReplaceSkip(s, "", "\r", "\n");
    assert s + "" == s;
    SplitNoSep(s, '\n');
  }

  /** A character absent from a string is absent from every piece of its split. */
  lemma {:induction false} SplitPiecesAvoid(s: string, sep: char, c: char, i: nat)
    requires c !in s
    requires i < |Split(s, sep)|
    ensures c !in Split(s, sep)[i]
    decreases |s|
  {
    if |s| > 0 {
      var rest := Split(s[1..], sep);
      if s[0] == sep {
        if i > 0 {
          SplitPiecesAvoid(s[1..], sep, c, i - 1);
        }
      } else if i == 0 {
        SplitPiecesAvoid(s[1..], sep, c, 0);
      } else {
        SplitPiecesAvoid(s[1..], sep, c, i);
      }
    }
  }

  /** Each line with surrounding whitespace removed (`line.strip()`). */
  function StripAll(lines: seq<string>): (r: seq<string>)
    ensures |r| == |lines|
    ensures forall i :: 0 <= i < |r| ==> r[i] == Strip(lines[i])
  {
    if |lines| == 0 then [] else [Strip(lines[0])] + StripAll(lines[1..])
  }

  /** The stripped lines of a buffer, the candidates `_parse_json_lines` examines in order. */
  function Candidates(data: string): (r: seq<string>)
    ensures |r| == |Lines(data)|
    ensures forall i :: 0 <= i < |r| ==> r[i] == Strip(Lines(data)[i])
  {
    StripAll(Lines(data))
  }

  /** The test `_parse_json_lines` applies to a stripped line: non-empty, containing the
      serial number as a SUBSTRING (not comparing the `sn` field), and parsing to an object. */
  predicate Answers(line: string, sn: string, parse: string -> Option<Json>) {
    && line != ""
    && Contains(line, sn)
    && parse(line).Some?
    && parse(line).value.JObj?
  }

  /** The position of the first line that answers, if any. */
  function FirstAnswer(lines: seq<string>, sn: string, parse: string -> Option<Json>): (r: Option<nat>)
    ensures r.None? <==> forall i :: 0 <= i < |lines| ==> !Answers(lines[i], sn, parse)
    ensures r.Some? ==>
      && r.value < |lines|
      && Answers(lines[r.value], sn, parse)
      && forall j :: 0 <= j < r.value ==> !Answers(lines[j], sn, parse)
  {
    if |lines| == 0 then None
    else if Answers(lines[0], sn, parse) then Some(0)
    else
      match FirstAnswer(lines[1..], sn, parse)
      case None =>
        assert forall i :: 1 <= i < |lines| ==> lines[i] == lines[1..][i - 1];
        None
      case Some(k) =>
        assert forall j :: 1 <= j < k + 1 ==> lines[j] == lines[1..][j - 1];
        Some(k + 1)
  }

  /** `_parse_json_lines(data, target_sn)`: the parsed object of the first stripped line that
      answers; lines that are empty, lack the serial number or do not parse to an object are skipped. */
  function ParseJsonLines(data: string, sn: string, parse: string -> Option<Json>): (r: Option<Json>)
    ensures var lines := Candidates(data);
      && (r.None? <==> forall i :: 0 <= i < |lines| ==> !Answers(lines[i], sn, parse))
      && (r.Some? ==> r.value.JObj? && (exists i :: (0 <= i < |lines| && Answers(lines[i], sn, parse)
            && r == parse(lines[i]) && (forall j :: 0 <= j < i ==> !Answers(lines[j], sn, parse)))))
  {
    var lines := Candidates(data);
    match FirstAnswer(lines, sn, parse)
    case None => None
    case Some(i) =>
      assert Answers(lines[i], sn, parse);
      assert !(forall k :: 0 <= k < |lines| ==> !Answers(lines[k], sn, parse));
      parse(lines[i])
  }

  // ---------------------------------------------------------------------------
  // Encoder and decoder together

  /** The lines of a frame are its JSON text and the empty remainder after the CRLF. */
  lemma FrameLines(body: string)
    requires Printable(body)
    ensures Lines(body + "\r\n") == [body, ""]
  {
    assert '\r' !in body && '\n' !in body by {
      forall i | 0 <= i < |body|
        ensures body[i] != '\r' && body[i] != '\n'
      {
        assert ' ' <= body[i] <= '~';
      }
    }
    ReplaceSkip(body, "\r\n", "\r\n", "\n");
    assert Replace("\r\n", "\r\n", "\n") == "\n";
    ReplaceSkip(body, "\n", "\r", "\n");
    assert Replace("\n", "\r", "\n") == "\n" by {
      assert !IsPrefix("\r", "\n");
      assert "\n"[1..] == "";
    }
    SplitAtFirst(body, "", '\n');
    assert body + ['\n'] + "" == body + "\n";
  }
  /** The candidates of a frame whose text has no surrounding whitespace: the text itself and
      the empty remainder. */
  lemma FrameCandidates(body: string)
    requires Printable(body) && (|body| > 0 ==> !IsSpace(body[0]) && !IsSpace(body[|body| - 1]))
    ensures Candidates(body + "\r\n") == [body, ""]
  {
    FrameLines(body);
    StripIdentity(body);
  }
  /** The candidates of a frame holding an object's text. */
  lemma ObjectFrameCandidates(body: string)
    requires Printable(body) && |body| > 0 && body[0] == '{' && body[|body| - 1] == '}'
    ensures Candidates(body + "\r\n") == [body, ""]
  {
    FrameCandidates(body);
  }



  /** The JSON text of a message names its serial number verbatim when the serial number needs no escaping. */
  lemma MessageTextHasSn(cmd: int, payload: Payload, sn: string)
    requires Message(cmd, payload, sn).Some?
    requires Verbatim(sn)
    ensures Contains(Serialize(Message(cmd, payload, sn).value), sn)
  {
    var m := Message(cmd, payload, sn).value;
    ObjectTextHasString(m.fields, 2, sn);
  }

  /** Round trip: when the parser reads back what the serialiser writes, a buffer holding one
      frame built for serial number `sn` answers a wait for any `target` occurring in `sn`
      (in particular for `sn` itself) with exactly that message. */
  lemma FrameAnswersWait(cmd: int, payload: Payload, sn: string, target: string, parse: string -> Option<Json>)
    requires Message(cmd, payload, sn).Some?
    requires Verbatim(sn) && Contains(sn, target)
    requires parse(Serialize(Message(cmd, payload, sn).value)) == Message(cmd, payload, sn)
    ensures ParseJsonLines(Package(cmd, payload, sn).value, target, parse) == Message(cmd, payload, sn)
  {
    var m := Message(cmd, payload, sn).value;
    assert Package(cmd, payload, sn).value == Serialize(m) + "\r\n";
    MessageTextHasSn(cmd, payload, sn);
    ContainsTrans(Serialize(m), sn, target);
    ObjectLineAnswers(m, target, parse);
  }

  /** A buffer holding exactly one object's text and CRLF answers a wait for any text the
      object's JSON contains, provided the parser reads the object back. */
  lemma ObjectLineAnswers(obj: Json, target: string, parse: string -> Option<Json>)
    requires obj.JObj? && Contains(Serialize(obj), target)
    requires parse(Serialize(obj)) == Some(obj)
    ensures ParseJsonLines(Serialize(obj) + "\r\n", target, parse) == Some(obj)
  {
    var body := Serialize(obj);
    ObjectFrameCandidates(body);
    var lines := Candidates(body + "\r\n");
    assert lines[0] == body;
    assert Answers(lines[0], target, parse);
    assert FirstAnswer(lines, target, parse) == Some(0);
  }

  /** A parser that understands exactly one text. */
  function EchoParser(text: string, value: Json): (parse: string -> Option<Json>)
    ensures parse(text) == Some(value)
    ensures forall s :: s != text ==> parse(s) == None
  {
    s => if s == text then Some(value) else None
  }

  /** The substring test is weaker than comparing serial numbers: a response carrying
      `"sn":"123"` is taken as the answer to a request whose serial number is `"12"`. */
  lemma SubstringMatchAcceptsOtherSn()
    ensures var m := Message(CmdQuery, [], "123").value;
      var got := ParseJsonLines(Package(CmdQuery, [], "123").value, "12", EchoParser(Serialize(m), m));
      && got.Some? && got.value.JObj? && got.value.fields[2] == ("sn", JStr("123"))
  {
    var m := Message(CmdQuery, [], "123").value;
    assert IsPrefix("12", "123");
    assert Verbatim("123");
    FrameAnswersWait(CmdQuery, [], "123", "12", EchoParser(Serialize(m), m));
  }
}
