/** UDP discovery (`udp_discover.py`): the broadcast message, the wait for a first answer and the
    collection of the answering addresses. The socket is a stream of receive outcomes indexed
    from 0; peeking at the first answer does not consume it, so collection starts with it. */
module UdpDiscover {
  import opened Wrappers
  import opened Text
  import opened JsonValue

  const BroadcastAttempts: nat := 8
  const MaxFirstResponseTries: nat := 15
  const MaxReceiveAttempts: nat := 150
  const MaxConsecutiveTimeouts: nat := 5

  // ---------------------------------------------------------------------------
  // The broadcast

  /** The message dict: `cmd` first, then `pv`, `sn` and an empty `msg`. */
  function DiscoveryObject(sn: string): (j: Json)
  {
    JObj([("cmd", JInt(0)), ("pv", JInt(0)), ("sn", JStr(sn)), ("msg", JObj([]))])
  }

  /** `_build_discovery_message`: the compact JSON text of the dict, with no line terminator. */
  function DiscoveryMessage(sn: string): (r: string)
  {
    Serialize(DiscoveryObject(sn))
  }

  /** The broadcast is one line of printable ASCII, so it carries no line terminator (unlike the
      TCP frames); it asks for cmd 0 with protocol version 0, and a serial number that needs no
      escaping appears in it verbatim. */
  lemma DiscoveryMessageSpec(sn: string)
    ensures var r := DiscoveryMessage(sn);
      && Printable(r) && '\n' !in r && '\r' !in r
      && r[0] == '{' && r[|r| - 1] == '}'
      && (Verbatim(sn) ==> Contains(r, sn))
    ensures var d := ToMap(DiscoveryObject(sn).fields);
      d.Keys == {"cmd", "pv", "sn", "msg"} && d["cmd"] == JInt(0) && d["pv"] == JInt(0) && d["sn"] == JStr(sn)
  {
    var r := DiscoveryMessage(sn);
    assert '\n' !in r && '\r' !in r by {
      forall i | 0 <= i < |r|
        ensures r[i] != '\n' && r[i] != '\r'
      {
      }
    }
    DiscoveryDict(sn);
    if Verbatim(sn) {
      ObjectTextHasString(DiscoveryObject(sn).fields, 2, sn);
    }
  }

  /** The dict of the message has the four keys, with the values set. */
  lemma DiscoveryDict(sn: string)
    ensures var d := ToMap(DiscoveryObject(sn).fields);
      d == map["cmd" := JInt(0), "pv" := JInt(0), "sn" := JStr(sn), "msg" := JObj([])]
  {
    var f := DiscoveryObject(sn).fields;
    assert f[..1][..0] == [] && f[..2][..1] == f[..1] && f[..3][..2] == f[..2] && f[..3] == f[..|f| - 1];
    assert ToMap(f[..1]) == map["cmd" := JInt(0)];
    assert ToMap(f[..2]) == map["cmd" := JInt(0), "pv" := JInt(0)];
    assert ToMap(f[..3]) == map["cmd" := JInt(0), "pv" := JInt(0), "sn" := JStr(sn)];
  }

  // ---------------------------------------------------------------------------
  // Receiving

  /** One `recvfrom` on the discovery socket. */
  datatype Recv = Packet(ip: string) | TimedOut | RecvError

  /** `_wait_for_first_response`: the index of the first answer within 15 tries, if any;
      timeouts and other errors just use up a try. */
  function WaitFirst(recv: nat -> Recv, i: nat): (r: Option<nat>)
    decreases MaxFirstResponseTries - i
  {
    if i >= MaxFirstResponseTries then None
    else if recv(i).Packet? then Some(i)
    else WaitFirst(recv, i + 1)
  }

  /** There is a first answer exactly when one of the first 15 receives is an answer, and it is
      the earliest such. */
  lemma {:induction false} WaitFirstSpec(recv: nat -> Recv, i: nat)
    ensures var r := WaitFirst(recv, i);
      && (r.Some? <==> exists j :: i <= j < MaxFirstResponseTries && recv(j).Packet?)
      && (r.Some? ==> i <= r.value < MaxFirstResponseTries && recv(r.value).Packet?
                      && forall j :: i <= j < r.value ==> !recv(j).Packet?)
    decreases MaxFirstResponseTries - i
  {
    if i < MaxFirstResponseTries && !recv(i).Packet? {
      WaitFirstSpec(recv, i + 1);
    }
  }

  /** The addresses of the answers among the `n` receives from `start` on, in arrival order. */
  function PacketIps(recv: nat -> Recv, start: nat, n: nat): (r: seq<string>)
  {
    if n == 0 then []
    else PacketIps(recv, start, n - 1) + (if recv(start + n - 1).Packet? then [recv(start + n - 1).ip] else [])
  }

  /** The timeouts at the end of the first `n` receives from `start` on; an answer resets the count. */
  function Trailing(recv: nat -> Recv, start: nat, n: nat): nat
  {
    if n == 0 then 0
    else if recv(start + n - 1).TimedOut? then Trailing(recv, start, n - 1) + 1
    else 0
  }

  /** The distinct elements of `s` in the order they first occur. */
  function Dedup(s: seq<string>): (r: seq<string>)
  {
    if |s| == 0 then []
    else
      var d := Dedup(s[..|s| - 1]);
      if s[|s| - 1] in d then d else d + [s[|s| - 1]]
  }

  /** `Dedup` keeps every element once and adds nothing. */
  lemma {:induction false} DedupSpec(s: seq<string>)
    ensures NoDup(Dedup(s))
    ensures forall x :: x in Dedup(s) <==> x in s
  {
    if |s| > 0 {
      var init := s[..|s| - 1];
      DedupSpec(init);
      assert s == init + [s[|s| - 1]];
    }
  }

  /** First-seen order: deduplicating a prefix gives a prefix of the deduplicated whole. */
  lemma {:induction false} DedupPrefix(s: seq<string>, n: nat)
    requires n <= |s|
    ensures |Dedup(s[..n])| <= |Dedup(s)| && Dedup(s)[..|Dedup(s[..n])|] == Dedup(s[..n])
  {
    if n < |s| {
      var init := s[..|s| - 1];
      assert init[..n] == s[..n];
      DedupPrefix(init, n);
    } else {
      assert s[..n] == s;
    }
  }

  /** The collection went on past its `n`-th receive: that receive was no error, and fewer than
      five timeouts in a row had been seen before it. */
  predicate Continued(recv: nat -> Recv, start: nat, n: nat) {
    !recv(start + n).RecvError? && Trailing(recv, start, n) < MaxConsecutiveTimeouts
  }

  /** `_collect_responses`, reading from index `start`. Returns the distinct addresses, the
      number of loop iterations (`attempts`) and the number of receives used, which is one more
      when an error ended the collection. */
  method CollectResponses(recv: nat -> Recv, start: nat) returns (ips: seq<string>, attempts: nat, used: nat)
    ensures attempts <= MaxReceiveAttempts
    ensures ips == Dedup(PacketIps(recv, start, attempts))
    ensures NoDup(ips) && forall x :: x in ips <==> x in PacketIps(recv, start, attempts)
    ensures forall n :: 0 <= n < attempts ==> Continued(recv, start, n)
    ensures used == attempts || (used == attempts + 1 && recv(start + attempts).RecvError?)
    ensures used == attempts ==>
      attempts == MaxReceiveAttempts || Trailing(recv, start, attempts) == MaxConsecutiveTimeouts
  {
    ips, attempts := [], 0;
    var timeouts := 0;
    while attempts < MaxReceiveAttempts && timeouts < MaxConsecutiveTimeouts
      invariant attempts <= MaxReceiveAttempts
      invariant timeouts == Trailing(recv, start, attempts) && timeouts <= MaxConsecutiveTimeouts
      invariant ips == Dedup(PacketIps(recv, start, attempts))
      invariant forall n :: 0 <= n < attempts ==> Continued(recv, start, n)
      decreases MaxReceiveAttempts - attempts
    {
      var before := PacketIps(recv, start, attempts);
      assert Trailing(recv, start, attempts) < MaxConsecutiveTimeouts;
      match recv(start + attempts) {
        case Packet(ip) =>
          assert PacketIps(recv, start, attempts + 1) == before + [ip];
          assert (before + [ip])[..|before|] == before;
          if ip !in ips {
            ips := ips + [ip];
          }
          timeouts := 0;
        case TimedOut =>
          assert PacketIps(recv, start, attempts + 1) == before;
          timeouts := timeouts + 1;
        case RecvError =>
          used := attempts + 1;
          DedupSpec(before);
          return;
      }
      attempts := attempts + 1;
    }
    used := attempts;
    DedupSpec(PacketIps(recv, start, attempts));
  }

  /** `ips` is what a collection from `start` returns after `a` loop iterations: the distinct
      addresses of every answer among those receives, each of which let the loop go on, and the
      loop stopped there because of the iteration cap, five timeouts in a row or an error. */
  predicate Collected(recv: nat -> Recv, start: nat, a: nat, ips: seq<string>) {
    && a <= MaxReceiveAttempts
    && ips == Dedup(PacketIps(recv, start, a))
    && (forall n :: 0 <= n < a ==> Continued(recv, start, n))
    && (a == MaxReceiveAttempts || Trailing(recv, start, a) == MaxConsecutiveTimeouts
        || recv(start + a).RecvError?)
  }

  /** `_discover_devices` after the broadcasts: no first answer within 15 tries gives no
      addresses; otherwise collection starts at the first answer, which was only peeked at, and
      every address answering within the collection window is returned. */
  method DiscoverDevices(recv: nat -> Recv) returns (ips: seq<string>)
    ensures WaitFirst(recv, 0).None? ==> ips == []
    ensures NoDup(ips)
    ensures forall x :: x in ips ==> exists j :: recv(j) == Packet(x)
    ensures WaitFirst(recv, 0).Some? ==> |ips| > 0 && recv(WaitFirst(recv, 0).value) == Packet(ips[0])
    ensures WaitFirst(recv, 0).Some? ==> exists a :: Collected(recv, WaitFirst(recv, 0).value, a, ips)
  {
    var first := WaitFirst(recv, 0);
    WaitFirstSpec(recv, 0);
    if first.None? {
      return [];
    }
    var k := first.value;
    var attempts, used;
    ips, attempts, used := CollectResponses(recv, k);
    assert Collected(recv, k, attempts, ips);
    forall x | x in ips
      ensures exists j :: recv(j) == Packet(x)
    {
      PacketIpsReceived(recv, k, attempts, x);
    }
    // the first iteration always runs and reads the peeked answer
    assert attempts >= 1;
    var s := PacketIps(recv, k, attempts);
    PacketIpsStart(recv, k, attempts);
    DedupPrefix(s, 1);
    assert s[..1] == [recv(k).ip];
    assert Dedup([recv(k).ip]) == [recv(k).ip] by {
      assert [recv(k).ip][..0] == [];
    }
  }

  /** Every collected address was the address of some answer. */
  lemma {:induction false} PacketIpsReceived(recv: nat -> Recv, start: nat, n: nat, x: string)
    requires x in PacketIps(recv, start, n)
    ensures exists j :: recv(j) == Packet(x)
  {
    if n > 0 {
      if x in PacketIps(recv, start, n - 1) {
        PacketIpsReceived(recv, start, n - 1, x);
      } else {
        assert recv(start + n - 1) == Packet(x);
      }
    }
  }

  /** When the stream starts with an answer, so do its addresses. */
  lemma {:induction false} PacketIpsStart(recv: nat -> Recv, start: nat, n: nat)
    requires n >= 1 && recv(start).Packet?
    ensures |PacketIps(recv, start, n)| >= 1 && PacketIps(recv, start, n)[0] == recv(start).ip
  {
    if n > 1 {
      PacketIpsStart(recv, start, n - 1);
    }
  }

  /** `get_ip`: a socket that cannot be set up gives no addresses; a working one gives exactly
      what discovery collected. */
  method GetIp(socketOk: bool, recv: nat -> Recv) returns (ips: seq<string>)
    ensures !socketOk ==> ips == []
    ensures NoDup(ips)
    ensures forall x :: x in ips ==> exists j :: recv(j) == Packet(x)
    ensures socketOk && WaitFirst(recv, 0).None? ==> ips == []
    ensures socketOk && WaitFirst(recv, 0).Some? ==> |ips| > 0
    ensures socketOk && WaitFirst(recv, 0).Some? ==> exists a :: Collected(recv, WaitFirst(recv, 0).value, a, ips)
  {
    if !socketOk {
      return [];
    }
    ips := DiscoverDevices(recv);
  }
}
