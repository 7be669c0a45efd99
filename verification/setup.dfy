/** Setting up a config entry (`async_setup_entry` in `__init__.py`): the configured addresses,
    the merged address list, the two connection passes, which clients are registered with the
    coordinator and which are disconnected as unsupported. The connection attempts each pass
    sees at an address are parameters. */
module Setup {
  import opened Wrappers
  import opened Text
  import opened Const
  import opened JsonValue
  import opened Client
  import opened Coordinator

  // ---------------------------------------------------------------------------
  // Configured addresses

  /** The stripped pieces that are not empty, in order. */
  function StrippedNonEmpty(parts: seq<string>): (r: seq<string>)
  {
    if |parts| == 0 then []
    else (if Strip(parts[0]) != "" then [Strip(parts[0])] else []) + StrippedNonEmpty(parts[1..])
  }

  /** `[ip.strip() for ip in ips.split(",") if ip.strip()]`. */
  function ConfigIps(text: string): (r: seq<string>)
  {
    StrippedNonEmpty(Split(text, ','))
  }

  /** Every piece with its surrounding whitespace removed. */
  function StripAll(parts: seq<string>): (r: seq<string>)
  {
    seq(|parts|, i requires 0 <= i < |parts| => Strip(parts[i]))
  }

  /** The configured addresses are the stripped pieces that are not empty: each is a non-empty,
      comma-free piece of the text without surrounding whitespace, and every such piece is
      configured. */
  lemma {:induction false} StrippedNonEmptySpec(parts: seq<string>)
    requires forall i :: 0 <= i < |parts| ==> ',' !in parts[i]
    ensures var r := StrippedNonEmpty(parts);
      && |r| <= |parts|
      && (forall i :: 0 <= i < |r| ==> r[i] != "" && ',' !in r[i] && !IsSpace(r[i][0]) && !IsSpace(r[i][|r[i]| - 1]))
      && (forall x :: x in r <==> x != "" && x in StripAll(parts))
  {
    if |parts| > 0 {
      var p := parts[0];
      StrippedNonEmptySpec(parts[1..]);
      StripSpec(p);
      assert ',' !in Strip(p);
      assert StripAll(parts) == [Strip(p)] + StripAll(parts[1..]);
    }
  }

  lemma ConfigIpsSpec(text: string)
    ensures var r := ConfigIps(text);
      && (forall i :: 0 <= i < |r| ==> r[i] != "" && ',' !in r[i] && !IsSpace(r[i][0]) && !IsSpace(r[i][|r[i]| - 1]))
      && (forall x :: x in r <==> x != "" && x in StripAll(Split(text, ',')))
  {
    StrippedNonEmptySpec(Split(text, ','));
  }

  /** Writing addresses as a comma-separated list and reading them back gives the same
      addresses in the same order. */
  lemma {:induction false} ConfigIpsRoundTrip(ips: seq<string>)
    requires forall i :: 0 <= i < |ips| ==>
      ips[i] != "" && ',' !in ips[i] && !IsSpace(ips[i][0]) && !IsSpace(ips[i][|ips[i]| - 1])
    ensures ConfigIps(Join(ips, ",")) == ips
  {
    if |ips| == 0 {
      assert Split("", ',') == [""];
      assert StrippedNonEmpty([""]) == StrippedNonEmpty([""][1..]);
    } else {
      SplitJoin(ips, ',');
      StrippedAll(ips);
    }
  }

  lemma {:induction false} StrippedAll(ips: seq<string>)
    requires forall i :: 0 <= i < |ips| ==>
      ips[i] != "" && !IsSpace(ips[i][0]) && !IsSpace(ips[i][|ips[i]| - 1])
    ensures StrippedNonEmpty(ips) == ips
  {
    if |ips| > 0 {
      StripIdentity(ips[0]);
      StrippedAll(ips[1..]);
      assert ips == [ips[0]] + ips[1..];
    }
  }

  // ---------------------------------------------------------------------------
  // The address list

  /** `list(set(ip_udp + ip_hostname + ip_config))`: a discovery source that raised (`None`)
      contributes nothing. */
  function IpList(udp: Option<seq<string>>, hostname: Option<seq<string>>, config: seq<string>): (r: set<string>)
  {
    var all := (if udp.Some? then udp.value else []) + (if hostname.Some? then hostname.value else []) + config;
    set x | x in all
  }

  /** The list holds each address found by any source, once; a failed source is the same as one
      that found nothing. */
  lemma IpListSpec(udp: Option<seq<string>>, hostname: Option<seq<string>>, config: seq<string>)
    ensures forall x :: x in IpList(udp, hostname, config) <==>
      (udp.Some? && x in udp.value) || (hostname.Some? && x in hostname.value) || x in config
    ensures IpList(None, hostname, config) == IpList(Some([]), hostname, config)
    ensures IpList(udp, None, config) == IpList(udp, Some([]), config)
  {
  }

  // ---------------------------------------------------------------------------
  // The connection passes

  /** One client per address, in the given order. */
  function NewClients(ips: seq<string>): (r: seq<Client>)
  {
    seq(|ips|, i requires 0 <= i < |ips| => NewClient(ips[i]))
  }

  /** The first pass: an unforced `connect()` on every client. */
  function ConnectAll(clients: seq<Client>, now: Time, outcome: string -> nat -> Attempt): (r: seq<Client>)
  {
    seq(|clients|, i requires 0 <= i < |clients| => Connect(clients[i], false, now, outcome(clients[i].ip)).0)
  }

  /** The second pass: `connect(force=True)` on the clients still without a device id. */
  function RetryFailed(clients: seq<Client>, now: Time, outcome: string -> nat -> Attempt): (r: seq<Client>)
  {
    seq(|clients|, i requires 0 <= i < |clients| =>
      if clients[i].info.deviceId == "" then Connect(clients[i], true, now, outcome(clients[i].ip)).0
      else clients[i])
  }

  /** What an opened attempt leaves in a client that started from device information `info`:
      online, with what the handshake and the dpid query learned, and connected unless the dpid
      query lost the connection. */
  predicate Opening(info: DeviceInfo, a: Attempt, r: Client)
    requires a.Opened?
  {
    && r.deviceState == Online
    && r.info == OpenedInfo(info, a)
    && (r.connected <==> !QueriesDpid(info, a) || a.query.stillOpen)
  }

  /** `connect()` never changes a client's address, whatever happens. */
  lemma ConnectKeepsIp(c: Client, force: bool, now: Time, outcome: nat -> Attempt)
    ensures Connect(c, force, now, outcome).0.ip == c.ip
  {
    if force || now >= c.nextRetryTime {
      ConnectOutcome(c, force, now, outcome);
    }
  }

  /** A new client is never held back, so the first pass decides each client by its attempts:
      one whose deciding attempt opened is left as `Opening` says; any other keeps its empty
      information, so it has no device id. */
  lemma ConnectAllSpec(ips: seq<string>, now: Time, outcome: string -> nat -> Attempt)
    ensures var r := ConnectAll(NewClients(ips), now, outcome);
      && |r| == |ips|
      && forall i :: 0 <= i < |ips| ==>
           var a := outcome(ips[i])(DecidingAttempt(0, outcome(ips[i])));
           && r[i].ip == ips[i]
           && (a.Opened? ==> Opening(EmptyInfo, a, r[i]))
           && (!a.Opened? ==> r[i].info == EmptyInfo)
  {
    var r := ConnectAll(NewClients(ips), now, outcome);
    forall i | 0 <= i < |ips|
      ensures var a := outcome(ips[i])(DecidingAttempt(0, outcome(ips[i])));
        && r[i].ip == ips[i]
        && (a.Opened? ==> Opening(EmptyInfo, a, r[i]))
        && (!a.Opened? ==> r[i].info == EmptyInfo)
    {
      ConnectOutcome(NewClient(ips[i]), false, now, outcome(ips[i]));
    }
  }

  /** The second pass leaves every client that has a device id untouched and retries exactly the
      others: a retry whose deciding attempt opened leaves the client as `Opening` says, a
      failed one leaves its information as it was; no address changes. */
  lemma RetryFailedSpec(clients: seq<Client>, now: Time, outcome: string -> nat -> Attempt)
    ensures var r := RetryFailed(clients, now, outcome);
      && |r| == |clients|
      && forall i :: 0 <= i < |clients| ==>
           var a := outcome(clients[i].ip)(DecidingAttempt(0, outcome(clients[i].ip)));
           && r[i].ip == clients[i].ip
           && (clients[i].info.deviceId != "" ==> r[i] == clients[i])
           && (clients[i].info.deviceId == "" && a.Opened? ==>
                 Opening(clients[i].info, a, r[i]))
           && (clients[i].info.deviceId == "" && !a.Opened? ==> r[i].info == clients[i].info)
  {
    var r := RetryFailed(clients, now, outcome);
    forall i | 0 <= i < |clients| && clients[i].info.deviceId == ""
      ensures var a := outcome(clients[i].ip)(DecidingAttempt(0, outcome(clients[i].ip)));
        && r[i].ip == clients[i].ip
        && (a.Opened? ==> Opening(clients[i].info, a, r[i]))
        && (!a.Opened? ==> r[i].info == clients[i].info)
    {
      ConnectOutcome(clients[i], true, now, outcome(clients[i].ip));
    }
  }

  // ---------------------------------------------------------------------------
  // Registration

  /** Which branch of the registration loop a client takes. */
  datatype Verdict = Supported | DefaultedToSwitch | AvailableWithId | Skipped

  function Classify(c: Client): (v: Verdict)
  {
    if c.info.typeCode != "" && c.info.typeCode in SupportDeviceCategory then Supported
    else if c.info.deviceId != "" && c.info.typeCode == "" then DefaultedToSwitch
    else if c.available && c.info.deviceId != "" then AvailableWithId
    else Skipped
  }

  /** The client as the loop leaves it: an identified client of unknown type becomes a switch. */
  function Prepared(c: Client): (r: Client)
  {
    if Classify(c) == DefaultedToSwitch then c.(info := c.info.(typeCode := SwitchTypeCode)) else c
  }

  /** The disconnect rule: a known type outside the supported categories. */
  predicate Unsupported(c: Client) {
    c.info.typeCode != "" && c.info.typeCode !in SupportDeviceCategory
  }

  /** A client is registered exactly when its type is supported, or it has an id and no type
      (it is then made a switch), or it is available and has an id. Only the defaulting branch
      changes the client. It is disconnected as unsupported exactly when it arrived with a type
      outside the categories, and such a client can still have been registered, through the
      available-with-id branch. */
  lemma ClassifySpec(c: Client)
    ensures Classify(c) != Skipped <==>
      c.info.typeCode in SupportDeviceCategory
      || (c.info.deviceId != "" && c.info.typeCode == "")
      || (c.available && c.info.deviceId != "")
    ensures Classify(c) == DefaultedToSwitch ==>
      Prepared(c).info.typeCode == SwitchTypeCode && Prepared(c).(info := c.info) == c
    ensures Classify(c) != DefaultedToSwitch ==> Prepared(c) == c
    ensures Unsupported(Prepared(c)) <==> Unsupported(c)
    ensures Unsupported(c) && Classify(c) != Skipped ==> Classify(c) == AvailableWithId
    ensures Classify(c) == Supported || Classify(c) == DefaultedToSwitch ==>
      Prepared(c).info.typeCode in SupportDeviceCategory
  {
    ConstantsConsistent();
  }

  /** An available client with an id and an unknown type code is both registered and
      disconnected. */
  lemma RegisteredThenDisconnected(c: Client)
    requires c.available && c.info.deviceId != "" && c.info.typeCode != "" && c.info.typeCode !in SupportDeviceCategory
    ensures Classify(c) == AvailableWithId && Unsupported(Prepared(c))
  {
  }

  /** The registry as the registration loop leaves it, client by client: each client that is not
      skipped is prepared and passed to `add_device`. */
  function RegisterAll(reg: Registry, clients: seq<Client>, now: Time): (r: Registry)
    decreases |clients|
  {
    if |clients| == 0 then reg
    else
      var reg1 := RegisterAll(reg, clients[..|clients| - 1], now);
      var c := clients[|clients| - 1];
      if Classify(c) == Skipped then reg1 else AddDevice(reg1, Prepared(c), now).0
  }

  /** No two clients share an address. */
  predicate DistinctIps(clients: seq<Client>) {
    forall i, j :: 0 <= i < j < |clients| ==> clients[i].ip != clients[j].ip
  }

  /** One step of the loop on a client whose address is free keeps the registry consistent and
      maps at most that address in addition. */
  lemma RegisterStep(reg: Registry, c: Client, now: Time)
    requires Consistent(reg) && c.ip !in reg.ipToDevice
    ensures var r := if Classify(c) == Skipped then reg else AddDevice(reg, Prepared(c), now).0;
      && Consistent(r)
      && forall ip :: ip in r.ipToDevice ==> ip in reg.ipToDevice || ip == c.ip
  {
    if Classify(c) != Skipped {
      AddDeviceSpec(reg, Prepared(c), now);
      if Prepared(c).info.deviceId != "" {
        AddDeviceConsistentIff(reg, Prepared(c), now);
      }
    }
  }

  /** Registration maps only the clients' addresses, so with distinct addresses not yet in a
      consistent registry the registry stays consistent. */
  lemma {:induction false} RegisterAllConsistent(reg: Registry, clients: seq<Client>, now: Time)
    requires Consistent(reg) && DistinctIps(clients)
    requires forall i :: 0 <= i < |clients| ==> clients[i].ip !in reg.ipToDevice
    ensures var r := RegisterAll(reg, clients, now);
      && Consistent(r)
      && forall ip :: ip in r.ipToDevice ==> ip in reg.ipToDevice || exists i :: 0 <= i < |clients| && clients[i].ip == ip
    decreases |clients|
  {
    if |clients| > 0 {
      var n := |clients| - 1;
      var init := clients[..n];
      RegisterAllConsistent(reg, init, now);
      var reg1 := RegisterAll(reg, init, now);
      var c := clients[n];
      assert c.ip !in reg1.ipToDevice;
      RegisterStep(reg1, c, now);
      forall ip | ip in RegisterAll(reg, clients, now).ipToDevice
        ensures ip in reg.ipToDevice || exists i :: 0 <= i < |clients| && clients[i].ip == ip
      {
        if ip != c.ip {
          assert ip in reg1.ipToDevice;
          if !(ip in reg.ipToDevice) {
            var i :| 0 <= i < |init| && init[i].ip == ip;
            assert clients[i].ip == ip;
          }
        }
      }
    }
  }

  // ---------------------------------------------------------------------------
  // The registration loop on the client objects

  /** The loop's state on the client objects themselves. `add_device` stores the object it is
      given, so a registered entry and the client at its index are one object: `owner` maps
      each registered id to that index. `valid` lists the indices appended to `valid_clients`. */
  datatype Registration = Registration(registry: Registry, owner: map<string, nat>,
                                       objects: seq<Client>, valid: seq<nat>)

  /** Every registered id has an owner among the objects, and nothing else has one. */
  predicate Owned(s: Registration) {
    && s.owner.Keys == s.registry.devices.Keys
    && forall id :: id in s.owner ==> s.owner[id] < |s.objects|
  }

  /** The loop body on the object at index `i`: the defaulting branch changes the object itself,
      and when its id is already registered at another address, `update_ip` moves the entry's
      object, the one at the owner index, to this object's address. */
  function RegisterOne(s: Registration, i: nat, now: Time): (r: Registration)
    requires Owned(s) && i < |s.objects|
    ensures Owned(r) && |r.objects| == |s.objects|
  {
    var c := s.objects[i];
    if Classify(c) == Skipped then s
    else
      var p := Prepared(c);
      var objs := s.objects[i := p];
      var id := p.info.deviceId;
      AddDeviceSpec(s.registry, p, now);
      var (reg, added) := AddDevice(s.registry, p, now);
      if added then Registration(reg, s.owner[id := i], objs, s.valid + [i])
      else if id != "" && s.registry.devices[id].ip != p.ip then
        var j := s.owner[id];
        Registration(reg, s.owner, objs[j := UpdateIp(objs[j], p.ip).0], s.valid + [i])
      else Registration(reg, s.owner, objs, s.valid + [i])
  }

  /** The three ways the loop body changes the objects: not at all when skipped; the object
      itself when it is prepared; and also the owner's object when `update_ip` moves it. */
  lemma RegisterOneSpec(s: Registration, i: nat, now: Time)
    requires Owned(s) && i < |s.objects|
    ensures var r := RegisterOne(s, i, now);
      var p := Prepared(s.objects[i]);
      var id := p.info.deviceId;
      var objs := s.objects[i := p];
      && (Classify(s.objects[i]) == Skipped ==> r == s)
      && (Classify(s.objects[i]) != Skipped ==>
            && r.registry == AddDevice(s.registry, p, now).0
            && r.valid == s.valid + [i]
            && (id != "" && id !in s.owner ==> r.owner == s.owner[id := i] && r.objects == objs)
            && (id != "" && id in s.owner && s.registry.devices[id].ip != p.ip ==>
                  r.owner == s.owner && r.objects == objs[s.owner[id] := UpdateIp(objs[s.owner[id]], p.ip).0])
            && (id == "" || (id in s.owner && s.registry.devices[id].ip == p.ip) ==>
                  r.owner == s.owner && r.objects == objs))
  {
    if Classify(s.objects[i]) != Skipped {
      AddDeviceSpec(s.registry, Prepared(s.objects[i]), now);
    }
  }

  /** The loop over the first `n` objects, from an empty registry. */
  function RegisterFirst(clients: seq<Client>, n: nat, now: Time): (r: Registration)
    requires n <= |clients|
    ensures Owned(r) && |r.objects| == |clients|
  {
    if n == 0 then Registration(EmptyRegistry, map[], clients, [])
    else RegisterOne(RegisterFirst(clients, n - 1, now), n - 1, now)
  }

  /** What the loop has done after `n` objects: the later objects are untouched; each earlier
      one carries its prepared information and availability; every owner is an earlier index
      whose client reported that id, and no index owns two ids. */
  predicate Shaped(clients: seq<Client>, n: nat, r: Registration) {
    && |r.objects| == |clients|
    && (forall k :: n <= k < |clients| ==> r.objects[k] == clients[k])
    && (forall k :: 0 <= k < n && k < |clients| ==>
          r.objects[k].info == Prepared(clients[k]).info && r.objects[k].available == clients[k].available)
    && (forall id :: id in r.owner ==> r.owner[id] < n && r.owner[id] < |clients| && clients[r.owner[id]].info.deviceId == id)
    && (forall id1, id2 :: id1 in r.owner && id2 in r.owner && id1 != id2 ==> r.owner[id1] != r.owner[id2])
  }

  /** How the loop body treats object `i`: skipped, registered under a new id, moving the
      owner of its already registered id, or prepared with nothing else changed. */
  datatype Branch = SkipBranch | AddBranch | MoveBranch | KeepBranch

  function BranchOf(s: Registration, i: nat): Branch
    requires i < |s.objects|
  {
    var p := Prepared(s.objects[i]);
    var id := p.info.deviceId;
    if Classify(s.objects[i]) == Skipped then SkipBranch
    else if id != "" && id !in s.owner then AddBranch
    else if id != "" && id in s.registry.devices && s.registry.devices[id].ip != p.ip then MoveBranch
    else KeepBranch
  }

  /** The loop body on object `n - 1` extends the shape to `n`. */
  lemma ShapeOne(clients: seq<Client>, n: nat, s: Registration, now: Time)
    requires 0 < n <= |clients| && Owned(s) && Shaped(clients, n - 1, s)
    ensures Shaped(clients, n, RegisterOne(s, n - 1, now))
  {
    match BranchOf(s, n - 1) {
      case SkipBranch => ShapeSkip(clients, n, s, now);
      case AddBranch => ShapeAdd(clients, n, s, now);
      case MoveBranch => ShapeMove(clients, n, s, now);
      case KeepBranch => ShapeKeep(clients, n, s, now);
    }
  }

  lemma ShapeSkip(clients: seq<Client>, n: nat, s: Registration, now: Time)
    requires 0 < n <= |clients| && Owned(s) && Shaped(clients, n - 1, s) && BranchOf(s, n - 1) == SkipBranch
    ensures Shaped(clients, n, RegisterOne(s, n - 1, now))
  {
    RegisterOneSpec(s, n - 1, now);
    ClassifySpec(s.objects[n - 1]);
    assert s.objects[n - 1 := Prepared(s.objects[n - 1])] == s.objects;
    ShapeKept(clients, n, s, RegisterOne(s, n - 1, now));
  }

  lemma ShapeAdd(clients: seq<Client>, n: nat, s: Registration, now: Time)
    requires 0 < n <= |clients| && Owned(s) && Shaped(clients, n - 1, s) && BranchOf(s, n - 1) == AddBranch
    ensures Shaped(clients, n, RegisterOne(s, n - 1, now))
  {
    RegisterOneSpec(s, n - 1, now);
    ShapeAdded(clients, n, s, RegisterOne(s, n - 1, now));
  }

  lemma ShapeMove(clients: seq<Client>, n: nat, s: Registration, now: Time)
    requires 0 < n <= |clients| && Owned(s) && Shaped(clients, n - 1, s) && BranchOf(s, n - 1) == MoveBranch
    ensures Shaped(clients, n, RegisterOne(s, n - 1, now))
  {
    RegisterOneSpec(s, n - 1, now);
    ShapeMoved(clients, n, s, RegisterOne(s, n - 1, now), Prepared(s.objects[n - 1]).info.deviceId);
  }

  lemma ShapeKeep(clients: seq<Client>, n: nat, s: Registration, now: Time)
    requires 0 < n <= |clients| && Owned(s) && Shaped(clients, n - 1, s) && BranchOf(s, n - 1) == KeepBranch
    ensures Shaped(clients, n, RegisterOne(s, n - 1, now))
  {
    RegisterOneSpec(s, n - 1, now);
    ShapeKept(clients, n, s, RegisterOne(s, n - 1, now));
  }

  /** A step that changes only the object at `n - 1`, to its prepared self. */
  lemma ShapeKept(clients: seq<Client>, n: nat, s: Registration, r: Registration)
    requires 0 < n <= |clients| && Shaped(clients, n - 1, s)
    requires r.owner == s.owner && r.objects == s.objects[n - 1 := Prepared(s.objects[n - 1])]
    ensures Shaped(clients, n, r)
  {
    assert s.objects[n - 1] == clients[n - 1];
    forall k | 0 <= k < n
      ensures r.objects[k].info == Prepared(clients[k]).info && r.objects[k].available == clients[k].available
    {
      if k < n - 1 {
        assert r.objects[k] == s.objects[k];
      } else {
        ClassifySpec(clients[k]);
      }
    }
  }

  /** A step that registers a new id at `n - 1`. */
  lemma ShapeAdded(clients: seq<Client>, n: nat, s: Registration, r: Registration)
    requires 0 < n <= |clients| && Shaped(clients, n - 1, s)
    requires var id := Prepared(s.objects[n - 1]).info.deviceId;
      && id !in s.owner
      && r.owner == s.owner[id := n - 1] && r.objects == s.objects[n - 1 := Prepared(s.objects[n - 1])]
    ensures Shaped(clients, n, r)
  {
    var id := Prepared(s.objects[n - 1]).info.deviceId;
    ShapeKept(clients, n, s, r.(owner := s.owner));
    assert s.objects[n - 1] == clients[n - 1];
    ClassifySpec(clients[n - 1]);
    forall id1 | id1 in r.owner
      ensures r.owner[id1] < n && r.owner[id1] < |clients| && clients[r.owner[id1]].info.deviceId == id1
    {
    }
    forall id1, id2 | id1 in r.owner && id2 in r.owner && id1 != id2
      ensures r.owner[id1] != r.owner[id2]
    {
      if id1 != id && id2 != id {
        assert r.owner[id1] == s.owner[id1] && r.owner[id2] == s.owner[id2];
      }
    }
  }

  /** A step that moves the owner of `id` to the address of the object at `n - 1`. */
  lemma ShapeMoved(clients: seq<Client>, n: nat, s: Registration, r: Registration, id: string)
    requires 0 < n <= |clients| && Shaped(clients, n - 1, s) && id in s.owner
    requires var p := Prepared(s.objects[n - 1]);
      var objs := s.objects[n - 1 := p];
      && r.owner == s.owner && r.objects == objs[s.owner[id] := UpdateIp(objs[s.owner[id]], p.ip).0]
    ensures Shaped(clients, n, r)
  {
    var p := Prepared(s.objects[n - 1]);
    var objs := s.objects[n - 1 := p];
    var j := s.owner[id];
    var kept := r.(objects := objs);
    ShapeKept(clients, n, s, kept);
    assert j < n - 1;
    var moved := UpdateIp(objs[j], p.ip).0;
    assert moved.info == objs[j].info && moved.available == objs[j].available;
    forall k | 0 <= k < |clients|
      ensures r.objects[k] == (if k == j then moved else kept.objects[k])
    {
    }
  }

  /** Every registered entry holds exactly the object at its owner index. */
  predicate Aliased(s: Registration) {
    && Owned(s)
    && forall id :: id in s.registry.devices ==> s.registry.devices[id].client == s.objects[s.owner[id]]
  }

  lemma SharedOne(clients: seq<Client>, n: nat, s: Registration, now: Time)
    requires 0 < n <= |clients| && Shaped(clients, n - 1, s) && Aliased(s)
    ensures Aliased(RegisterOne(s, n - 1, now))
  {
    var i := n - 1;
    RegisterOneSpec(s, i, now);
    match BranchOf(s, i) {
      case SkipBranch =>
      case AddBranch => SharedAdd(clients, n, s, now);
      case MoveBranch =>
        var p := Prepared(s.objects[i]);
        AddDeviceSpec(s.registry, p, now);
        SharedMoved(s, RegisterOne(s, i, now), i, p.info.deviceId, now);
      case KeepBranch => SharedKeep(clients, n, s, now);
    }
  }

  lemma SharedAdd(clients: seq<Client>, n: nat, s: Registration, now: Time)
    requires 0 < n <= |clients| && Shaped(clients, n - 1, s) && Aliased(s) && BranchOf(s, n - 1) == AddBranch
    ensures Aliased(RegisterOne(s, n - 1, now))
  {
    var i := n - 1;
    var r := RegisterOne(s, i, now);
    var p := Prepared(s.objects[i]);
    var id := p.info.deviceId;
    RegisterOneSpec(s, i, now);
    AddDeviceSpec(s.registry, p, now);
    forall id2 | id2 in r.registry.devices
      ensures r.registry.devices[id2].client == r.objects[r.owner[id2]]
    {
      if id2 != id {
        assert r.registry.devices[id2] == s.registry.devices[id2];
        assert r.owner[id2] == s.owner[id2] < i;
      }
    }
  }

  lemma SharedKeep(clients: seq<Client>, n: nat, s: Registration, now: Time)
    requires 0 < n <= |clients| && Shaped(clients, n - 1, s) && Aliased(s) && BranchOf(s, n - 1) == KeepBranch
    ensures Aliased(RegisterOne(s, n - 1, now))
  {
    var i := n - 1;
    var r := RegisterOne(s, i, now);
    var p := Prepared(s.objects[i]);
    RegisterOneSpec(s, i, now);
    AddDeviceSpec(s.registry, p, now);
    assert r.registry == s.registry;
    forall id2 | id2 in r.registry.devices
      ensures r.registry.devices[id2].client == r.objects[r.owner[id2]]
    {
      assert r.owner[id2] == s.owner[id2] < i;
    }
  }

  /** The moving branch keeps the aliasing: the owner's object and its entry move together. */
  lemma SharedMoved(s: Registration, r: Registration, i: nat, id: string, now: Time)
    requires Aliased(s) && i < |s.objects| && id in s.owner
    requires forall id2 :: id2 in s.owner ==> s.owner[id2] < i
    requires forall id1, id2 :: id1 in s.owner && id2 in s.owner && id1 != id2 ==> s.owner[id1] != s.owner[id2]
    requires var p := Prepared(s.objects[i]);
      var objs := s.objects[i := p];
      && Owned(r)
      && r.owner == s.owner && r.objects == objs[s.owner[id] := UpdateIp(objs[s.owner[id]], p.ip).0]
      && r.registry.devices.Keys == s.registry.devices.Keys
      && r.registry.devices[id].client == UpdateIp(s.registry.devices[id].client, p.ip).0
      && (forall other :: other in s.registry.devices && other != id ==> r.registry.devices[other] == s.registry.devices[other])
    ensures Aliased(r)
  {
    var j := s.owner[id];
    forall id2 | id2 in r.registry.devices
      ensures r.registry.devices[id2].client == r.objects[r.owner[id2]]
    {
      if id2 != id {
        assert s.owner[id2] != j && s.owner[id2] < i;
      }
    }
  }

  /** An object keeps its own address unless a later client reporting the same id moved it to
      that later client's address. */
  predicate MovedOnlyToSameId(clients: seq<Client>, n: nat, objects: seq<Client>)
    requires |objects| == |clients|
  {
    forall k :: 0 <= k < |clients| ==>
      objects[k].ip == clients[k].ip
      || exists m :: k < m < n && m < |clients| && objects[k].ip == clients[m].ip
                     && clients[m].info.deviceId == clients[k].info.deviceId != ""
  }

  lemma MovesOne(clients: seq<Client>, n: nat, s: Registration, now: Time)
    requires 0 < n <= |clients| && Owned(s) && Shaped(clients, n - 1, s)
    requires MovedOnlyToSameId(clients, n - 1, s.objects)
    ensures MovedOnlyToSameId(clients, n, RegisterOne(s, n - 1, now).objects)
  {
    var i := n - 1;
    var r := RegisterOne(s, i, now);
    RegisterOneSpec(s, i, now);
    var p := Prepared(s.objects[i]);
    var id := p.info.deviceId;
    assert s.objects[i] == clients[i];
    ClassifySpec(clients[i]);
    var moving := Classify(s.objects[i]) != Skipped && id != "" && id in s.owner && s.registry.devices[id].ip != p.ip;
    forall k | 0 <= k < |clients|
      ensures r.objects[k].ip == clients[k].ip
        || exists m :: k < m < n && m < |clients| && r.objects[k].ip == clients[m].ip
                       && clients[m].info.deviceId == clients[k].info.deviceId != ""
    {
      if moving && k == s.owner[id] {
        assert r.objects[k].ip == clients[i].ip;
      } else if r.objects[k].ip != clients[k].ip {
        assert k != i;
        assert r.objects[k] == s.objects[k];
        var m :| k < m < n - 1 && m < |clients| && s.objects[k].ip == clients[m].ip
                 && clients[m].info.deviceId == clients[k].info.deviceId != "";
      }
    }
  }

  /** The indices among the first `n` that the loop did not skip, in increasing order. */
  ghost predicate ValidUpTo(clients: seq<Client>, n: nat, v: seq<nat>) {
    && (forall k :: k in v <==> 0 <= k < n && k < |clients| && Classify(clients[k]) != Skipped)
    && (forall a, b :: 0 <= a < b < |v| ==> v[a] < v[b])
  }

  /** The loop body on object `n - 1` extends the valid list by `n - 1` exactly when it does not
      skip that object. */
  lemma ValidOne(clients: seq<Client>, n: nat, s: Registration, now: Time)
    requires 0 < n <= |clients| && Owned(s) && Shaped(clients, n - 1, s) && ValidUpTo(clients, n - 1, s.valid)
    ensures ValidUpTo(clients, n, RegisterOne(s, n - 1, now).valid)
  {
    var i := n - 1;
    var r := RegisterOne(s, i, now);
    RegisterOneSpec(s, i, now);
    assert s.objects[i] == clients[i];
    if Classify(clients[i]) != Skipped {
      assert r.valid == s.valid + [i];
      forall k ensures k in r.valid <==> 0 <= k < n && k < |clients| && Classify(clients[k]) != Skipped {
        assert k in r.valid <==> k in s.valid || k == i;
      }
      forall a, b | 0 <= a < b < |r.valid| ensures r.valid[a] < r.valid[b] {
        if b == |s.valid| {
          assert r.valid[a] == s.valid[a] && s.valid[a] in s.valid;
        }
      }
    }
  }

  /** `RegisterAll` on a non-empty list: the earlier clients, then the last one. */
  lemma RegisterAllLast(reg: Registry, clients: seq<Client>, now: Time)
    requires |clients| > 0
    ensures var reg1 := RegisterAll(reg, clients[..|clients| - 1], now);
      var c := clients[|clients| - 1];
      RegisterAll(reg, clients, now) == if Classify(c) == Skipped then reg1 else AddDevice(reg1, Prepared(c), now).0
  {
  }

  /** The loop body on object `n - 1` keeps the registry equal to `RegisterAll`'s. */
  lemma RegistryOne(clients: seq<Client>, n: nat, s: Registration, now: Time)
    requires 0 < n <= |clients| && Owned(s) && Shaped(clients, n - 1, s)
    requires s.registry == RegisterAll(EmptyRegistry, clients[..n - 1], now)
    ensures RegisterOne(s, n - 1, now).registry == RegisterAll(EmptyRegistry, clients[..n], now)
  {
    RegisterOneSpec(s, n - 1, now);
    assert s.objects[n - 1] == clients[n - 1];
    RegisterAllLast(EmptyRegistry, clients[..n], now);
    assert clients[..n][..n - 1] == clients[..n - 1];
  }

  /** Among the first `n` clients, every id that a client the loop kept reported is registered,
      and every registered id is owned by such a client. */
  ghost predicate Covered(clients: seq<Client>, n: nat, owner: map<string, nat>) {
    && (forall k :: 0 <= k < n && k < |clients| && Classify(clients[k]) != Skipped && clients[k].info.deviceId != "" ==>
          clients[k].info.deviceId in owner)
    && (forall id :: id in owner ==> owner[id] < |clients| && Classify(clients[owner[id]]) != Skipped)
  }

  /** The loop body on object `n - 1` registers its id unless it skips it, and makes only a
      client it keeps an owner. */
  lemma CoveredOne(clients: seq<Client>, n: nat, s: Registration, now: Time)
    requires 0 < n <= |clients| && Owned(s) && Shaped(clients, n - 1, s) && Covered(clients, n - 1, s.owner)
    ensures Covered(clients, n, RegisterOne(s, n - 1, now).owner)
  {
    var i := n - 1;
    RegisterOneSpec(s, i, now);
    assert s.objects[i] == clients[i];
    PreparedKeeps(clients[i]);
    if Classify(clients[i]) != Skipped {
      CoveredKept(clients, n, s.owner, RegisterOne(s, i, now).owner);
    }
  }

  /** The covering after a kept client at index `n - 1`, whose id, if any, the loop body
      registers, owning it when it is new. */
  lemma CoveredKept(clients: seq<Client>, n: nat, owner: map<string, nat>, owner1: map<string, nat>)
    requires 0 < n <= |clients| && Covered(clients, n - 1, owner) && Classify(clients[n - 1]) != Skipped
    requires var id := clients[n - 1].info.deviceId;
      && (id != "" && id !in owner ==> owner1 == owner[id := n - 1])
      && (id == "" || id in owner ==> owner1 == owner)
    ensures Covered(clients, n, owner1)
  {
    assert owner1.Keys >= owner.Keys;
    forall k | 0 <= k < n && Classify(clients[k]) != Skipped && clients[k].info.deviceId != ""
      ensures clients[k].info.deviceId in owner1
    {
      if k < n - 1 {
        assert clients[k].info.deviceId in owner;
      }
    }
  }

  /** Everything the loop keeps after `n` objects: the shape, the aliasing, where objects moved,
      the valid list, and a registry equal to the one `RegisterAll` computes from the clients. */
  ghost predicate Loop(clients: seq<Client>, n: nat, r: Registration, now: Time)
    requires n <= |clients|
  {
    && Shaped(clients, n, r)
    && Aliased(r)
    && MovedOnlyToSameId(clients, n, r.objects)
    && ValidUpTo(clients, n, r.valid)
    && Covered(clients, n, r.owner)
    && r.registry == RegisterAll(EmptyRegistry, clients[..n], now)
  }

  lemma {:induction false} RegisterFirstLoop(clients: seq<Client>, n: nat, now: Time)
    requires n <= |clients|
    ensures Loop(clients, n, RegisterFirst(clients, n, now), now)
  {
    if n > 0 {
      RegisterFirstLoop(clients, n - 1, now);
      LoopStep(clients, n, now);
    }
  }

  lemma LoopStep(clients: seq<Client>, n: nat, now: Time)
    requires 0 < n <= |clients| && Loop(clients, n - 1, RegisterFirst(clients, n - 1, now), now)
    ensures Loop(clients, n, RegisterFirst(clients, n, now), now)
  {
    LoopOne(clients, n, RegisterFirst(clients, n - 1, now), now);
  }

  lemma LoopOne(clients: seq<Client>, n: nat, s: Registration, now: Time)
    requires 0 < n <= |clients| && Owned(s) && Loop(clients, n - 1, s, now)
    ensures Loop(clients, n, RegisterOne(s, n - 1, now), now)
  {
    ShapeOne(clients, n, s, now);
    SharedOne(clients, n, s, now);
    MovesOne(clients, n, s, now);
    ValidOne(clients, n, s, now);
    CoveredOne(clients, n, s, now);
    RegistryOne(clients, n, s, now);
  }

  /** Preparing a client changes at most its type code. */
  lemma PreparedKeeps(c: Client)
    ensures Prepared(c).info.deviceId == c.info.deviceId && Prepared(c).ip == c.ip
    ensures Prepared(c).available == c.available && Prepared(c).connected == c.connected
  {
  }

  /** Two objects that report the same id from two addresses both end at the later address, and
      the one registered entry holds the first object. */
  lemma SameIdTwoAddresses(a: Client, b: Client, now: Time)
    requires a.info.deviceId == b.info.deviceId != "" && a.ip != b.ip
    requires Classify(a) != Skipped && Classify(b) != Skipped
    ensures var r := RegisterFirst([a, b], 2, now);
      && r.objects[0].ip == b.ip && r.objects[1].ip == b.ip
      && r.registry.devices.Keys == {a.info.deviceId}
      && r.registry.devices[a.info.deviceId].client == r.objects[0]
  {
    var id := a.info.deviceId;
    PreparedKeeps(a);
    PreparedKeeps(b);
    var s0 := RegisterFirst([a, b], 0, now);
    var s1 := RegisterFirst([a, b], 1, now);
    var s2 := RegisterFirst([a, b], 2, now);
    assert s1 == RegisterOne(s0, 0, now);
    assert s2 == RegisterOne(s1, 1, now);
    RegisterOneSpec(s0, 0, now);
    AddDeviceSpec(EmptyRegistry, Prepared(a), now);
    assert s1.owner == map[id := 0] && s1.objects == [Prepared(a), b];
    assert s1.registry.devices == map[id := NewEntry(Prepared(a), now)];
    RegisterOneSpec(s1, 1, now);
    AddDeviceSpec(s1.registry, Prepared(b), now);
    assert s2.objects == [UpdateIp(Prepared(a), b.ip).0, Prepared(b)];
  }

  /** The disconnect pass: every client with an unsupported type is disconnected, the others are
      left alone; no address, information or availability changes. */
  function DisconnectUnsupported(clients: seq<Client>): (r: seq<Client>)
    ensures |r| == |clients|
    ensures forall i :: 0 <= i < |clients| ==>
      && r[i].ip == clients[i].ip && r[i].info == clients[i].info && r[i].available == clients[i].available
      && (Unsupported(clients[i]) ==> !r[i].connected)
      && (!Unsupported(clients[i]) ==> r[i] == clients[i])
  {
    seq(|clients|, i requires 0 <= i < |clients| => if Unsupported(clients[i]) then Disconnect(clients[i]) else clients[i])
  }

  /** Points every registered entry at its object as it now is. */
  function ShareObjects(reg: Registry, owner: map<string, nat>, objects: seq<Client>): (r: Registry)
    requires owner.Keys == reg.devices.Keys && forall id :: id in owner ==> owner[id] < |objects|
    ensures r.ipToDevice == reg.ipToDevice && r.devices.Keys == reg.devices.Keys
    ensures forall id :: id in r.devices ==> r.devices[id] == reg.devices[id].(client := objects[owner[id]])
  {
    Registry(map id | id in reg.devices :: reg.devices[id].(client := objects[owner[id]]), reg.ipToDevice)
  }

  /** Sharing objects that sit where the entries' clients sat keeps the registry consistent. */
  lemma ShareObjectsConsistent(reg: Registry, owner: map<string, nat>, objects: seq<Client>)
    requires Consistent(reg)
    requires owner.Keys == reg.devices.Keys && forall id :: id in owner ==> owner[id] < |objects|
    requires forall id :: id in reg.devices ==> objects[owner[id]].ip == reg.devices[id].client.ip
    ensures Consistent(ShareObjects(reg, owner, objects))
  {
  }

  // ---------------------------------------------------------------------------
  // The whole set-up

  /** The registry, the valid clients as indices into `clients`, and the client objects. */
  datatype SetupResult = SetupResult(registry: Registry, valid: seq<nat>, clients: seq<Client>)

  /** Registration and the disconnect pass, on the clients the two connection passes left. */
  function Finish(connected: seq<Client>, now: Time): (r: SetupResult)
  {
    var s := RegisterFirst(connected, |connected|, now);
    var objects := DisconnectUnsupported(s.objects);
    SetupResult(ShareObjects(s.registry, s.owner, objects), s.valid, objects)
  }

  /** `async_setup_entry` from the merged address list on: `order` is the order in which the
      address set happens to be listed. */
  function SetupEntry(order: seq<string>, now: Time, first: string -> nat -> Attempt,
                      retry: string -> nat -> Attempt): (r: SetupResult)
  {
    Finish(RetryFailed(ConnectAll(NewClients(order), now, first), now, retry), now)
  }

  /** One client per listed address, and a client leaves its address only for the address of a
      later listed client that reported the same device id. */
  predicate AtListedAddresses(ips: seq<string>, r: SetupResult) {
    && |r.clients| == |ips|
    && forall i :: 0 <= i < |ips| ==>
         r.clients[i].ip == ips[i]
         || exists m :: i < m < |ips| && r.clients[i].ip == ips[m]
                        && r.clients[m].info.deviceId == r.clients[i].info.deviceId != ""
  }

  /** The coordinator's maps are consistent and each registered entry holds one of the clients. */
  ghost predicate RegistryOfClients(r: SetupResult) {
    && Consistent(r.registry)
    && forall id :: id in r.registry.devices ==>
         exists k :: 0 <= k < |r.clients| && r.registry.devices[id].client == r.clients[k]
  }

  /** The valid clients are, in order, exactly the clients the loop did not skip. */
  ghost predicate ValidInOrder(r: SetupResult) {
    && (forall k :: k in r.valid <==> 0 <= k < |r.clients| && Classify(r.clients[k]) != Skipped)
    && (forall a, b :: 0 <= a < b < |r.valid| ==> r.valid[a] < r.valid[b])
  }

  /** Every client the loop kept that has an id is registered under it, and every registered
      id belongs to a kept client whose object the entry holds. */
  ghost predicate RegistryOfKept(r: SetupResult) {
    && (forall k :: 0 <= k < |r.clients| && Classify(r.clients[k]) != Skipped && r.clients[k].info.deviceId != "" ==>
          r.clients[k].info.deviceId in r.registry.devices)
    && (forall id :: id in r.registry.devices ==>
          exists k :: 0 <= k < |r.clients| && Classify(r.clients[k]) != Skipped
                      && r.clients[k].info.deviceId == id && r.registry.devices[id].client == r.clients[k])
  }

  /** No client with an unsupported type is still connected, registered or not. */
  predicate UnsupportedClosed(r: SetupResult) {
    && (forall i :: 0 <= i < |r.clients| && Unsupported(r.clients[i]) ==> !r.clients[i].connected)
    && (forall id :: id in r.registry.devices && Unsupported(r.registry.devices[id].client) ==>
          !r.registry.devices[id].client.connected)
  }

  /** Set-up makes one client per listed address, each staying at its address unless a later
      listed client reported the same device id; the coordinator's maps are consistent, map only
      listed addresses and hold the clients themselves; the valid clients are, in order, exactly
      those the loop did not skip; every kept client with an id is registered under it, and
      every registered id is that of a kept client; and no client with an unsupported type is still connected. */
  lemma SetupEntrySpec(udp: Option<seq<string>>, hostname: Option<seq<string>>, config: string,
                       order: seq<string>, now: Time, first: string -> nat -> Attempt,
                       retry: string -> nat -> Attempt)
    requires NoDup(order) && forall x :: x in order <==> x in IpList(udp, hostname, ConfigIps(config))
    ensures var r := SetupEntry(order, now, first, retry);
      && AtListedAddresses(order, r)
      && RegistryOfClients(r)
      && (forall ip :: ip in r.registry.ipToDevice ==> ip in IpList(udp, hostname, ConfigIps(config)))
      && ValidInOrder(r)
      && RegistryOfKept(r)
      && UnsupportedClosed(r)
  {
    var c1 := ConnectAll(NewClients(order), now, first);
    ConnectAllSpec(order, now, first);
    var connected := RetryFailed(c1, now, retry);
    RetryFailedSpec(c1, now, retry);
    FinishAddresses(order, connected, now);
    FinishRegistry(order, connected, now);
    FinishValid(connected, now);
    FinishKept(connected, now);
    FinishClosed(connected, now);
  }

  lemma FinishAddresses(order: seq<string>, connected: seq<Client>, now: Time)
    requires |connected| == |order| && forall i :: 0 <= i < |order| ==> connected[i].ip == order[i]
    ensures AtListedAddresses(order, Finish(connected, now))
  {
    var n := |connected|;
    var s := RegisterFirst(connected, n, now);
    var r := Finish(connected, now);
    RegisterFirstLoop(connected, n, now);
    forall i | 0 <= i < n
      ensures r.clients[i].ip == s.objects[i].ip
      ensures r.clients[i].info.deviceId == connected[i].info.deviceId
    {
      PreparedKeeps(connected[i]);
    }
    forall i | 0 <= i < n && r.clients[i].ip != order[i]
      ensures exists m :: i < m < n && r.clients[i].ip == order[m]
                          && r.clients[m].info.deviceId == r.clients[i].info.deviceId != ""
    {
      var m :| i < m < n && m < n && s.objects[i].ip == connected[m].ip
               && connected[m].info.deviceId == connected[i].info.deviceId != "";
      assert r.clients[i].ip == order[m];
    }
  }

  lemma FinishRegistry(order: seq<string>, connected: seq<Client>, now: Time)
    requires NoDup(order) && |connected| == |order|
    requires forall i :: 0 <= i < |order| ==> connected[i].ip == order[i]
    ensures var r := Finish(connected, now);
      RegistryOfClients(r) && forall ip :: ip in r.registry.ipToDevice ==> ip in order
  {
    var n := |connected|;
    var s := RegisterFirst(connected, n, now);
    var r := Finish(connected, now);
    RegisterFirstLoop(connected, n, now);
    RegisteredConsistent(order, connected, now);
    FinishConsistent(connected, now);
    forall id | id in r.registry.devices
      ensures exists k :: 0 <= k < |r.clients| && r.registry.devices[id].client == r.clients[k]
    {
      assert r.registry.devices[id].client == r.clients[s.owner[id]];
    }
  }

  /** The loop's registry is consistent and maps only listed addresses. */
  lemma RegisteredConsistent(order: seq<string>, connected: seq<Client>, now: Time)
    requires NoDup(order) && |connected| == |order|
    requires forall i :: 0 <= i < |order| ==> connected[i].ip == order[i]
    ensures var reg := RegisterFirst(connected, |connected|, now).registry;
      Consistent(reg) && forall ip :: ip in reg.ipToDevice ==> ip in order
  {
    var n := |connected|;
    RegisterFirstLoop(connected, n, now);
    assert connected[..n] == connected;
    assert DistinctIps(connected);
    EmptyRegistryConsistent();
    RegisterAllConsistent(EmptyRegistry, connected, now);
    forall ip | ip in RegisterAll(EmptyRegistry, connected, now).ipToDevice ensures ip in order {
      var i :| 0 <= i < n && connected[i].ip == ip;
    }
  }

  /** Sharing the disconnected objects keeps the loop's registry consistent. */
  lemma FinishConsistent(connected: seq<Client>, now: Time)
    requires Consistent(RegisterFirst(connected, |connected|, now).registry)
    ensures Consistent(Finish(connected, now).registry)
  {
    var n := |connected|;
    var s := RegisterFirst(connected, n, now);
    var objects := DisconnectUnsupported(s.objects);
    RegisterFirstLoop(connected, n, now);
    ShareObjectsConsistent(s.registry, s.owner, objects);
  }

  lemma FinishValid(connected: seq<Client>, now: Time)
    ensures ValidInOrder(Finish(connected, now))
  {
    var n := |connected|;
    var s := RegisterFirst(connected, n, now);
    var r := Finish(connected, now);
    RegisterFirstLoop(connected, n, now);
    forall k | 0 <= k < n
      ensures Classify(r.clients[k]) != Skipped <==> Classify(connected[k]) != Skipped
    {
      ClassifySpec(connected[k]);
      PreparedKeeps(connected[k]);
      assert Classify(r.clients[k]) == Classify(Prepared(connected[k]));
    }
  }

  lemma FinishKept(connected: seq<Client>, now: Time)
    ensures RegistryOfKept(Finish(connected, now))
  {
    var n := |connected|;
    var s := RegisterFirst(connected, n, now);
    var r := Finish(connected, now);
    RegisterFirstLoop(connected, n, now);
    forall k | 0 <= k < n
      ensures Classify(r.clients[k]) != Skipped <==> Classify(connected[k]) != Skipped
      ensures r.clients[k].info.deviceId == connected[k].info.deviceId
    {
      ClassifySpec(connected[k]);
      PreparedKeeps(connected[k]);
      assert Classify(r.clients[k]) == Classify(Prepared(connected[k]));
    }
    forall id | id in r.registry.devices
      ensures exists k :: 0 <= k < n && Classify(r.clients[k]) != Skipped
                          && r.clients[k].info.deviceId == id && r.registry.devices[id].client == r.clients[k]
    {
      var k := s.owner[id];
      assert r.registry.devices[id].client == r.clients[k];
    }
  }

  lemma FinishClosed(connected: seq<Client>, now: Time)
    ensures UnsupportedClosed(Finish(connected, now))
  {
    var n := |connected|;
    var s := RegisterFirst(connected, n, now);
    var r := Finish(connected, now);
    RegisterFirstLoop(connected, n, now);
    forall id | id in r.registry.devices
      ensures r.registry.devices[id].client == r.clients[s.owner[id]]
    {
    }
  }

  /** A light that only the dpid query could have typed is registered as a switch: the handshake
      left it untyped, the query's dpids come after the inference, and the registration loop
      defaults an identified client of unknown type to "00". */
  lemma QueriedLightRegisteredAsSwitch(info: DeviceInfo, a: Attempt, c: Client)
    requires a.Opened? && QueriesDpid(info, a)
    requires HandshakeInfo(info, a).typeCode == "" && HandshakeInfo(info, a).deviceId != ""
    requires c.info == OpenedInfo(info, a)
    ensures Classify(c) == DefaultedToSwitch && Prepared(c).info.typeCode == SwitchTypeCode
    ensures a.query.answer.Some? && Get(a.query.answer.value, "attr") == Some(JArr([JInt(1), JInt(3), JInt(4)])) ==>
      HasLightDpid(Prepared(c).info.dpid)
  {
    OpenedInfoSpec(info, a);
    QueriedDpidsStayUntyped(info, a);
  }
}
