/** The device coordinator: a registry of tracked devices keyed by device id, with an index
    from IP address to device id, and the operations that change them: registration, removal,
    state-update bookkeeping, the periodic health check, and the two re-discovery paths that
    move a device to a new address. Network probes are arguments: the attempts a probe's
    `connect()` sees at each address. */
module Coordinator {
  import opened Wrappers
  import opened Const
  import opened Client

  /** A `DeviceEntry`. */
  datatype Entry = Entry(
    deviceId: string,
    ip: string,
    client: Client,
    deviceType: string,
    lastSeen: real,
    offlineSince: Option<real>,
    lastRediscoveryAttempt: real)

  /** The coordinator's two maps: `devices` (id to entry) and `ipToDevice` (address to id). */
  datatype Registry = Registry(devices: map<string, Entry>, ipToDevice: map<string, string>)

  /** The two maps agree: every entry is stored under its own id, its address maps back to it and
      its client uses that address; every mapped address belongs to a registered entry at that
      address. */
  predicate Consistent(reg: Registry) {
    && (forall id :: id in reg.devices ==>
          && reg.devices[id].deviceId == id
          && reg.devices[id].ip in reg.ipToDevice
          && reg.ipToDevice[reg.devices[id].ip] == id
          && reg.devices[id].client.ip == reg.devices[id].ip)
    && (forall ip :: ip in reg.ipToDevice ==>
          reg.ipToDevice[ip] in reg.devices && reg.devices[reg.ipToDevice[ip]].ip == ip)
  }

  const EmptyRegistry := Registry(map[], map[])

  lemma EmptyRegistryConsistent()
    ensures Consistent(EmptyRegistry)
  {
  }

  // ---------------------------------------------------------------------------
  // add_device / remove_device

  /** The entry `add_device` creates for a new device. */
  function NewEntry(client: Client, now: Time): (e: Entry)
    ensures e.deviceId == client.info.deviceId && e.ip == client.ip && e.client == client
    ensures e.offlineSince == None
  {
    Entry(client.info.deviceId, client.ip, client, client.info.typeCode, now, None, 0.0)
  }

  /** `add_device(client)`. An empty device id is refused. A registered id is not added again:
      when the client reports a different address, the old address is unmapped, the new one
      mapped, and the existing entry and ITS client move to it. A new id gets a new entry. */
  function AddDevice(reg: Registry, client: Client, now: Time): (r: (Registry, bool))
  {
    var id := client.info.deviceId;
    if id == "" then (reg, false)
    else if id in reg.devices then
      var e := reg.devices[id];
      if e.ip != client.ip then
        (Registry(reg.devices[id := e.(ip := client.ip, client := UpdateIp(e.client, client.ip).0)],
                  (reg.ipToDevice - {e.ip})[client.ip := id]), false)
      else (reg, false)
    else
      (Registry(reg.devices[id := NewEntry(client, now)], reg.ipToDevice[client.ip := id]), true)
  }

  /** What `add_device` does in each of its three cases. */
  lemma AddDeviceSpec(reg: Registry, client: Client, now: Time)
    ensures var (r, added) := AddDevice(reg, client, now);
      var id := client.info.deviceId;
      && (added <==> id != "" && id !in reg.devices)
      && (id == "" ==> r == reg)
      && (added ==> r.devices == reg.devices[id := NewEntry(client, now)]
                    && r.ipToDevice == reg.ipToDevice[client.ip := id]
                    && |r.devices| == |reg.devices| + 1)
      && (id != "" && id in reg.devices ==>
            && r.devices.Keys == reg.devices.Keys
            && r.devices[id].ip == client.ip
            && (forall other :: other in reg.devices && other != id ==> r.devices[other] == reg.devices[other])
            && (reg.devices[id].ip != client.ip ==>
                  && r.devices[id].client == UpdateIp(reg.devices[id].client, client.ip).0
                  && r.ipToDevice == (reg.ipToDevice - {reg.devices[id].ip})[client.ip := id])
            && (reg.devices[id].ip == client.ip ==> r == reg))
  {
  }

  /** The maps stay consistent after `add_device` exactly when the client's address is free or
      already belongs to the same device. Nothing in `add_device` checks this: adding a device at
      an address that another registered device holds leaves that device's entry pointing at an
      address that now maps elsewhere. Its callers only ever pass free addresses. */
  lemma AddDeviceConsistentIff(reg: Registry, client: Client, now: Time)
    requires Consistent(reg) && client.info.deviceId != ""
    ensures Consistent(AddDevice(reg, client, now).0) <==>
      client.ip !in reg.ipToDevice || reg.ipToDevice[client.ip] == client.info.deviceId
  {
    var id := client.info.deviceId;
    var r := AddDevice(reg, client, now).0;
    if client.ip in reg.ipToDevice && reg.ipToDevice[client.ip] != id {
      var owner := reg.ipToDevice[client.ip];
      assert owner in r.devices && r.devices[owner] == reg.devices[owner];
      assert r.ipToDevice[client.ip] == id;
    } else if id in reg.devices {
      var e := reg.devices[id];
      if e.ip != client.ip {
        assert forall ip :: ip in r.ipToDevice && ip != client.ip ==> ip in reg.ipToDevice && reg.ipToDevice[ip] != id;
      }
    }
  }

  /** `remove_device(device_id)`: an unknown id changes nothing; a known one loses its entry and
      its address. */
  function RemoveDevice(reg: Registry, id: string): (r: (Registry, bool))
    ensures r.1 <==> id in reg.devices
    ensures !r.1 ==> r.0 == reg
    ensures r.1 ==> r.0.devices == reg.devices - {id} && r.0.ipToDevice == reg.ipToDevice - {reg.devices[id].ip}
  {
    if id !in reg.devices then (reg, false)
    else (Registry(reg.devices - {id}, reg.ipToDevice - {reg.devices[id].ip}), true)
  }

  lemma RemoveDeviceConsistent(reg: Registry, id: string)
    requires Consistent(reg)
    ensures Consistent(RemoveDevice(reg, id).0)
    ensures id in reg.devices ==> reg.devices[id].ip !in RemoveDevice(reg, id).0.ipToDevice
  {
  }

  /** Round trip: registering a new device at a free address and then removing it restores the
      registry exactly. */
  lemma AddThenRemove(reg: Registry, client: Client, now: Time)
    requires client.info.deviceId != "" && client.info.deviceId !in reg.devices
    requires client.ip !in reg.ipToDevice
    ensures RemoveDevice(AddDevice(reg, client, now).0, client.info.deviceId) == (reg, true)
  {
    var id := client.info.deviceId;
    var r := AddDevice(reg, client, now).0;
    assert r.devices - {id} == reg.devices;
    assert r.ipToDevice - {client.ip} == reg.ipToDevice;
  }

  // ---------------------------------------------------------------------------
  // State updates and the health check

  /** `_on_device_state_update`: a push from a registered device marks it seen and not offline. */
  function OnDeviceStateUpdate(reg: Registry, id: string, now: Time): (r: Registry)
    ensures r.ipToDevice == reg.ipToDevice && r.devices.Keys == reg.devices.Keys
    ensures id in reg.devices ==> r.devices[id] == reg.devices[id].(lastSeen := now, offlineSince := None)
    ensures forall other :: other in reg.devices && other != id ==> r.devices[other] == reg.devices[other]
  {
    if id in reg.devices then
      reg.(devices := reg.devices[id := reg.devices[id].(lastSeen := now, offlineSince := None)])
    else reg
  }

  lemma OnDeviceStateUpdateConsistent(reg: Registry, id: string, now: Time)
    requires Consistent(reg)
    ensures Consistent(OnDeviceStateUpdate(reg, id, now))
  {
  }

  /** What the health check does to one entry, and which signals it raises for it. */
  datatype Health = Health(entry: Entry, wentOffline: bool, rediscover: bool)

  /** The per-entry step of `_async_health_check`, driven by the client's device state. */
  function CheckEntry(e: Entry, now: Time): (h: Health)
  {
    match e.client.deviceState
    case Online => Health(e.(lastSeen := now, offlineSince := None), false, false)
    case Offline =>
      var first := e.offlineSince.None?;
      var e1 := if first then e.(offlineSince := Some(now)) else e;
      if now - e.lastRediscoveryAttempt >= DeviceRediscoveryInterval then
        Health(e1.(lastRediscoveryAttempt := now), first, true)
      else Health(e1, first, false)
    case Connecting => Health(e, false, false)
    case Unknown => Health(e, false, false)
  }

  /** An online device is seen now and not offline. An offline device is stamped offline now
      and announced once, at the start of the outage; a targeted search is requested exactly
      when the last one is at least 120 s old, and its time is recorded. Connecting and unknown
      devices are left alone. The address and client never change. */
  lemma CheckEntrySpec(e: Entry, now: Time)
    ensures var h := CheckEntry(e, now);
      && h.entry.ip == e.ip && h.entry.client == e.client && h.entry.deviceId == e.deviceId
      && (e.client.deviceState == Online ==>
            h.entry == e.(lastSeen := now, offlineSince := None) && !h.wentOffline && !h.rediscover)
      && (e.client.deviceState == Offline ==>
            && (h.wentOffline <==> e.offlineSince.None?)
            && h.entry.offlineSince == (if e.offlineSince.None? then Some(now) else e.offlineSince)
            && (h.rediscover <==> now - e.lastRediscoveryAttempt >= DeviceRediscoveryInterval)
            && h.entry.lastRediscoveryAttempt == (if h.rediscover then now else e.lastRediscoveryAttempt)
            && h.entry.lastSeen == e.lastSeen)
      && (e.client.deviceState == Connecting || e.client.deviceState == Unknown ==>
            h == Health(e, false, false))
  {
  }

  /** `_async_health_check`: every entry is checked; the result lists the devices announced as
      offline and those for which a targeted search was started. */
  function HealthCheck(reg: Registry, now: Time): (r: (Registry, set<string>, set<string>))
  {
    (reg.(devices := map id | id in reg.devices :: CheckEntry(reg.devices[id], now).entry),
     set id | id in reg.devices && CheckEntry(reg.devices[id], now).wentOffline,
     set id | id in reg.devices && CheckEntry(reg.devices[id], now).rediscover)
  }

  /** The health check keeps the maps consistent and never touches the address index. */
  lemma HealthCheckConsistent(reg: Registry, now: Time)
    requires Consistent(reg)
    ensures Consistent(HealthCheck(reg, now).0)
    ensures HealthCheck(reg, now).0.ipToDevice == reg.ipToDevice
  {
    var r := HealthCheck(reg, now).0;
    forall id | id in reg.devices
      ensures r.devices[id].ip == reg.devices[id].ip && r.devices[id].client == reg.devices[id].client
      ensures r.devices[id].deviceId == reg.devices[id].deviceId
    {
      CheckEntrySpec(reg.devices[id], now);
    }
  }

  /** A second health check at the same moment announces nothing and starts no search: the
      outage is already stamped and the search time already recorded. */
  lemma HealthCheckSettles(reg: Registry, now: Time)
    ensures var r := HealthCheck(reg, now).0;
      HealthCheck(r, now).1 == {} && HealthCheck(r, now).2 == {}
  {
    var r := HealthCheck(reg, now).0;
    forall id | id in r.devices
      ensures !CheckEntry(r.devices[id], now).wentOffline && !CheckEntry(r.devices[id], now).rediscover
    {
      var e := reg.devices[id];
      CheckEntrySpec(e, now);
      CheckEntrySpec(r.devices[id], now);
    }
  }

  // ---------------------------------------------------------------------------
  // Re-discovery

  /** The addresses the periodic scan probes: everything either discovery source found (a failed
      source counts as nothing) that is not already mapped. */
  function NewIps(reg: Registry, udp: Option<seq<string>>, hostname: Option<seq<string>>): (r: set<string>)
  {
    (set ip | ip in udp.GetOr([]) + hostname.GetOr([])) - reg.ipToDevice.Keys
  }

  /** An address is probed exactly when a source found it and it is not mapped. */
  lemma NewIpsSpec(reg: Registry, udp: Option<seq<string>>, hostname: Option<seq<string>>, ip: string)
    ensures ip in NewIps(reg, udp, hostname) <==>
      ((udp.Some? && ip in udp.value) || (hostname.Some? && ip in hostname.value)) && ip !in reg.ipToDevice
  {
  }

  /** A probe: a fresh client for the address and an unforced `connect()`. */
  function Probe(ip: string, now: Time, outcome: nat -> Attempt): (r: (Client, bool))
    ensures r.0.ip == ip
  {
    ConnectOutcome(NewClient(ip), false, now, outcome);
    Connect(NewClient(ip), false, now, outcome)
  }

  /** Move a registered device to a free address: unmap the old address, map the new one, and
      reconnect the entry's own client there. */
  function MoveDevice(reg: Registry, id: string, ip: string, now: Time, outcome: nat -> Attempt): (r: Registry)
    requires id in reg.devices
  {
    var e := reg.devices[id];
    ReconnectWithNewIpSpec(e.client, ip, now, outcome);
    Registry(reg.devices[id := e.(ip := ip, client := ReconnectWithNewIp(e.client, ip, now, outcome).0)],
             (reg.ipToDevice - {e.ip})[ip := id])
  }

  /** A move to a free address keeps the maps consistent, keeps the set of devices, and changes
      no other entry; the address index gains only the new address. */
  lemma MoveDeviceConsistent(reg: Registry, id: string, ip: string, now: Time, outcome: nat -> Attempt)
    requires Consistent(reg) && id in reg.devices && ip !in reg.ipToDevice
    ensures var r := MoveDevice(reg, id, ip, now, outcome);
      && Consistent(r)
      && r.devices.Keys == reg.devices.Keys
      && r.devices[id].ip == ip
      && (forall other :: other in reg.devices && other != id ==> r.devices[other] == reg.devices[other])
      && r.ipToDevice.Keys <= reg.ipToDevice.Keys + {ip}
  {
    var e := reg.devices[id];
    ReconnectWithNewIpSpec(e.client, ip, now, outcome);
  }

  /** One address of `_check_new_ips`: the probe's device is moved there if known, registered if
      new and of a supported type, and otherwise ignored. */
  function CheckIp(reg: Registry, ip: string, now: Time, probe: nat -> Attempt, move: nat -> Attempt): (r: Registry)
  {
    var (p, ok) := Probe(ip, now, probe);
    var id := p.info.deviceId;
    if !ok || id == "" then reg
    else if id in reg.devices then MoveDevice(reg, id, ip, now, move)
    else if p.info.typeCode in SupportDeviceCategory then AddDevice(reg, p, now).0
    else reg
  }

  /** On a free address the check keeps the maps consistent and maps at most that address anew. */
  lemma CheckIpConsistent(reg: Registry, ip: string, now: Time, probe: nat -> Attempt, move: nat -> Attempt)
    requires Consistent(reg) && ip !in reg.ipToDevice
    ensures var r := CheckIp(reg, ip, now, probe, move);
      && Consistent(r)
      && reg.devices.Keys <= r.devices.Keys
      && r.ipToDevice.Keys <= reg.ipToDevice.Keys + {ip}
  {
    var (p, ok) := Probe(ip, now, probe);
    var id := p.info.deviceId;
    if ok && id != "" {
      if id in reg.devices {
        MoveDeviceConsistent(reg, id, ip, now, move);
      } else if p.info.typeCode in SupportDeviceCategory {
        AddDeviceConsistentIff(reg, p, now);
        AddDeviceSpec(reg, p, now);
      }
    }
  }

  /** `_check_new_ips` over the addresses in the order the set yields them; `probe(ip)` and
      `move(ip)` are the attempts the probe and a moved client see at that address. */
  function CheckNewIps(reg: Registry, ips: seq<string>, now: Time,
                       probe: string -> (nat -> Attempt), move: string -> (nat -> Attempt)): (r: Registry)
    decreases |ips|
  {
    if |ips| == 0 then reg
    else CheckNewIps(CheckIp(reg, ips[0], now, probe(ips[0]), move(ips[0])), ips[1..], now, probe, move)
  }

  /** The periodic scan keeps the maps consistent: each probed address was free when the scan
      began and the addresses are distinct, so each is still free when its turn comes. */
  lemma {:induction false} CheckNewIpsConsistent(reg: Registry, ips: seq<string>, now: Time,
                                                 probe: string -> (nat -> Attempt), move: string -> (nat -> Attempt))
    requires Consistent(reg)
    requires forall i :: 0 <= i < |ips| ==> ips[i] !in reg.ipToDevice
    requires forall i, j :: 0 <= i < j < |ips| ==> ips[i] != ips[j]
    ensures Consistent(CheckNewIps(reg, ips, now, probe, move))
    ensures reg.devices.Keys <= CheckNewIps(reg, ips, now, probe, move).devices.Keys
    decreases |ips|
  {
    if |ips| > 0 {
      var r1 := CheckIp(reg, ips[0], now, probe(ips[0]), move(ips[0]));
      CheckIpConsistent(reg, ips[0], now, probe(ips[0]), move(ips[0]));
      assert forall i :: 0 <= i < |ips[1..]| ==> ips[1..][i] == ips[i + 1];
      CheckNewIpsConsistent(r1, ips[1..], now, probe, move);
    }
  }

  /** A device found again by the targeted search: moved to the address and no longer offline. */
  function Recover(reg: Registry, id: string, ip: string, now: Time, outcome: nat -> Attempt): (r: Registry)
    requires id in reg.devices
  {
    var r := MoveDevice(reg, id, ip, now, outcome);
    r.(devices := r.devices[id := r.devices[id].(offlineSince := None)])
  }

  lemma RecoverSpec(reg: Registry, id: string, ip: string, now: Time, outcome: nat -> Attempt)
    requires Consistent(reg) && id in reg.devices && ip !in reg.ipToDevice
    ensures var r := Recover(reg, id, ip, now, outcome);
      && Consistent(r)
      && r.devices.Keys == reg.devices.Keys
      && r.devices[id].ip == ip && r.devices[id].offlineSince == None
      && (forall other :: other in reg.devices && other != id ==> r.devices[other] == reg.devices[other])
  {
    var m := MoveDevice(reg, id, ip, now, outcome);
    MoveDeviceConsistent(reg, id, ip, now, outcome);
    ReplaceEntryConsistent(m, id, m.devices[id].(offlineSince := None));
  }

  /** Replacing an entry by one with the same id, address and client address keeps the maps
      consistent. */
  lemma ReplaceEntryConsistent(reg: Registry, id: string, e: Entry)
    requires Consistent(reg) && id in reg.devices
    requires e.deviceId == id && e.ip == reg.devices[id].ip && e.client.ip == e.ip
    ensures Consistent(reg.(devices := reg.devices[id := e]))
  {
  }

  /** `_rediscover_device(target)`: mapped addresses are skipped; the first probe that reports
      the target ends the search, moving the target's entry there and clearing its outage. */
  function RediscoverDevice(reg: Registry, target: string, ips: seq<string>, now: Time,
                            probe: string -> (nat -> Attempt), move: string -> (nat -> Attempt)): (r: Registry)
    decreases |ips|
  {
    if |ips| == 0 then reg
    else
      var ip := ips[0];
      if ip in reg.ipToDevice then RediscoverDevice(reg, target, ips[1..], now, probe, move)
      else
        var (p, ok) := Probe(ip, now, probe(ip));
        if ok && p.info.deviceId == target then
          if target in reg.devices then Recover(reg, target, ip, now, move(ip)) else reg
        else RediscoverDevice(reg, target, ips[1..], now, probe, move)
  }

  /** The targeted search keeps the maps consistent and the set of devices; the target either
      stays where it was or ends, no longer offline, at one of the scanned addresses that was
      free; every other entry is untouched. */
  lemma {:induction false} RediscoverDeviceSpec(reg: Registry, target: string, ips: seq<string>, now: Time,
                                                probe: string -> (nat -> Attempt), move: string -> (nat -> Attempt))
    requires Consistent(reg)
    ensures var r := RediscoverDevice(reg, target, ips, now, probe, move);
      && Consistent(r)
      && r.devices.Keys == reg.devices.Keys
      && (forall other :: other in reg.devices && other != target ==> r.devices[other] == reg.devices[other])
      && (target in reg.devices ==>
            r.devices[target] == reg.devices[target]
            || (r.devices[target].ip in ips && r.devices[target].ip !in reg.ipToDevice
                && r.devices[target].offlineSince == None))
    decreases |ips|
  {
    if |ips| > 0 {
      var ip := ips[0];
      if ip in reg.ipToDevice {
        RediscoverDeviceSpec(reg, target, ips[1..], now, probe, move);
      } else {
        var (p, ok) := Probe(ip, now, probe(ip));
        if ok && p.info.deviceId == target {
          if target in reg.devices {
            RecoverSpec(reg, target, ip, now, move(ip));
          }
        } else {
          RediscoverDeviceSpec(reg, target, ips[1..], now, probe, move);
        }
      }
    }
  }
}
