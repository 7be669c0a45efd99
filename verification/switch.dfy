/** The switch entity (`CozyLifeSwitch`) and the platforms' choice of clients: which clients get
    an entity, the switch's name, its polled `is_on`, its on/off payloads with the optimistic
    update, and its availability. */
module Switch {
  import opened Wrappers
  import opened JsonValue
  import opened Const
  import opened Client
  import opened Text
  import opened Codec
  import opened Entity

  // ---------------------------------------------------------------------------
  // Platform set-up

  /** `async_setup_entry` of a platform: the clients whose type code is exactly `code`, in order. */
  function PlatformClients(clients: seq<Client>, code: string): (r: seq<Client>)
  {
    if |clients| == 0 then []
    else (if clients[0].info.typeCode == code then [clients[0]] else []) + PlatformClients(clients[1..], code)
  }

  /** A platform takes exactly the clients of its type code, and no more clients than there are. */
  lemma {:induction false} PlatformClientsSpec(clients: seq<Client>, code: string)
    ensures var r := PlatformClients(clients, code);
      && |r| <= |clients|
      && (forall x :: x in r ==> x in clients && x.info.typeCode == code)
      && (forall x :: x in clients && x.info.typeCode == code ==> x in r)
  {
    if |clients| > 0 {
      PlatformClientsSpec(clients[1..], code);
      forall x | x in clients && x.info.typeCode == code
        ensures x in PlatformClients(clients, code)
      {
        if x != clients[0] {
          assert x in clients[1..];
        }
      }
    }
  }

  /** The switch platform as written: type code `"00"` only. */
  function SwitchClients(clients: seq<Client>): (r: seq<Client>) {
    PlatformClients(clients, SwitchTypeCode)
  }

  /** The light platform: type code `"01"`. */
  function LightClients(clients: seq<Client>): (r: seq<Client>) {
    PlatformClients(clients, LightTypeCode)
  }

  /** A socket (`"02"`) is a supported category, so set-up registers it, yet neither platform
      creates an entity for it. */
  lemma SocketGetsNoEntity(clients: seq<Client>, socket: Client)
    requires socket in clients && socket.info.typeCode == SocketTypeCode
    ensures SocketTypeCode in SupportDeviceCategory
    ensures socket !in SwitchClients(clients) && socket !in LightClients(clients)
  {
    PlatformClientsSpec(clients, SwitchTypeCode);
    PlatformClientsSpec(clients, LightTypeCode);
  }

  /** The switch platform over the switch-like types (`"00"` and `"02"`), as the socket type's
      description intends. */
  function SwitchLikeClients(clients: seq<Client>): (r: seq<Client>)
  {
    if |clients| == 0 then []
    else (if clients[0].info.typeCode in SwitchLikeTypes then [clients[0]] else []) + SwitchLikeClients(clients[1..])
  }

  /** With the switch-like filter, every client of a supported category gets exactly one
      entity kind: a light for `"01"`, a switch for `"00"` and `"02"`. */
  lemma {:induction false} EveryCategoryGetsEntity(clients: seq<Client>, x: Client)
    requires x in clients && x.info.typeCode in SupportDeviceCategory
    ensures x in LightClients(clients) <==> x.info.typeCode == LightTypeCode
    ensures x in SwitchLikeClients(clients) <==> x.info.typeCode != LightTypeCode
  {
    PlatformClientsSpec(clients, LightTypeCode);
    SwitchLikeClientsSpec(clients);
  }

  lemma {:induction false} SwitchLikeClientsSpec(clients: seq<Client>)
    ensures forall x :: x in SwitchLikeClients(clients) <==> x in clients && x.info.typeCode in SwitchLikeTypes
  {
    if |clients| > 0 {
      SwitchLikeClientsSpec(clients[1..]);
      assert forall x :: x in clients <==> x == clients[0] || x in clients[1..];
    }
  }

  // ---------------------------------------------------------------------------
  // The switch entity

  datatype SwitchEntity = SwitchEntity(name: string, isOn: bool, state: map<string, Json>)

  /** `device_name or device_model_name or "CozyLife Switch"`. */
  function SwitchName(info: DeviceInfo): (r: string)
  {
    if info.deviceName != "" then info.deviceName
    else if info.modelName != "" then info.modelName
    else "CozyLife Switch"
  }

  /** The switch's name is never empty and agrees with the base entity's name whenever the device
      has a name or a model name; only the last resort differs. */
  lemma SwitchNameSpec(info: DeviceInfo)
    ensures SwitchName(info) != ""
    ensures info.deviceName != "" || info.modelName != "" ==> SwitchName(info) == EntityName(info)
    ensures info.deviceName == "" && info.modelName == "" ==>
      (SwitchName(info) == EntityName(info) <==> Head8(info.deviceId) == "Switch")
  {
    if info.deviceName == "" && info.modelName == "" && SwitchName(info) == EntityName(info) {
      assert Head8(info.deviceId) == EntityName(info)[9..];
    }
  }

  function NewSwitch(info: DeviceInfo): (e: SwitchEntity)
  {
    SwitchEntity(SwitchName(info), false, map[])
  }

  /** Python's `x != 0` for a decoded value: `0` and `False` equal zero, every other value differs. */
  predicate NonZero(j: Json) {
    match j
    case JInt(i) => i != 0
    case JBool(b) => b
    case _ => true
  }

  /** `async_update`: the state becomes the query result, and a non-empty result sets `is_on` to
      whether dpid 1 (absent counts as 0) is non-zero. */
  function SwitchUpdate(e: SwitchEntity, result: map<string, Json>): (r: SwitchEntity)
  {
    var e1 := e.(state := result);
    if |result| > 0 then e1.(isOn := DpidSwitch in result && NonZero(result[DpidSwitch])) else e1
  }

  /** An empty result keeps `is_on`; otherwise the switch's test agrees with the base entity's
      truthiness test on numbers, and differs from it only for non-numeric values (the switch
      counts an empty string as on, the base entity as off). */
  lemma SwitchUpdateSpec(e: SwitchEntity, result: map<string, Json>)
    ensures var r := SwitchUpdate(e, result);
      && r.state == result && r.name == e.name
      && (|result| == 0 ==> r.isOn == e.isOn)
      && (|result| > 0 && (DpidSwitch !in result || PyNumber(result[DpidSwitch]).Some?) ==>
            (r.isOn <==> SwitchedOn(result)))
      && (|result| > 0 && DpidSwitch in result && result[DpidSwitch] == JStr("") ==>
            r.isOn && !SwitchedOn(result))
  {
  }

  /** The payloads of `async_turn_on` and `async_turn_off`. */
  const SwitchOnPayload: Payload := [(1, 255)]
  const SwitchOffPayload: Payload := [(1, 0)]

  /** Turning on or off: the payload sent, and `is_on` set to the target only when `control`
      confirmed it. */
  function SwitchTurn(e: SwitchEntity, on: bool, success: bool): (r: (SwitchEntity, Payload))
  {
    (if success then e.(isOn := on) else e, if on then SwitchOnPayload else SwitchOffPayload)
  }

  /** A confirmed command changes only `is_on`, to the target; a failed one changes nothing. When
      the device then reports the commanded dict, polling agrees with the optimistic value. */
  lemma SwitchTurnSpec(e: SwitchEntity, on: bool, success: bool)
    ensures var (r, p) := SwitchTurn(e, on, success);
      && (success ==> r.isOn == on && r.(isOn := e.isOn) == e)
      && (!success ==> r == e)
      && |p| == 1 && p[0].0 == 1 && (p[0].1 != 0 <==> on)
      && SwitchUpdate(r, ToMap(PayloadObject(p))).isOn == on
  {
    var (r, p) := SwitchTurn(e, on, success);
    var m := ToMap(PayloadObject(p));
    var fields := PayloadObject(p);
    assert fields == [(DpidSwitch, JInt(p[0].1))] by {
      assert NatToString(1) == DpidSwitch;
    }
    assert |fields| == 1 && fields[..0] == [];
    assert m == ToMap(fields[..0])[DpidSwitch := JInt(p[0].1)];
  }

  /** The switch's `available` is the client's availability flag. */
  function SwitchAvailable(c: Client): (r: bool)
  {
    c.available
  }

  /** The switch's availability can disagree with the base entity's, which follows the device
      state: an online client after three failed exchanges in a row is unavailable to the switch
      and still available to the base entity. */
  lemma AvailabilityViewsDiffer(c: Client, error: string, now: Time)
    requires c.deviceState == Online
    ensures var r := MarkFailure(MarkFailure(MarkFailure(c, error, now), error, now), error, now);
      !SwitchAvailable(r) && Available(Some(r.deviceState.Name()), r.available)
  {
    var r := MarkFailure(MarkFailure(MarkFailure(c, error, now), error, now), error, now);
    AvailableForClient(r);
  }
}
