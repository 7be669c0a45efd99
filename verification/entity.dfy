/** The base entity (`CozyLifeEntity`): its display name, how pushed and polled state reach
    its attributes, its availability and its dispatcher subscriptions. Home Assistant's
    dispatcher and state writes are not modelled; whether a handler writes state is a result. */
module Entity {
  import opened Wrappers
  import opened JsonValue
  import opened Const
  import opened Client

  /** The three dispatcher subscriptions, each either held (its unsubscribe callback is set) or not. */
  datatype Subscriptions = Subscriptions(state: bool, connected: bool, disconnected: bool)

  datatype Signal = StateSignal | ConnectedSignal | DisconnectedSignal

  datatype BaseEntity = BaseEntity(
    name: string,
    isOn: bool,
    state: map<string, Json>,
    subs: Subscriptions)

  /** The first eight characters of a string (`s[:8]`). */
  function Head8(s: string): (r: string)
    ensures |r| <= 8 && r <= s
    ensures |s| <= 8 ==> r == s
  {
    if |s| <= 8 then s else s[..8]
  }

  /** The device name: the user-given name, else the model name, else `"CozyLife "` and the
      first eight characters of the device id. */
  function EntityName(info: DeviceInfo): (r: string)
  {
    if info.deviceName != "" then info.deviceName
    else if info.modelName != "" then info.modelName
    else "CozyLife " + Head8(info.deviceId)
  }

  /** The name is never empty; the fallback is used only when the device has neither name, and
      it is determined by the id's first eight characters. */
  lemma EntityNameSpec(info: DeviceInfo, other: DeviceInfo)
    ensures EntityName(info) != ""
    ensures info.deviceName != "" ==> EntityName(info) == info.deviceName
    ensures info.deviceName == "" && info.modelName != "" ==> EntityName(info) == info.modelName
    ensures info.deviceName == "" && info.modelName == "" ==>
      |EntityName(info)| <= 17 && EntityName(info)[..9] == "CozyLife "
    ensures info.deviceName == "" && info.modelName == "" && other.deviceName == "" && other.modelName == "" ==>
      (EntityName(info) == EntityName(other) <==> Head8(info.deviceId) == Head8(other.deviceId))
  {
    if info.deviceName == "" && info.modelName == "" && other.deviceName == "" && other.modelName == "" {
      if EntityName(info) == EntityName(other) {
        assert Head8(info.deviceId) == EntityName(info)[9..];
        assert Head8(other.deviceId) == EntityName(other)[9..];
      }
    }
  }

  /** The entity as constructed: off, no state, no subscriptions. */
  function NewEntity(info: DeviceInfo): (e: BaseEntity)
  {
    BaseEntity(EntityName(info), false, map[], Subscriptions(false, false, false))
  }

  /** `bool(state.get('1', 0))`. */
  predicate SwitchedOn(state: map<string, Json>) {
    DpidSwitch in state && Truthy(state[DpidSwitch])
  }

  /** `_process_state_update`. The update is `None` when it is not a dict at all; an update
      that is not a non-empty dict is ignored; otherwise it is merged into the state
      (`dict.update`) and `is_on` recomputed from the merged state. */
  function ProcessStateUpdate(e: BaseEntity, update: Option<map<string, Json>>): (r: BaseEntity)
  {
    match update
    case Some(d) =>
      if |d| == 0 then e
      else
        var merged := Merge(e.state, d);
        e.(state := merged, isOn := SwitchedOn(merged))
    case None => e
  }

  /** An ignored update changes nothing; an applied one keeps every old key, overwrites the
      updated ones, and leaves the name and the subscriptions alone; `is_on` follows dpid 1 of
      the merged state, so an update without dpid 1 keeps the previous dpid-1 value. */
  lemma ProcessStateUpdateSpec(e: BaseEntity, update: Option<map<string, Json>>)
    ensures var r := ProcessStateUpdate(e, update);
      && (update.None? || |update.value| == 0 ==> r == e)
      && (update.Some? && |update.value| > 0 ==>
            var d := update.value;
            && r.state.Keys == e.state.Keys + d.Keys
            && (forall k :: k in d ==> r.state[k] == d[k])
            && (forall k :: k in e.state && k !in d ==> r.state[k] == e.state[k])
            && r.name == e.name && r.subs == e.subs
            && (r.isOn <==> SwitchedOn(r.state))
            && (DpidSwitch !in d ==> (r.isOn <==> SwitchedOn(e.state))))
  {
  }

  /** Processing the same update twice is the same as processing it once. */
  lemma ProcessStateUpdateIdempotent(e: BaseEntity, update: Option<map<string, Json>>)
    ensures ProcessStateUpdate(ProcessStateUpdate(e, update), update) == ProcessStateUpdate(e, update)
  {
    var r := ProcessStateUpdate(e, update);
    if update.Some? && |update.value| > 0 {
      assert Merge(r.state, update.value) == r.state;
    }
  }

  /** `_handle_state_update`: the boolean says whether the state was written to Home Assistant,
      which happens exactly for a non-empty dict. */
  function HandleStateUpdate(e: BaseEntity, update: Option<map<string, Json>>): (r: (BaseEntity, bool))
  {
    match update
    case Some(d) => if |d| == 0 then (e, false) else (ProcessStateUpdate(e, update), true)
    case None => (e, false)
  }

  /** A handled update writes state exactly when it is a non-empty dict, and has the same
      effect on the entity as processing it. */
  lemma HandleStateUpdateSpec(e: BaseEntity, update: Option<map<string, Json>>)
    ensures var (r, wrote) := HandleStateUpdate(e, update);
      && r == ProcessStateUpdate(e, update)
      && (wrote <==> update.Some? && |update.value| > 0)
      && (!wrote ==> r == e)
  {
  }

  /** `available`: a string device state decides (`"online"` only); without one, the legacy
      availability flag does. */
  function Available(deviceState: Option<string>, flag: bool): (r: bool)
  {
    match deviceState
    case Some(s) => s == DeviceStateOnline
    case None => flag
  }

  /** For a client of this integration, which always has a string state, the entity is
      available exactly when the client's state is online, whatever its availability flag. */
  lemma AvailableForClient(c: Client)
    ensures Available(Some(c.deviceState.Name()), c.available) <==> c.deviceState == Online
  {
    ConstantsConsistent();
  }

  /** `async_update` (polling): nothing happens while unavailable; otherwise the state is
      replaced by the query result, and `is_on` recomputed when that result is non-empty. */
  function EntityUpdate(e: BaseEntity, available: bool, result: map<string, Json>): (r: BaseEntity)
  {
    if !available then e
    else if |result| == 0 then e.(state := result)
    else e.(state := result, isOn := SwitchedOn(result))
  }

  /** Polling replaces the state while pushes merge into it: after a poll the state is the query
      result and no pushed key survives it, whereas a push keeps every key. An empty poll
      result empties the state but keeps `is_on`. */
  lemma PollReplacesPushMerges(e: BaseEntity, update: Option<map<string, Json>>, result: map<string, Json>)
    ensures ProcessStateUpdate(e, update).state.Keys >= e.state.Keys
    ensures var r := EntityUpdate(ProcessStateUpdate(e, update), true, result);
      && r.state == result
      && (|result| == 0 ==> r.isOn == ProcessStateUpdate(e, update).isOn)
      && (|result| > 0 ==> (r.isOn <==> SwitchedOn(result)))
    ensures EntityUpdate(e, false, result) == e
  {
  }

  /** `async_added_to_hass` subscribes to the three signals, makes an unforced `connect()` when
      the client has no connection, and then processes the client's cached state. The client is
      returned with the entity, since the connect attempt changes it. */
  function AddedToHass(e: BaseEntity, c: Client, now: Time, outcome: nat -> Attempt): (r: (BaseEntity, Client))
  {
    var c1 := if c.connected then c else Connect(c, false, now, outcome).0;
    (ProcessStateUpdate(e.(subs := Subscriptions(true, true, true)), Some(c1.lastState)), c1)
  }

  /** After being added, the entity holds all three subscriptions and its state has every key
      of the client's cache with the cached value, with `is_on` taken from the merged state
      when the cache is non-empty. A connected client is untouched, and so is one still inside
      its back-off window. Otherwise the client is connected as `connect()` decides: it ends
      healthy and online when the deciding attempt opened, and counts one more failure
      otherwise. Its address and cache never change. */
  lemma AddedToHassSpec(e: BaseEntity, c: Client, now: Time, outcome: nat -> Attempt)
    ensures var (r, c1) := AddedToHass(e, c, now, outcome);
      var a := outcome(DecidingAttempt(0, outcome));
      && r.subs == Subscriptions(true, true, true)
      && (forall k :: k in c.lastState ==> k in r.state && r.state[k] == c.lastState[k])
      && (|c.lastState| > 0 ==> (r.isOn <==> SwitchedOn(r.state)))
      && (|c.lastState| == 0 ==> r.(subs := e.subs) == e)
      && c1.ip == c.ip && c1.lastState == c.lastState
      && (c.connected || now < c.nextRetryTime ==> c1 == c)
      && (!c.connected && now >= c.nextRetryTime && a.Opened? ==>
            Healthy(c1) && c1.deviceState == Online && c1.lastSuccess == now)
      && (!c.connected && now >= c.nextRetryTime && !a.Opened? ==>
            c1.consecutiveFailures == c.consecutiveFailures + 1 && c1.info == c.info)
  {
    if !c.connected {
      if now < c.nextRetryTime {
        ConnectGateBlocks(c, now, outcome);
      } else {
        ConnectOutcome(c, false, now, outcome);
      }
    }
  }

  /** `async_will_remove_from_hass`: each held subscription is released (its callback called
      once) and cleared. The signals whose callbacks were called are returned in order. */
  function WillRemove(subs: Subscriptions): (r: (Subscriptions, seq<Signal>))
  {
    (Subscriptions(false, false, false),
     (if subs.state then [StateSignal] else [])
     + (if subs.connected then [ConnectedSignal] else [])
     + (if subs.disconnected then [DisconnectedSignal] else []))
  }

  /** Removal releases exactly the held subscriptions, each once, and clears them all, so a
      second removal releases nothing. */
  lemma WillRemoveSpec(subs: Subscriptions)
    ensures var (after, released) := WillRemove(subs);
      && after == Subscriptions(false, false, false)
      && (StateSignal in released <==> subs.state)
      && (ConnectedSignal in released <==> subs.connected)
      && (DisconnectedSignal in released <==> subs.disconnected)
      && (forall i, j :: 0 <= i < j < |released| ==> released[i] != released[j])
      && WillRemove(after) == (after, [])
  {
    var none: seq<Signal> := [];
    assert none + none + none == none;
  }
}
