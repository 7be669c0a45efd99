/** The light entity (`CozyLifeLight`): the colour modes a light offers, how a queried state
    becomes the entity's attributes, the payloads of turn-on and turn-off, and the optimistic
    update after a confirmed command. What `query()` returns and whether `control()` succeeded
    are arguments. */
module Light {
  import opened Wrappers
  import opened JsonValue
  import opened Const
  import opened Text
  import opened Codec

  datatype ColorMode = BrightnessMode | ColorTempMode | HsMode

  /** `_update_features`: the supported colour modes and the active one, from the dpid list. */
  function Features(dpid: seq<string>): (r: (set<ColorMode>, ColorMode))
  {
    var supported := {BrightnessMode}
      + (if DpidTemp in dpid then {ColorTempMode} else {})
      + (if DpidHue in dpid || DpidSat in dpid then {HsMode} else {});
    if HsMode in supported then (supported - {BrightnessMode}, HsMode)
    else if ColorTempMode in supported then (supported - {BrightnessMode}, ColorTempMode)
    else (supported, BrightnessMode)
  }

  /** The active mode is supported; hue or saturation makes it HS, otherwise colour temperature
      makes it COLOR_TEMP; plain brightness is offered only when neither colour dpid is listed,
      and then it is the only mode. */
  lemma FeaturesSpec(dpid: seq<string>)
    ensures var (supported, mode) := Features(dpid);
      var hs := DpidHue in dpid || DpidSat in dpid;
      && mode in supported
      && (mode == HsMode <==> hs)
      && (mode == ColorTempMode <==> !hs && DpidTemp in dpid)
      && (mode == BrightnessMode <==> !hs && DpidTemp !in dpid)
      && (BrightnessMode in supported <==> supported == {BrightnessMode})
      && (BrightnessMode in supported <==> !hs && DpidTemp !in dpid)
      && (ColorTempMode in supported <==> DpidTemp in dpid)
      && (HsMode in supported <==> hs)
  {
  }

  /** The three fixtures: an RGBCW light is HS, a CW light COLOR_TEMP, a dimmer BRIGHTNESS. */
  lemma FeaturesExamples()
    ensures Features(["1", "2", "3", "4", "5", "6"]).1 == HsMode
    ensures Features(["1", "2", "3", "4"]) == ({ColorTempMode}, ColorTempMode)
    ensures Features(["1", "2", "4"]) == ({BrightnessMode}, BrightnessMode)
  {
    var cw := Features(["1", "2", "3", "4"]).0;
    assert cw == {ColorTempMode} by {
      assert cw == ({BrightnessMode} + {ColorTempMode}) - {BrightnessMode};
    }
  }

  // ---------------------------------------------------------------------------
  // Integer conversions

  /** Python's `int(a / b)` for a positive divisor: true division truncated toward zero. */
  function TruncDiv(a: int, b: int): (q: int)
    requires b > 0
  {
    if a >= 0 then a / b else -((-a) / b)
  }

  /** `int(x)` on a float: truncation toward zero. */
  function Trunc(x: real): (n: int)
  {
    if x >= 0.0 then x.Floor else -((-x).Floor)
  }

  /** `max(lo, min(hi, x))`. */
  function Clamp(x: int, lo: int, hi: int): (r: int)
    requires lo <= hi
    ensures lo <= r <= hi
    ensures lo <= x <= hi ==> r == x
  {
    if x > hi then hi else if x < lo then lo else x
  }

  const MinMireds: int := 153
  const MaxMireds: int := 500

  /** The mireds `async_update` derives from the device's colour-temperature value (0 is warm,
      1000 cool): `500 - int(v / 2)`, clamped to `[153, 500]`. So every value up to 1 (negative
      ones included) gives 500, every value from 694 up gives 153, and in between each step of
      two in the value lowers the mireds by one. */
  function Mireds(v: int): (m: int)
    ensures MinMireds <= m <= MaxMireds
    ensures v <= 1 ==> m == MaxMireds
    ensures v >= 694 ==> m == MinMireds
    ensures 0 <= v ==> 2 * (MaxMireds - m) <= v
    ensures 0 <= v && m > MinMireds ==> v < 2 * (MaxMireds - m) + 2
  {
    Clamp(MaxMireds - TruncDiv(v, 2), MinMireds, MaxMireds)
  }

  /** The kelvin `async_update` reports for a mired value, as written: `int(1000000 / mireds)`,
      the largest whole number of kelvin whose product with the mireds stays within a million.
      It lies in `[2000, 6535]` and exceeds 6500 only at 153 mireds. */
  function KelvinAsWritten(m: int): (k: int)
    requires MinMireds <= m <= MaxMireds
    ensures k * m <= 1000000 < (k + 1) * m
    ensures MinColorTempKelvin <= k <= 6535
    ensures k > MaxColorTempKelvin <==> m == MinMireds
  {
    KelvinBounds(m);
    DivisionBracket(1000000, m);
    1000000 / m
  }

  /** The kelvin reported for a mired value, kept within the range the light advertises. */
  function Kelvin(m: int): (k: int)
    requires MinMireds <= m <= MaxMireds
  {
    if KelvinAsWritten(m) > MaxColorTempKelvin then MaxColorTempKelvin else KelvinAsWritten(m)
  }

  /** As written, the mired bound 153 gives 6535 K, above the light's maximum of 6500 K; every
      mired value from 154 up stays within range. So a device at its coolest setting (1000) is
      reported at 6535 K. */
  lemma KelvinAsWrittenExceedsMax()
    ensures Mireds(1000) == MinMireds
    ensures KelvinAsWritten(Mireds(1000)) == 6535 > MaxColorTempKelvin
    ensures forall m :: MinMireds < m <= MaxMireds ==> MinColorTempKelvin <= KelvinAsWritten(m) <= MaxColorTempKelvin
  {
    forall m | MinMireds < m <= MaxMireds
      ensures MinColorTempKelvin <= KelvinAsWritten(m) <= MaxColorTempKelvin
    {
      KelvinBounds(m);
    }
  }

  lemma KelvinBounds(m: int)
    requires MinMireds <= m <= MaxMireds
    ensures m == MinMireds ==> 1000000 / m == 6535
    ensures m > MinMireds ==> MinColorTempKelvin <= 1000000 / m <= MaxColorTempKelvin
  {
  }

  /** Integer division by a positive divisor rounds down. */
  lemma DivisionBracket(a: int, b: int)
    requires b > 0
    ensures a / b * b <= a < (a / b + 1) * b
  {
    var q := a / b;
    assert q * b + a % b == a;
    assert (q + 1) * b == q * b + b;
  }

  /** Every reported temperature lies within the light's advertised range, and agrees with the
      source's formula wherever that formula stays within it. */
  lemma KelvinRange(m: int)
    requires MinMireds <= m <= MaxMireds
    ensures MinColorTempKelvin <= Kelvin(m) <= MaxColorTempKelvin
    ensures m > MinMireds ==> Kelvin(m) == KelvinAsWritten(m)
  {
    if m > MinMireds {
      KelvinBounds(m);
    } else {
      assert KelvinAsWritten(m) == 6535;
    }
  }

  /** The device value `async_turn_on` sends for a colour temperature in kelvin:
      `max(0, min(1000, int(1000 - (1000000 / k) * 2)))`. */
  function ColorTempValue(k: int): (v: int)
    requires k != 0
    ensures 0 <= v <= 1000
  {
    Clamp(Trunc(1000.0 - (1000000.0 / (k as real)) * 2.0), 0, 1000)
  }

  // ---------------------------------------------------------------------------
  // Attributes and read-back

  /** The entity attributes `async_update` and the turn commands maintain. */
  datatype LightAttrs = LightAttrs(
    isOn: bool,
    brightness: Option<int>,
    hs: Option<(real, real)>,
    colorTemp: Option<int>,          // mireds
    colorTempKelvin: Option<int>,
    state: map<string, Json>)        // the last query result

  const InitialAttrs := LightAttrs(false, None, None, None, None, map[])

  /** `async_update` with the query result `state`. The boolean is false when a value it reads
      cannot be converted, where Python raises and keeps the attributes assigned so far: the
      switch, brightness and colour-temperature values must be numbers (comparing or dividing
      anything else raises `TypeError`), while the hue and saturation go through `float()`, which
      also accepts decimal strings. */
  function ReadBack(a: LightAttrs, state: map<string, Json>): (r: (LightAttrs, bool))
  {
    var a0 := a.(state := state);
    if |state| == 0 then (a0, true)
    else
      var on := PyNumber(if DpidSwitch in state then state[DpidSwitch] else JInt(0));
      if on.None? then (a0, false)
      else
        var a1 := a0.(isOn := on.value > 0);
        var bright := if DpidBright in state then PyNumber(state[DpidBright]) else Some(0);
        if bright.None? then (a1, false)
        else
          var a2 := if DpidBright in state then a1.(brightness := Some(TruncDiv(bright.value, BrightnessScale))) else a1;
          var both := DpidHue in state && DpidSat in state;
          var h := if both then PyFloat(state[DpidHue]) else Some(0.0);
          var s := if both then PyFloat(state[DpidSat]) else Some(0.0);
          if h.None? || s.None? then (a2, false)
          else
            var a3 := if both then a2.(hs := Some((h.value, s.value / SaturationScale as real))) else a2;
            var t := if DpidTemp in state then PyNumber(state[DpidTemp]) else Some(0);
            if t.None? then (a3, false)
            else if DpidTemp in state then
              var m := Mireds(t.value);
              (a3.(colorTemp := Some(m), colorTempKelvin := Some(KelvinAsWritten(m))), true)
            else (a3, true)
  }

  /** Every value of the state is a number. */
  predicate Numeric(state: map<string, Json>) {
    forall k :: k in state ==> PyNumber(state[k]).Some?
  }

  /** Every conversion `async_update` applies to a non-empty state succeeds. */
  predicate Convertible(state: map<string, Json>) {
    && (DpidSwitch in state ==> PyNumber(state[DpidSwitch]).Some?)
    && (DpidBright in state ==> PyNumber(state[DpidBright]).Some?)
    && (DpidHue in state && DpidSat in state ==>
          PyFloat(state[DpidHue]).Some? && PyFloat(state[DpidSat]).Some?)
    && (DpidTemp in state ==> PyNumber(state[DpidTemp]).Some?)
  }

  /** The query result is kept; an empty one changes no attribute. A non-empty one reads back
      exactly when every conversion succeeds, which a numeric one always does. Then the light is
      on exactly when dpid 1 is positive (absent means off), the brightness is the device value
      divided by four rounded toward zero, the hue and saturation are `float()` of their values,
      taken only when both are present (saturation scaled down by ten), and a colour-temperature
      value `v` gives the mireds of `v` and `int(1000000 / mireds)` kelvin, which lies in
      `[2000, 6535]` and exceeds the advertised 6500 exactly when `v >= 694`; an attribute whose
      dpid is absent keeps its value. */
  lemma ReadBackSpec(a: LightAttrs, state: map<string, Json>)
    ensures var (r, ok) := ReadBack(a, state);
      && r.state == state
      && (|state| == 0 ==> ok && r.(state := a.state) == a)
      && (|state| > 0 ==> (ok <==> Convertible(state)))
      && (Numeric(state) ==> ok)
      && (ok && |state| > 0 ==>
            && (r.isOn <==> DpidSwitch in state && PyNumber(state[DpidSwitch]).value > 0)
            && (DpidBright !in state ==> r.brightness == a.brightness)
            && (DpidBright in state ==>
                  var v := PyNumber(state[DpidBright]).value;
                  r.brightness.Some? && (v >= 0 ==> 4 * r.brightness.value <= v < 4 * r.brightness.value + 4))
            && (!(DpidHue in state && DpidSat in state) ==> r.hs == a.hs)
            && (DpidHue in state && DpidSat in state ==>
                  r.hs.Some? && r.hs.value.0 == PyFloat(state[DpidHue]).value
                  && r.hs.value.1 * 10.0 == PyFloat(state[DpidSat]).value)
            && (DpidTemp !in state ==> r.colorTemp == a.colorTemp && r.colorTempKelvin == a.colorTempKelvin)
            && (DpidTemp in state ==>
                  var v := PyNumber(state[DpidTemp]).value;
                  && r.colorTemp == Some(Mireds(v))
                  && r.colorTempKelvin == Some(KelvinAsWritten(Mireds(v)))
                  && MinColorTempKelvin <= r.colorTempKelvin.value <= 6535
                  && (r.colorTempKelvin.value > MaxColorTempKelvin <==> v >= 694)))
  {
    ReadBackSwitchAndBrightness(a, state);
    ReadBackColour(a, state);
  }

  /** The state is kept, an empty one changes nothing else, a non-empty one reads back exactly
      when it is convertible, and the switch and brightness are read as stated above. */
  lemma ReadBackSwitchAndBrightness(a: LightAttrs, state: map<string, Json>)
    ensures var (r, ok) := ReadBack(a, state);
      && r.state == state
      && (|state| == 0 ==> ok && r.(state := a.state) == a)
      && (|state| > 0 ==> (ok <==> Convertible(state)))
      && (Numeric(state) ==> ok)
      && (ok && |state| > 0 ==>
            && (r.isOn <==> DpidSwitch in state && PyNumber(state[DpidSwitch]).value > 0)
            && (DpidBright !in state ==> r.brightness == a.brightness)
            && (DpidBright in state ==>
                  var v := PyNumber(state[DpidBright]).value;
                  r.brightness.Some? && (v >= 0 ==> 4 * r.brightness.value <= v < 4 * r.brightness.value + 4)))
  {
  }

  /** The hue, saturation and colour temperature are read as stated above. */
  lemma ReadBackColour(a: LightAttrs, state: map<string, Json>)
    ensures var (r, ok) := ReadBack(a, state);
      (ok && |state| > 0 ==>
            && (!(DpidHue in state && DpidSat in state) ==> r.hs == a.hs)
            && (DpidHue in state && DpidSat in state ==>
                  r.hs.Some? && r.hs.value.0 == PyFloat(state[DpidHue]).value
                  && r.hs.value.1 * 10.0 == PyFloat(state[DpidSat]).value)
            && (DpidTemp !in state ==> r.colorTemp == a.colorTemp && r.colorTempKelvin == a.colorTempKelvin)
            && (DpidTemp in state ==>
                  var v := PyNumber(state[DpidTemp]).value;
                  && r.colorTemp == Some(Mireds(v))
                  && r.colorTempKelvin == Some(KelvinAsWritten(Mireds(v)))
                  && MinColorTempKelvin <= r.colorTempKelvin.value <= 6535
                  && (r.colorTempKelvin.value > MaxColorTempKelvin <==> v >= 694)))
  {
  }

  /** The read-back with the reported temperature kept within the advertised range. */
  function ReadBackCorrected(a: LightAttrs, state: map<string, Json>): (r: (LightAttrs, bool))
  {
    var (x, ok) := ReadBack(a, state);
    ReadBackColour(a, state);
    if ok && |state| > 0 && DpidTemp in state then (x.(colorTempKelvin := Some(Kelvin(x.colorTemp.value))), ok)
    else (x, ok)
  }

  /** The corrected read-back succeeds exactly when the source's does and sets every attribute
      the same way, except that a reported colour temperature always lies in `[2000, 6500]`: it
      is 6500 K for every device value from 694 up and agrees with the source below that. */
  lemma ReadBackCorrectedSpec(a: LightAttrs, state: map<string, Json>)
    ensures var (r, ok) := ReadBackCorrected(a, state);
      var (w, okw) := ReadBack(a, state);
      && ok == okw
      && r.(colorTempKelvin := w.colorTempKelvin) == w
      && (ok && |state| > 0 && DpidTemp in state ==>
            var v := PyNumber(state[DpidTemp]).value;
            && r.colorTempKelvin.Some?
            && MinColorTempKelvin <= r.colorTempKelvin.value <= MaxColorTempKelvin
            && (v >= 694 ==> r.colorTempKelvin == Some(MaxColorTempKelvin))
            && (v < 694 ==> r.colorTempKelvin == w.colorTempKelvin))
      && (!(ok && |state| > 0 && DpidTemp in state) ==> r.colorTempKelvin == w.colorTempKelvin)
  {
    ReadBackColour(a, state);
    var (w, okw) := ReadBack(a, state);
    if okw && |state| > 0 && DpidTemp in state {
      KelvinRange(w.colorTemp.value);
    }
  }

  /** The fixture's state: on, brightness 512 reads as 128, hue 180 and saturation 500 as
      `(180, 50)`. */
  lemma ReadBackExample()
    ensures var (r, ok) := ReadBack(InitialAttrs, map["1" := JInt(1), "4" := JInt(512), "5" := JInt(180), "6" := JInt(500)]);
      ok && r.isOn && r.brightness == Some(128) && r.hs == Some((180.0, 50.0)) && r.colorTemp == None
  {
  }

  // ---------------------------------------------------------------------------
  // Commands

  /** The keyword arguments of `async_turn_on` this entity reads. */
  datatype TurnOnArgs = TurnOnArgs(brightness: Option<int>, kelvin: Option<int>, hs: Option<(real, real)>)

  /** The parts of the turn-on payload: one per keyword argument given. */
  function BrightnessPart(brightness: Option<int>): Payload {
    if brightness.Some? then [(4, brightness.value * BrightnessScale)] else []
  }

  function HsPart(hs: Option<(real, real)>): Payload {
    if hs.Some? then [(5, Trunc(hs.value.0)), (6, Trunc(hs.value.1 * SaturationScale as real))] else []
  }

  function TempPart(kelvin: Option<int>): Payload
    requires kelvin != Some(0)
  {
    if kelvin.Some? then [(3, ColorTempValue(kelvin.value))] else []
  }

  /** The `control` payload of `async_turn_on`: switch on (255) and white mode (0), then
      brightness, hue and saturation, colour temperature for the arguments given. `None` when
      the colour temperature is 0 and the division raises before anything is sent. */
  function TurnOnPayload(args: TurnOnArgs): (r: Option<Payload>)
  {
    if args.kelvin == Some(0) then None
    else Some([(1, 255), (2, 0)] + BrightnessPart(args.brightness) + HsPart(args.hs) + TempPart(args.kelvin))
  }

  /** Joining two payloads with no dpid in common keeps every dpid set once. */
  lemma DistinctAppend(a: Payload, b: Payload)
    requires DistinctKeys(a) && DistinctKeys(b)
    requires forall i, j :: 0 <= i < |a| && 0 <= j < |b| ==> a[i].0 != b[j].0
    ensures DistinctKeys(a + b)
  {
  }

  /** The turn-on payload sets each dpid once and starts with switch-on and white mode. */
  lemma TurnOnPayloadShape(args: TurnOnArgs)
    requires args.kelvin != Some(0)
    ensures var p := TurnOnPayload(args).value;
      DistinctKeys(p) && p[..2] == [(1, 255), (2, 0)]
  {
    var base: Payload := [(1, 255), (2, 0)];
    var bp, hp, tp := BrightnessPart(args.brightness), HsPart(args.hs), TempPart(args.kelvin);
    var p := TurnOnPayload(args).value;
    assert p == base + bp + hp + tp;
    DistinctAppend(base, bp);
    DistinctAppend(base + bp, hp);
    DistinctAppend(base + bp + hp, tp);
    assert p[..2] == base;
  }

  /** The turn-on payload sets dpid 4, 5 and 6, 3 exactly when brightness, colour, colour
      temperature is given, to the scaled values. */
  lemma TurnOnPayloadKeys(args: TurnOnArgs)
    requires args.kelvin != Some(0)
    ensures var p := TurnOnPayload(args).value;
      && ((exists v :: (4, v) in p) <==> args.brightness.Some?)
      && ((exists v :: (5, v) in p) <==> args.hs.Some?)
      && ((exists v :: (6, v) in p) <==> args.hs.Some?)
      && ((exists v :: (3, v) in p) <==> args.kelvin.Some?)
      && (args.brightness.Some? ==> (4, 4 * args.brightness.value) in p)
      && (args.hs.Some? ==> (5, Trunc(args.hs.value.0)) in p && (6, Trunc(args.hs.value.1 * 10.0)) in p)
      && (forall v :: (3, v) in p ==> 0 <= v <= 1000)
  {
    TurnOnBrightnessKey(args);
    TurnOnColourKeys(args);
    TurnOnTempKey(args);
  }

  /** The membership of a turn-on payload, part by part. */
  lemma TurnOnMembers(args: TurnOnArgs, x: (int, int))
    requires args.kelvin != Some(0)
    ensures x in TurnOnPayload(args).value <==>
      x in [(1, 255), (2, 0)] || x in BrightnessPart(args.brightness) || x in HsPart(args.hs) || x in TempPart(args.kelvin)
  {
    var base: Payload := [(1, 255), (2, 0)];
    assert TurnOnPayload(args).value == base + BrightnessPart(args.brightness) + HsPart(args.hs) + TempPart(args.kelvin);
  }

  /** Dpid 4 is set exactly when a brightness is given, to four times it. */
  lemma TurnOnBrightnessKey(args: TurnOnArgs)
    requires args.kelvin != Some(0)
    ensures var p := TurnOnPayload(args).value;
      && ((exists v :: (4, v) in p) <==> args.brightness.Some?)
      && (args.brightness.Some? ==> (4, 4 * args.brightness.value) in p)
  {
    var p := TurnOnPayload(args).value;
    forall v | (4, v) in p
      ensures args.brightness.Some?
    {
      TurnOnMembers(args, (4, v));
    }
    if args.brightness.Some? {
      TurnOnMembers(args, (4, 4 * args.brightness.value));
    }
  }

  /** Dpids 5 and 6 are set exactly when a colour is given, to the truncated hue and saturation. */
  lemma TurnOnColourKeys(args: TurnOnArgs)
    requires args.kelvin != Some(0)
    ensures var p := TurnOnPayload(args).value;
      && ((exists v :: (5, v) in p) <==> args.hs.Some?)
      && ((exists v :: (6, v) in p) <==> args.hs.Some?)
      && (args.hs.Some? ==> (5, Trunc(args.hs.value.0)) in p && (6, Trunc(args.hs.value.1 * 10.0)) in p)
  {
    var p := TurnOnPayload(args).value;
    forall v | (5, v) in p
      ensures args.hs.Some?
    {
      TurnOnMembers(args, (5, v));
    }
    forall v | (6, v) in p
      ensures args.hs.Some?
    {
      TurnOnMembers(args, (6, v));
    }
    if args.hs.Some? {
      TurnOnMembers(args, (5, Trunc(args.hs.value.0)));
      TurnOnMembers(args, (6, Trunc(args.hs.value.1 * 10.0)));
    }
  }

  /** Dpid 3 is set exactly when a colour temperature is given, within `[0, 1000]`. */
  lemma TurnOnTempKey(args: TurnOnArgs)
    requires args.kelvin != Some(0)
    ensures var p := TurnOnPayload(args).value;
      && ((exists v :: (3, v) in p) <==> args.kelvin.Some?)
      && (forall v :: (3, v) in p ==> 0 <= v <= 1000)
  {
    var p := TurnOnPayload(args).value;
    forall v | (3, v) in p
      ensures args.kelvin.Some? && 0 <= v <= 1000
    {
      TurnOnMembers(args, (3, v));
    }
    if args.kelvin.Some? {
      TurnOnMembers(args, (3, ColorTempValue(args.kelvin.value)));
    }
  }

  /** The payload exists unless the colour temperature is 0; it sets each dpid once, starts with
      switch-on and white mode, and sets dpid 4, 5 and 6, 3 exactly when brightness, colour,
      colour temperature is given: brightness times four, unclamped; hue and ten times the
      saturation, truncated; a colour-temperature value within `[0, 1000]`. */
  lemma TurnOnPayloadSpec(args: TurnOnArgs)
    ensures var r := TurnOnPayload(args);
      && (r.None? <==> args.kelvin == Some(0))
      && (r.Some? ==>
            var p := r.value;
            && DistinctKeys(p)
            && p[..2] == [(1, 255), (2, 0)]
            && ((exists v :: (4, v) in p) <==> args.brightness.Some?)
            && ((exists v :: (5, v) in p) <==> args.hs.Some?)
            && ((exists v :: (6, v) in p) <==> args.hs.Some?)
            && ((exists v :: (3, v) in p) <==> args.kelvin.Some?)
            && (args.brightness.Some? ==> (4, 4 * args.brightness.value) in p)
            && (args.hs.Some? ==> (5, Trunc(args.hs.value.0)) in p && (6, Trunc(args.hs.value.1 * 10.0)) in p)
            && (forall v :: (3, v) in p ==> 0 <= v <= 1000))
  {
    if args.kelvin != Some(0) {
      TurnOnPayloadShape(args);
      TurnOnPayloadKeys(args);
    }
  }

  /** `async_turn_off` sends exactly `{"1": 0}`. */
  const TurnOffPayload: Payload := [(1, 0)]

  /** `async_turn_on`: the payload sent (if any) and the attributes afterwards. Only a confirmed
      command updates the attributes, optimistically, with the arguments given. */
  function TurnOn(a: LightAttrs, args: TurnOnArgs, success: bool): (r: (LightAttrs, Option<Payload>))
  {
    var p := TurnOnPayload(args);
    if p.None? || !success then (a, p)
    else
      (a.(isOn := true,
          brightness := if args.brightness.Some? then args.brightness else a.brightness,
          hs := if args.hs.Some? then args.hs else a.hs,
          colorTempKelvin := if args.kelvin.Some? then args.kelvin else a.colorTempKelvin), p)
  }

  /** `async_turn_off`: a confirmed command turns the light off; nothing else changes. */
  function TurnOff(a: LightAttrs, success: bool): (r: (LightAttrs, Payload))
  {
    (if success then a.(isOn := false) else a, TurnOffPayload)
  }

  /** A failed command changes nothing; a confirmed one turns the light on and replaces exactly
      the attributes given as arguments, leaving the mired value and the cached state alone. */
  lemma TurnOnOptimistic(a: LightAttrs, args: TurnOnArgs, success: bool)
    ensures var (r, sent) := TurnOn(a, args, success);
      && sent == TurnOnPayload(args)
      && (!success || sent.None? ==> r == a)
      && (success && sent.Some? ==>
            && r.isOn
            && r.brightness == (if args.brightness.Some? then args.brightness else a.brightness)
            && r.hs == (if args.hs.Some? then args.hs else a.hs)
            && r.colorTempKelvin == (if args.kelvin.Some? then args.kelvin else a.colorTempKelvin)
            && r.colorTemp == a.colorTemp && r.state == a.state)
  {
  }

  /** Turning off: a failed command changes nothing, a confirmed one changes only `is_on`. */
  lemma TurnOffOptimistic(a: LightAttrs, success: bool)
    ensures var (r, sent) := TurnOff(a, success);
      && sent == [(1, 0)]
      && (success ==> !r.isOn && r.(isOn := a.isOn) == a)
      && (!success ==> r == a)
  {
  }

  /** Truncating a whole number gives it back. */
  lemma TruncWhole(x: real)
    requires x == x.Floor as real
    ensures Trunc(x) as real == x
  {
    if x < 0.0 {
      assert (-x).Floor == -x.Floor;
    }
  }

  /** Every value of a payload's dict is a number. */
  lemma PayloadNumeric(p: Payload)
    ensures Numeric(ToMap(PayloadObject(p)))
  {
    var data := PayloadObject(p);
    var m := ToMap(data);
    ToMapSpec(data);
    forall k | k in m
      ensures PyNumber(m[k]).Some?
    {
      var i :| 0 <= i < |data| && data[i] == (k, m[k]);
    }
  }

  /** The dict a device reports after applying a turn-on payload has dpid 1 at 255, dpid 4
      exactly when a brightness was given, at four times it. */
  lemma TurnOnEchoOnBrightness(args: TurnOnArgs)
    requires args.kelvin != Some(0)
    ensures var m := ToMap(PayloadObject(TurnOnPayload(args).value));
      && DpidSwitch in m && m[DpidSwitch] == JInt(255)
      && (DpidBright in m <==> args.brightness.Some?)
      && (args.brightness.Some? ==> m[DpidBright] == JInt(4 * args.brightness.value))
  {
    var p := TurnOnPayload(args).value;
    TurnOnPayloadShape(args);
    TurnOnPayloadKeys(args);
    assert NatToString(1) == DpidSwitch && NatToString(4) == DpidBright;
    PayloadDict(p, 1);
    PayloadDict(p, 4);
    assert (1, 255) in p by {
      assert p[0] == (1, 255);
    }
  }

  /** The same dict has dpids 5 and 6 exactly when a colour was given, at the truncated hue and ten times the
      saturation, and dpid 3 exactly when a colour temperature was given. */
  lemma TurnOnEchoColour(args: TurnOnArgs)
    requires args.kelvin != Some(0)
    ensures var m := ToMap(PayloadObject(TurnOnPayload(args).value));
      && (DpidHue in m <==> args.hs.Some?) && (DpidSat in m <==> args.hs.Some?)
      && (args.hs.Some? ==>
            m[DpidHue] == JInt(Trunc(args.hs.value.0)) && m[DpidSat] == JInt(Trunc(args.hs.value.1 * 10.0)))
      && (DpidTemp in m <==> args.kelvin.Some?)
  {
    var p := TurnOnPayload(args).value;
    TurnOnPayloadShape(args);
    TurnOnPayloadKeys(args);
    assert NatToString(3) == DpidTemp && NatToString(5) == DpidHue && NatToString(6) == DpidSat;
    PayloadDict(p, 3);
    PayloadDict(p, 5);
    PayloadDict(p, 6);
  }

  /** Reading back the state a device reports after applying a turn-on payload agrees with the
      optimistic update: the light is on, has the brightness that was set, and the hue and
      saturation that were set whenever they are whole numbers of degrees and tenths of a
      percent; a colour temperature that was set reads back within `[2000, 6535]`. */
  lemma TurnOnReadBack(a: LightAttrs, args: TurnOnArgs)
    requires args.kelvin != Some(0)
    ensures var p := TurnOnPayload(args).value;
      var (r, ok) := ReadBack(a, ToMap(PayloadObject(p)));
      && ok && r.isOn
      && (args.brightness.Some? ==> r.brightness == args.brightness)
      && (args.hs.Some? ==>
            var (h, s) := args.hs.value;
            && r.hs == Some((Trunc(h) as real, Trunc(s * 10.0) as real / 10.0))
            && (h == h.Floor as real && s * 10.0 == (s * 10.0).Floor as real ==> r.hs == args.hs))
      && (args.kelvin.Some? ==>
            r.colorTempKelvin.Some? && MinColorTempKelvin <= r.colorTempKelvin.value <= 6535)
  {
    var m := ToMap(PayloadObject(TurnOnPayload(args).value));
    PayloadNumeric(TurnOnPayload(args).value);
    TurnOnEchoOnBrightness(args);
    TurnOnEchoColour(args);
    EchoReadBack(a, args, m);
  }

  /** Reading back a numeric state holding what a turn-on with `args` sets. */
  lemma EchoReadBack(a: LightAttrs, args: TurnOnArgs, m: map<string, Json>)
    requires Numeric(m) && DpidSwitch in m && m[DpidSwitch] == JInt(255)
    requires (DpidBright in m <==> args.brightness.Some?)
    requires args.brightness.Some? ==> m[DpidBright] == JInt(4 * args.brightness.value)
    requires (DpidHue in m <==> args.hs.Some?) && (DpidSat in m <==> args.hs.Some?)
    requires args.hs.Some? ==>
      m[DpidHue] == JInt(Trunc(args.hs.value.0)) && m[DpidSat] == JInt(Trunc(args.hs.value.1 * 10.0))
    requires DpidTemp in m <==> args.kelvin.Some?
    ensures var (r, ok) := ReadBack(a, m);
      && ok && r.isOn
      && (args.brightness.Some? ==> r.brightness == args.brightness)
      && (args.hs.Some? ==>
            var (h, s) := args.hs.value;
            && r.hs == Some((Trunc(h) as real, Trunc(s * 10.0) as real / 10.0))
            && (h == h.Floor as real && s * 10.0 == (s * 10.0).Floor as real ==> r.hs == args.hs))
      && (args.kelvin.Some? ==>
            r.colorTempKelvin.Some? && MinColorTempKelvin <= r.colorTempKelvin.value <= 6535)
  {
    ReadBackSpec(a, m);
    var (r, ok) := ReadBack(a, m);
    if args.brightness.Some? {
      var b := args.brightness.value;
      assert TruncDiv(4 * b, 4) == b;
    }
    if args.hs.Some? {
      var (h, s) := args.hs.value;
      assert r.hs == Some((Trunc(h) as real, Trunc(s * 10.0) as real / 10.0));
      if h == h.Floor as real && s * 10.0 == (s * 10.0).Floor as real {
        TruncWhole(h);
        TruncWhole(s * 10.0);
      }
    }
  }
}
