/** The integration's constants: device type codes, data-point ids, retry and
    backoff parameters, thresholds and device-state strings. */
module Const {

  // Device type codes
  const SwitchTypeCode: string := "00"
  const LightTypeCode: string := "01"
  const SocketTypeCode: string := "02"
  const SupportDeviceCategory: seq<string> := [SwitchTypeCode, LightTypeCode, SocketTypeCode]
  const SwitchLikeTypes: seq<string> := [SwitchTypeCode, SocketTypeCode]

  // Data-point ids
  const DpidSwitch: string := "1"
  const DpidWorkMode: string := "2"
  const DpidTemp: string := "3"
  const DpidBright: string := "4"
  const DpidHue: string := "5"
  const DpidSat: string := "6"
  const LightDpid: seq<string> := [DpidSwitch, DpidWorkMode, DpidTemp, DpidBright, DpidHue, DpidSat]
  const SwitchDpid: seq<string> := [DpidSwitch]

  // Entity-side scales and colour-temperature range
  const BrightnessScale: int := 4
  const SaturationScale: int := 10
  const MinColorTempKelvin: int := 2000
  const MaxColorTempKelvin: int := 6500

  // Connection-engine retry policy
  const MaxRetryAttempts: nat := 5
  const InitialRetryDelay: real := 0.5
  const MaxRetryDelay: real := 15.0
  const RetryBackoffFactor: real := 1.5

  // Health monitoring
  const MaxConsecutiveFailures: nat := 3
  const RediscoveryOnFailureThreshold: nat := 5
  const HeartbeatInterval: real := 60.0

  // Receive-loop reconnection backoff
  const ReconnectMinInterval: real := 5.0
  const ReconnectMaxInterval: real := 300.0
  const ReconnectBackoffFactor: real := 1.5
  const DeviceRediscoveryInterval: real := 120.0

  // Device-state strings
  const DeviceStateOnline: string := "online"
  const DeviceStateOffline: string := "offline"
  const DeviceStateConnecting: string := "connecting"
  const DeviceStateUnknown: string := "unknown"

  /** The relations between the constants that the rest of the model relies on. */
  lemma ConstantsConsistent()
    ensures forall t :: t in SwitchLikeTypes ==> t in SupportDeviceCategory
    ensures |SupportDeviceCategory| == 3 && SwitchTypeCode != LightTypeCode && LightTypeCode != SocketTypeCode && SocketTypeCode != SwitchTypeCode
    ensures LightDpid == ["1", "2", "3", "4", "5", "6"] && SwitchDpid == ["1"]
    ensures 0.0 < InitialRetryDelay <= MaxRetryDelay && RetryBackoffFactor > 1.0 && MaxRetryAttempts == 5
    ensures ReconnectMinInterval <= ReconnectMaxInterval && ReconnectBackoffFactor == 1.5
    ensures MaxConsecutiveFailures < RediscoveryOnFailureThreshold
    ensures DeviceStateOnline != DeviceStateOffline && DeviceStateOnline != DeviceStateConnecting
    ensures DeviceStateOnline != DeviceStateUnknown && DeviceStateOffline != DeviceStateConnecting
    ensures DeviceStateOffline != DeviceStateUnknown && DeviceStateConnecting != DeviceStateUnknown
  {
  }
}
