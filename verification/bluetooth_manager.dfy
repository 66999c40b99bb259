/**
 * `BluetoothManager`: the broadcast receiver that pauses playback when a
 * Bluetooth A2DP device or headset audio link drops, and resumes it when one
 * connects. The receiver is modelled as a pure decision from the two user
 * settings and the received intent to the playback commands it issues.
 */
module BluetoothManager {
  import opened Wrappers
  import opened JavaLang

  const ACTION_A2DP_CONNECTION_STATE_CHANGED: string := "android.bluetooth.a2dp.profile.action.CONNECTION_STATE_CHANGED"
  const ACTION_HEADSET_AUDIO_STATE_CHANGED: string := "android.bluetooth.headset.profile.action.AUDIO_STATE_CHANGED"

  /** `BluetoothProfile.EXTRA_STATE` / `EXTRA_PREVIOUS_STATE`, which both profiles share. */
  const EXTRA_STATE: string := "android.bluetooth.profile.extra.STATE"
  const EXTRA_PREVIOUS_STATE: string := "android.bluetooth.profile.extra.PREVIOUS_STATE"

  /** `BluetoothProfile` connection states. */
  const STATE_DISCONNECTED: JInt := 0
  const STATE_CONNECTING: JInt := 1
  const STATE_CONNECTED: JInt := 2
  const STATE_DISCONNECTING: JInt := 3

  /** `BluetoothHeadset` audio states. */
  const STATE_AUDIO_DISCONNECTED: JInt := 10
  const STATE_AUDIO_CONNECTING: JInt := 11
  const STATE_AUDIO_CONNECTED: JInt := 12

  /** The received intent: its action and its extras bundle, either possibly `null`. */
  datatype Intent = Intent(action: Option<string>, extras: Option<map<string, JInt>>)

  /** The two `SettingsManager` switches the receiver reads. */
  datatype BluetoothSettings = BluetoothSettings(bluetoothPauseDisconnect: bool, bluetoothResumeConnect: bool)

  /** `playbackManager.pause(false)` and `playbackManager.play()`. */
  datatype Command = Pause | Play

  /** `Bundle.getInt(key)`: the stored value, or 0 when the key is absent. */
  function GetInt(extras: map<string, JInt>, key: string): (v: JInt)
    ensures key !in extras ==> v == 0
    ensures key in extras ==> v == extras[key]
  {
    if key in extras then extras[key] else 0
  }

  /** `shouldPause`: the link went down, or is going down, from connected. */
  predicate ShouldPause(state: JInt, prevState: JInt, disconnectState: JInt, connectedState: JInt) {
    (state == disconnectState || state == STATE_DISCONNECTING) && prevState == connectedState
  }

  /** `shouldResume`: the link is now connected. */
  predicate ShouldResume(state: JInt, connectedState: JInt) {
    state == connectedState
  }

  /** The `bluetoothPauseDisconnect` block. */
  function PauseCommands(action: string, extras: map<string, JInt>): seq<Command> {
    var state := GetInt(extras, EXTRA_STATE);
    var prev := GetInt(extras, EXTRA_PREVIOUS_STATE);
    if action == ACTION_A2DP_CONNECTION_STATE_CHANGED then
      if ShouldPause(state, prev, STATE_DISCONNECTED, STATE_CONNECTED) then [Pause] else []
    else if action == ACTION_HEADSET_AUDIO_STATE_CHANGED then
      if ShouldPause(state, prev, STATE_AUDIO_DISCONNECTED, STATE_AUDIO_CONNECTED) then [Pause] else []
    else []
  }

  /** The `bluetoothResumeConnect` block. */
  function ResumeCommands(action: string, extras: map<string, JInt>): seq<Command> {
    var state := GetInt(extras, EXTRA_STATE);
    if action == ACTION_A2DP_CONNECTION_STATE_CHANGED then
      if ShouldResume(state, STATE_CONNECTED) then [Play] else []
    else if action == ACTION_HEADSET_AUDIO_STATE_CHANGED then
      if ShouldResume(state, STATE_AUDIO_CONNECTED) then [Play] else []
    else []
  }

  /**
   * `onReceive`: the commands issued for one intent, in order. A null action
   * or extras bundle ends the call at once; otherwise the pause block runs
   * before the resume block. No state satisfies both the pause and the
   * resume test, so at most one command is issued.
   */
  function OnReceive(settings: BluetoothSettings, intent: Intent): (cmds: seq<Command>)
    ensures |cmds| <= 1
    ensures intent.action.None? || intent.extras.None? ==> cmds == []
    ensures Pause in cmds ==> settings.bluetoothPauseDisconnect
    ensures Play in cmds ==> settings.bluetoothResumeConnect
  {
    match (intent.action, intent.extras)
    case (Some(action), Some(extras)) =>
      (if settings.bluetoothPauseDisconnect then PauseCommands(action, extras) else [])
      + (if settings.bluetoothResumeConnect then ResumeCommands(action, extras) else [])
    case _ => []
  }

  /**
   * Playback pauses exactly when pausing is enabled and either an A2DP
   * connection drops (or starts dropping) from connected, or headset audio
   * drops from connected. The headset test also accepts the profile's
   * DISCONNECTING code 3, which is not a headset audio state.
   */
  lemma PauseIff(settings: BluetoothSettings, intent: Intent)
    ensures Pause in OnReceive(settings, intent) <==>
              && settings.bluetoothPauseDisconnect
              && intent.action.Some? && intent.extras.Some?
              && ((&& intent.action.value == ACTION_A2DP_CONNECTION_STATE_CHANGED
                   && GetInt(intent.extras.value, EXTRA_STATE) in {0, 3}
                   && GetInt(intent.extras.value, EXTRA_PREVIOUS_STATE) == 2)
                  || (&& intent.action.value == ACTION_HEADSET_AUDIO_STATE_CHANGED
                      && GetInt(intent.extras.value, EXTRA_STATE) in {10, 3}
                      && GetInt(intent.extras.value, EXTRA_PREVIOUS_STATE) == 12))
  {
  }

  /**
   * Playback resumes exactly when resuming is enabled and the intent reports
   * an A2DP connection or a headset audio connection, whatever the previous
   * state was.
   */
  lemma PlayIff(settings: BluetoothSettings, intent: Intent)
    ensures Play in OnReceive(settings, intent) <==>
              && settings.bluetoothResumeConnect
              && intent.action.Some? && intent.extras.Some?
              && ((intent.action.value == ACTION_A2DP_CONNECTION_STATE_CHANGED && GetInt(intent.extras.value, EXTRA_STATE) == 2)
                  || (intent.action.value == ACTION_HEADSET_AUDIO_STATE_CHANGED && GetInt(intent.extras.value, EXTRA_STATE) == 12))
  {
  }

  /** Any other action, or both switches off, issues nothing. */
  lemma UnrelatedIntentIgnored(settings: BluetoothSettings, intent: Intent)
    requires (intent.action.Some? && intent.action.value != ACTION_A2DP_CONNECTION_STATE_CHANGED
              && intent.action.value != ACTION_HEADSET_AUDIO_STATE_CHANGED)
             || (!settings.bluetoothPauseDisconnect && !settings.bluetoothResumeConnect)
    ensures OnReceive(settings, intent) == []
  {
  }

  /**
   * An A2DP intent without a state extra reads as DISCONNECTED, so it pauses
   * whenever the previous state says connected.
   */
  lemma MissingStateReadsAsDisconnected(extras: map<string, JInt>)
    requires EXTRA_STATE !in extras
    requires EXTRA_PREVIOUS_STATE in extras && extras[EXTRA_PREVIOUS_STATE] == STATE_CONNECTED
    ensures OnReceive(BluetoothSettings(true, true), Intent(Some(ACTION_A2DP_CONNECTION_STATE_CHANGED), Some(extras))) == [Pause]
  {
  }
}
