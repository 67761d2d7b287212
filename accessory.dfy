/**
 * `EcoforestThermostatAccessory` (src/platformAccessory.ts): the object that
 * owns the `heaterState` record and updates it field by field from the host
 * framework's set requests, from the heater's replies and from the
 * temperature file. Every method is proved to leave the record, the requests
 * sent and the notifications pushed as the functions of `HeaterStates` say.
 */
module Accessory {
  import opened Wrappers
  import opened Numbers
  import opened Characteristics
  import opened Device
  import opened Codec
  import opened Control
  import opened TemperatureFile
  import opened HeaterStates

  /** `Number(x)` of an optional configured number; a missing one is NaN. */
  function ConfigNumber(setting: Option<Num>): (r: Num)
    ensures setting.None? ==> r.NaN?
    ensures setting.Some? ==> r == setting.value
  {
    if setting.Some? then setting.value else NaN
  }

  /** `setting || fallback`: a missing, zero or NaN setting falls back. */
  function OrDefault(setting: Option<Num>, fallback: real): (r: Num)
    ensures r == Val(fallback) || (setting == Some(r) && r.Val? && r.v != 0.0)
    ensures setting.None? ==> r == Val(fallback)
    ensures setting.Some? && setting.value.Val? && setting.value.v != 0.0 ==> r == setting.value
  {
    if setting.Some? && setting.value.Val? && setting.value.v != 0.0 then setting.value else Val(fallback)
  }

  class EcoforestThermostatAccessory {
    /** Tolerances, power bounds and whether a temperature file is configured. */
    const settings: Settings
    var heaterState: HeaterState
    /** The commands sent to the heater, oldest first. */
    ghost var requests: seq<Command>
    /** The `updateValue` notifications pushed to the host framework, oldest first. */
    ghost var notifications: seq<Notification>

    /**
     * Reads the configuration. The first refresh and the periodic timer the
     * constructor starts are calls of `RefreshAccessoryStatus` by the host.
     */
    constructor(hotTolerance: Option<Num>, coldTolerance: Option<Num>,
                minPowerLevel: Option<Num>, maxPowerLevel: Option<Num>, temperatureFilePath: Option<string>)
      ensures settings.power == PowerConfig(ConfigNumber(hotTolerance), ConfigNumber(coldTolerance),
                                            OrDefault(minPowerLevel, 1.0), OrDefault(maxPowerLevel, 9.0))
      ensures settings.hasTemperatureFile <==> temperatureFilePath.Some? && temperatureFilePath.value != []
      ensures heaterState == Initial && requests == [] && notifications == []
    {
      settings := Settings(
        PowerConfig(ConfigNumber(hotTolerance), ConfigNumber(coldTolerance),
                    OrDefault(minPowerLevel, 1.0), OrDefault(maxPowerLevel, 9.0)),
        temperatureFilePath.Some? && temperatureFilePath.value != []);
      heaterState := Initial;
      requests := [];
      notifications := [];
    }

    /** `refreshCurrentHeaterCoolerState` */
    method RefreshCurrentHeaterCoolerState()
      modifies this
      ensures heaterState == RefreshMode(old(heaterState)).state
      ensures notifications == old(notifications) + RefreshMode(old(heaterState)).notes
      ensures requests == old(requests)
    {
      var oldCurrentHeaterCoolerState := heaterState.mode;
      var newCurrentHeaterCoolerState := Inactive;
      if heaterState.active == ACTIVE {
        newCurrentHeaterCoolerState :=
          if Le(heaterState.current, heaterState.threshold) then Heating else Idle;
      } else {
        newCurrentHeaterCoolerState := Inactive;
      }
      if oldCurrentHeaterCoolerState != newCurrentHeaterCoolerState {
        heaterState := heaterState.(mode := newCurrentHeaterCoolerState);
        notifications := notifications + [ModeChanged(newCurrentHeaterCoolerState)];
      }
    }

    /** `setActiveState`: `reply` is the heater's answer to the on/off request, if one is sent. */
    method SetActiveState(value: int, reply: Reply)
      modifies this
      ensures heaterState == SetActive(old(heaterState), value, reply).state
      ensures notifications == old(notifications) + SetActive(old(heaterState), value, reply).notes
      ensures requests == old(requests) + SetActiveCommands(old(heaterState), value)
    {
      if heaterState.active == value {
        return;
      }
      requests := requests + [SetOnOff(value)];
      if reply.Answered? {
        heaterState := heaterState.(active := value);
        RefreshCurrentHeaterCoolerState();
      }
    }

    /**
     * `getActiveState`: polls the status and stores the classified code. A
     * failed request rejects the call (None) and changes nothing.
     */
    method GetActiveState(reply: Reply) returns (r: Option<int>)
      modifies this
      ensures heaterState == GetActive(old(heaterState), reply)
      ensures r == if reply.Failed? then None else Some(heaterState.active)
      ensures requests == old(requests) + [GetStatus] && notifications == old(notifications)
    {
      requests := requests + [GetStatus];
      if reply.Failed? {
        return None;
      }
      var jsonResponse := ParseEcoforestResponse(reply.body);
      heaterState := heaterState.(active := DetermineHeaterActiveState(Field(jsonResponse, "estado")));
      return Some(heaterState.active);
    }

    /**
     * `setTargetHeatingCoolingState`. The switch-on request is not awaited: the
     * Active value pushed right after it is read before it completes, so it is
     * pushed first here and the request then runs to completion.
     */
    method SetTargetHeatingCoolingState(value: int, reply: Reply)
      modifies this
      ensures heaterState == SetTarget(old(heaterState), value, reply).state
      ensures notifications == old(notifications) + SetTarget(old(heaterState), value, reply).notes
      ensures requests == old(requests) + (if old(heaterState).active == INACTIVE then [SetOnOff(ACTIVE)] else [])
    {
      heaterState := heaterState.(target := value);
      if heaterState.active == INACTIVE {
        notifications := notifications + [ActiveChanged(heaterState.active)];
        SetActiveState(ACTIVE, reply);
      }
    }

    /** `setCurrentTemperature` */
    method SetCurrentTemperature(value: Num)
      modifies this
      ensures heaterState == HeaterStates.SetCurrentTemperature(old(heaterState), value).state
      ensures notifications == old(notifications) + HeaterStates.SetCurrentTemperature(old(heaterState), value).notes
      ensures requests == old(requests)
    {
      heaterState := heaterState.(current := Round1(value));
      RefreshCurrentHeaterCoolerState();
    }

    /** `setHeatingThresholdTemperature`: `reply` answers the set-temperature request. */
    method SetHeatingThresholdTemperature(value: Num, reply: Reply)
      modifies this
      ensures heaterState == SetThreshold(old(heaterState), value, reply).state
      ensures notifications == old(notifications) + SetThreshold(old(heaterState), value, reply).notes
      ensures requests == old(requests) + [SetTemperature(value)]
    {
      requests := requests + [SetTemperature(value)];
      if reply.Answered? {
        heaterState := heaterState.(threshold := Round1(value));
        RefreshCurrentHeaterCoolerState();
      }
    }

    /** `setHeaterPower`: `reply` answers the set-power request. */
    method SetHeaterPower(value: Num, reply: Reply)
      modifies this
      ensures heaterState == HeaterStates.SetHeaterPower(old(heaterState), value, reply)
      ensures requests == old(requests) + [SetPower(value)] && notifications == old(notifications)
    {
      requests := requests + [SetPower(value)];
      if reply.Answered? {
        heaterState := heaterState.(power := value);
      }
    }

    /** `updateStatusFromHeater`: each field is written, and pushed, only when it differs. */
    method UpdateStatusFromHeater(reply: Reply)
      modifies this
      ensures heaterState == Poll(old(heaterState), reply).state
      ensures notifications == old(notifications) + Poll(old(heaterState), reply).notes
      ensures requests == old(requests) + [GetStatus]
    {
      requests := requests + [GetStatus];
      if reply.Failed? {
        return;
      }
      var jsonResponse := ParseEcoforestResponse(reply.body);
      ghost var pushed0 := notifications;

      var newCurrentPower := NumberOf(Field(jsonResponse, "consigna_potencia"));
      var oldCurrentPower := heaterState.power;
      if !Eq(newCurrentPower, oldCurrentPower) {
        heaterState := heaterState.(power := newCurrentPower);
      }

      var newHeatingThresholdTemperature := NumberOf(Field(jsonResponse, "consigna_temperatura"));
      var oldHeatingThresholdTemperature := heaterState.threshold;
      if !Eq(newHeatingThresholdTemperature, oldHeatingThresholdTemperature) {
        heaterState := heaterState.(threshold := newHeatingThresholdTemperature);
        notifications := notifications + [ThresholdChanged(newHeatingThresholdTemperature)];
      }

      var newHeaterActiveStatus := DetermineHeaterActiveState(Field(jsonResponse, "estado"));
      var oldHeaterActiveStatus := heaterState.active;
      if newHeaterActiveStatus != oldHeaterActiveStatus {
        heaterState := heaterState.(active := newHeaterActiveStatus);
        notifications := notifications + [ActiveChanged(newHeaterActiveStatus)];
      }

      ghost var reconciled := old(heaterState).(power := newCurrentPower,
        threshold := newHeatingThresholdTemperature, active := newHeaterActiveStatus);
      ghost var pushed := (if Eq(newHeatingThresholdTemperature, oldHeatingThresholdTemperature) then []
        else [ThresholdChanged(newHeatingThresholdTemperature)])
        + (if newHeaterActiveStatus == oldHeaterActiveStatus then [] else [ActiveChanged(newHeaterActiveStatus)]);
      assert heaterState == reconciled;
      assert notifications == pushed0 + pushed;
      RefreshCurrentHeaterCoolerState();
      assert notifications == pushed0 + (pushed + RefreshMode(reconciled).notes);
      assert Poll(old(heaterState), reply) == Reconcile(old(heaterState), jsonResponse)
        == Step(RefreshMode(reconciled).state, pushed + RefreshMode(reconciled).notes);
    }

    /** `updateTemperatureFromFile`: `read` is what reading the configured file gives. */
    method UpdateTemperatureFromFile(read: FileRead)
      modifies this
      ensures heaterState == FileUpdate(old(heaterState), settings.hasTemperatureFile, read).state
      ensures notifications == old(notifications) + FileUpdate(old(heaterState), settings.hasTemperatureFile, read).notes
      ensures requests == old(requests)
    {
      if !settings.hasTemperatureFile {
        return;
      }
      if read.ReadError? {
        return;
      }
      var reading := ReadTemperature(read.data);
      if reading.None? {
        return;
      }
      var newCurrentTemperature := reading.value;
      var oldCurrentTemperature := heaterState.current;
      if !Eq(newCurrentTemperature, oldCurrentTemperature) {
        heaterState := heaterState.(current := newCurrentTemperature);
        notifications := notifications + [TemperatureChanged(newCurrentTemperature)];
      }
    }

    /**
     * `updatePowerIfNeeded`. Both checks run before either un-awaited power
     * request completes, so both see the state as it was; the requests then
     * complete in order, answered by `first` and `second`.
     */
    method UpdatePowerIfNeeded(first: Reply, second: Reply)
      modifies this
      ensures heaterState == PowerUpdate(settings.power, old(heaterState), first, second)
      ensures requests == old(requests) + SetPowerCommands(PowerLevels(settings.power, old(heaterState)))
      ensures notifications == old(notifications)
    {
      var cfg := settings.power;
      var s := heaterState;
      var levels: seq<Num> := [];
      if s.active == ACTIVE {
        if Gt(s.current, Add(s.threshold, cfg.hotTolerance)) {
          if !Eq(s.power, cfg.minPower) {
            levels := levels + [cfg.minPower];
          }
        }
        if Lt(s.current, Sub(s.threshold, cfg.coldTolerance)) {
          if !Eq(s.power, cfg.maxPower) {
            levels := levels + [cfg.maxPower];
          }
        }
      }
      assert levels == PowerLevels(cfg, s);
      if |levels| >= 1 {
        SetHeaterPower(levels[0], first);
      }
      if |levels| == 2 {
        SetHeaterPower(levels[1], second);
      }
      assert SetPowerCommands(levels) == if |levels| == 0 then [] else
        if |levels| == 1 then [SetPower(levels[0])] else [SetPower(levels[0]), SetPower(levels[1])];
    }

    /** `refreshAccessoryStatus`: poll, file, power, mode, in that order. */
    method RefreshAccessoryStatus(poll: Reply, read: FileRead, first: Reply, second: Reply)
      modifies this
      ensures heaterState == Cycle(settings, old(heaterState), poll, read, first, second).state
      ensures notifications == old(notifications) + Cycle(settings, old(heaterState), poll, read, first, second).notes
      ensures requests == old(requests) + CycleCommands(settings, old(heaterState), poll, read)
    {
      ghost var pushed0 := notifications;
      ghost var sent0 := requests;
      UpdateStatusFromHeater(poll);
      ghost var p := Poll(old(heaterState), poll);
      UpdateTemperatureFromFile(read);
      ghost var f := FileUpdate(p.state, settings.hasTemperatureFile, read);
      assert notifications == pushed0 + (p.notes + f.notes);
      UpdatePowerIfNeeded(first, second);
      ghost var w := PowerUpdate(settings.power, f.state, first, second);
      assert requests == sent0 + ([GetStatus] + SetPowerCommands(PowerLevels(settings.power, f.state)));
      RefreshCurrentHeaterCoolerState();
      assert notifications == pushed0 + (p.notes + f.notes + RefreshMode(w).notes);
    }
  }
}
