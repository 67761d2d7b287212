/**
 * The two pure decisions of the accessory (src/platformAccessory.ts): the
 * operating mode derived from the active flag and the temperatures, and the
 * power levels the hysteresis rule asks the heater for.
 */
module Control {
  import opened Numbers
  import opened Characteristics

  /**
   * `refreshCurrentHeaterCoolerState`'s rule: INACTIVE unless the heater is
   * ACTIVE; otherwise HEATING while the room is at or below the threshold and
   * IDLE above it (or when a comparison with NaN fails).
   */
  function DeriveMode(active: int, current: Num, threshold: Num): (m: HeaterCoolerState)
    ensures m == Inactive <==> active != ACTIVE
    ensures m == Heating <==> active == ACTIVE && Le(current, threshold)
  {
    if active == ACTIVE then
      if Le(current, threshold) then Heating else Idle
    else Inactive
  }

  /**
   * Raising the threshold or lowering the room temperature never turns
   * HEATING into anything else.
   */
  lemma HeatingMonotone(active: int, current: Num, threshold: Num, current': Num, threshold': Num)
    requires DeriveMode(active, current, threshold) == Heating
    requires Le(current', current) && Le(threshold, threshold')
    ensures DeriveMode(active, current', threshold') == Heating
  {
  }

  /** An active heater whose room temperature equals the threshold is HEATING. */
  lemma BoundaryIsHeating(current: Num)
    requires current.Val?
    ensures DeriveMode(ACTIVE, current, current) == Heating
  {
  }

  /** An active heater with an unknown (NaN) temperature or threshold is IDLE. */
  lemma UnknownTemperatureIsIdle(current: Num, threshold: Num)
    requires current.NaN? || threshold.NaN?
    ensures DeriveMode(ACTIVE, current, threshold) == Idle
  {
  }

  /** The configured tolerances and power bounds of the hysteresis rule. */
  datatype PowerConfig = PowerConfig(hotTolerance: Num, coldTolerance: Num, minPower: Num, maxPower: Num)

  /** The room is warmer than the threshold plus the hot tolerance (strictly). */
  predicate TooHot(cfg: PowerConfig, current: Num, threshold: Num)
  {
    Gt(current, Add(threshold, cfg.hotTolerance))
  }

  /** The room is colder than the threshold minus the cold tolerance (strictly). */
  predicate TooCold(cfg: PowerConfig, current: Num, threshold: Num)
  {
    Lt(current, Sub(threshold, cfg.coldTolerance))
  }

  /**
   * `updatePowerIfNeeded`: the power levels requested, in order. Both checks
   * are separate `if`s evaluated on the same state, because neither request
   * has completed when the second check runs.
   */
  function PowerCommands(cfg: PowerConfig, active: int, current: Num, threshold: Num, power: Num): (levels: seq<Num>)
    ensures active != ACTIVE ==> levels == []
    ensures forall i :: 0 <= i < |levels| ==>
      || (levels[i] == cfg.minPower && TooHot(cfg, current, threshold) && !Eq(power, cfg.minPower))
      || (levels[i] == cfg.maxPower && TooCold(cfg, current, threshold) && !Eq(power, cfg.maxPower))
  {
    if active != ACTIVE then []
    else
      (if TooHot(cfg, current, threshold) && !Eq(power, cfg.minPower) then [cfg.minPower] else [])
      + (if TooCold(cfg, current, threshold) && !Eq(power, cfg.maxPower) then [cfg.maxPower] else [])
  }

  /** Tolerances that are numbers whose sum is not negative, so the band is not empty. */
  predicate SaneTolerances(cfg: PowerConfig)
  {
    cfg.hotTolerance.Val? && cfg.coldTolerance.Val? && cfg.hotTolerance.v + cfg.coldTolerance.v >= 0.0
  }

  /** An inactive heater is never asked for a power level. */
  lemma InactiveCommandsNothing(cfg: PowerConfig, active: int, current: Num, threshold: Num, power: Num)
    requires active != ACTIVE
    ensures PowerCommands(cfg, active, current, threshold, power) == []
  {
  }

  /** Every requested level is the minimum or the maximum, and at most two are requested. */
  lemma CommandsAreBounds(cfg: PowerConfig, active: int, current: Num, threshold: Num, power: Num)
    ensures var cs := PowerCommands(cfg, active, current, threshold, power);
      && |cs| <= 2
      && forall i :: 0 <= i < |cs| ==> cs[i] == cfg.minPower || cs[i] == cfg.maxPower
  {
  }

  /**
   * Inside the band, boundaries included, nothing is requested: the
   * comparisons are strict.
   */
  lemma InBandCommandsNothing(cfg: PowerConfig, active: int, current: Num, threshold: Num, power: Num)
    requires !TooHot(cfg, current, threshold) && !TooCold(cfg, current, threshold)
    ensures PowerCommands(cfg, active, current, threshold, power) == []
  {
  }

  /** A reading exactly at the threshold plus the hot tolerance requests nothing. */
  lemma HotBoundaryCommandsNothing(cfg: PowerConfig, threshold: Num, power: Num)
    requires SaneTolerances(cfg) && threshold.Val?
    ensures PowerCommands(cfg, ACTIVE, Add(threshold, cfg.hotTolerance), threshold, power) == []
  {
  }

  /** A reading exactly at the threshold minus the cold tolerance requests nothing. */
  lemma ColdBoundaryCommandsNothing(cfg: PowerConfig, threshold: Num, power: Num)
    requires SaneTolerances(cfg) && threshold.Val?
    ensures PowerCommands(cfg, ACTIVE, Sub(threshold, cfg.coldTolerance), threshold, power) == []
  {
  }

  /** With sane tolerances the room cannot be too hot and too cold at once. */
  lemma NotHotAndCold(cfg: PowerConfig, current: Num, threshold: Num)
    requires SaneTolerances(cfg)
    ensures !(TooHot(cfg, current, threshold) && TooCold(cfg, current, threshold))
  {
  }

  /** A too hot room with the power above its minimum asks for exactly the minimum. */
  lemma TooHotCommandsMin(cfg: PowerConfig, current: Num, threshold: Num, power: Num)
    requires SaneTolerances(cfg)
    requires TooHot(cfg, current, threshold) && !Eq(power, cfg.minPower)
    ensures PowerCommands(cfg, ACTIVE, current, threshold, power) == [cfg.minPower]
  {
    NotHotAndCold(cfg, current, threshold);
  }

  /** A too cold room with the power below its maximum asks for exactly the maximum. */
  lemma TooColdCommandsMax(cfg: PowerConfig, current: Num, threshold: Num, power: Num)
    requires SaneTolerances(cfg)
    requires TooCold(cfg, current, threshold) && !Eq(power, cfg.maxPower)
    ensures PowerCommands(cfg, ACTIVE, current, threshold, power) == [cfg.maxPower]
  {
    NotHotAndCold(cfg, current, threshold);
  }

  /**
   * With sane tolerances the rule settles: once the one requested level is in
   * place, the same temperatures request nothing more.
   */
  lemma CommandSettles(cfg: PowerConfig, current: Num, threshold: Num, power: Num)
    requires SaneTolerances(cfg) && cfg.minPower.Val? && cfg.maxPower.Val?
    ensures var cs := PowerCommands(cfg, ACTIVE, current, threshold, power);
      |cs| <= 1 && (cs != [] ==> PowerCommands(cfg, ACTIVE, current, threshold, cs[0]) == [])
  {
    NotHotAndCold(cfg, current, threshold);
  }

  /**
   * When sane tolerances send the heater to its maximum the room is below the
   * threshold, so the derived mode is HEATING; when they send it to its
   * minimum the room is above the threshold, so the mode is IDLE.
   */
  lemma CommandAgreesWithMode(cfg: PowerConfig, current: Num, threshold: Num, power: Num)
    requires SaneTolerances(cfg) && cfg.hotTolerance.v >= 0.0 && cfg.coldTolerance.v >= 0.0
    ensures TooCold(cfg, current, threshold) ==> DeriveMode(ACTIVE, current, threshold) == Heating
    ensures TooHot(cfg, current, threshold) ==> DeriveMode(ACTIVE, current, threshold) == Idle
  {
  }

  /** The hysteresis examples: threshold 22.5, tolerances 0.5, power between 1 and 9. */
  lemma HysteresisExamples(active: int, current: Num)
    ensures var cfg := PowerConfig(Val(0.5), Val(0.5), Val(1.0), Val(9.0));
      && PowerCommands(cfg, ACTIVE, Val(23.1), Val(22.5), Val(5.0)) == [Val(1.0)]
      && PowerCommands(cfg, ACTIVE, Val(21.9), Val(22.5), Val(5.0)) == [Val(9.0)]
      && PowerCommands(cfg, ACTIVE, Val(22.6), Val(22.5), Val(5.0)) == []
      && (active != ACTIVE ==> PowerCommands(cfg, active, current, Val(22.5), Val(5.0)) == [])
  {
  }
}
