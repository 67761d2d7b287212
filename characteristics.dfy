/**
 * The values of the host framework's heater-cooler characteristics that the
 * accessory reads and writes, and the change notifications it pushes.
 */
module Characteristics {
  import opened Numbers

  /** `Characteristic.Active` */
  const INACTIVE: int := 0
  const ACTIVE: int := 1

  /** `Characteristic.TargetHeaterCoolerState.HEAT` */
  const HEAT: int := 1

  /** `Characteristic.CurrentHeaterCoolerState`, restricted to the values the accessory uses. */
  datatype HeaterCoolerState = Inactive | Idle | Heating

  /** A push notification (`updateValue`) sent to the host framework. */
  datatype Notification =
    | ActiveChanged(active: int)
    | ModeChanged(mode: HeaterCoolerState)
    | ThresholdChanged(threshold: Num)
    | TemperatureChanged(temperature: Num)
}
