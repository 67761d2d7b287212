/**
 * The heater's command interface, seen as one abstract call: an operation
 * identifier with its parameters goes out, and either the response text or a
 * failure comes back. The transport (HTTP, authentication, TLS, time-outs and
 * the single-flight queue) is not part of the model; every call is one atomic
 * step whose answer is an input of the operation that makes it.
 */
module Device {
  import opened Numbers

  datatype Command =
    | GetStatus                      // idOperacion=1002
    | SetOnOff(onOff: int)           // idOperacion=1013, on_off
    | SetTemperature(temperatura: Num) // idOperacion=1019, temperatura
    | SetPower(potencia: Num)        // idOperacion=1004

  /** The outcome of one call: the response body, or a transport or HTTP failure. */
  datatype Reply = Answered(body: string) | Failed
}
