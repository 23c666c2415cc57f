/**
  The driver's error type: a bus error passed through, or the one protocol
  error, a hardware id that does not match the device type.
*/
module Errors {
  import opened Common
  import opened Transport

  datatype SeesawError = I2c(e: BusError) | InvalidHardwareId(id: u8)

  /** The `?` conversion: a transport error becomes `I2c`, a value passes through. */
  function Lift<T>(s: Step<T, BusError>): (t: Step<T, SeesawError>)
    ensures t.events == s.events
    ensures t.result.Ok? <==> s.result.Ok?
    ensures s.result.Ok? ==> t.result.value == s.result.value
    ensures s.result.Err? ==> t.result.error == I2c(s.result.error)
  {
    match s.result
    case Ok(v) => Step(s.events, Ok(v))
    case Err(e) => Step(s.events, Err(I2c(e)))
  }
}
