/**
  The two GPIO calls the encoder block relies on. gpio.rs is not part of
  this model: each call is one opaque `Gpio` step whose failure and result
  the peripheral decides.
*/
module GpioModule {
  import opened Common
  import opened Transport
  import opened Errors

  function SetPinModeSpec(p: Peripheral, h: seq<Event>, addr: u8, pin: u8, mode: PinMode)
    : (s: Step<(), SeesawError>)
  {
    Lift(BusStep(p, h, Event.Gpio(addr, GpioRequest.SetPinMode(pin, mode))))
  }

  function DigitalReadSpec(p: Peripheral, h: seq<Event>, addr: u8, pin: u8): (s: Step<bool, SeesawError>)
  {
    var e := Event.Gpio(addr, GpioRequest.DigitalRead(pin));
    match p.fault(h, e)
    case Some(err) => Step([e], Err(I2c(err)))
    case None => Step([e], Ok(p.level(h, addr, pin)))
  }

  method SetPinMode(d: Driver, addr: u8, pin: u8, mode: PinMode) returns (r: Result<(), SeesawError>)
    modifies d
    ensures var s := SetPinModeSpec(d.peripheral, old(d.trace), addr, pin, mode);
      d.trace == old(d.trace) + s.events && r == s.result
  {
    var s := SetPinModeSpec(d.peripheral, d.trace, addr, pin, mode);
    d.trace := d.trace + s.events;
    r := s.result;
  }

  method DigitalRead(d: Driver, addr: u8, pin: u8) returns (r: Result<bool, SeesawError>)
    modifies d
    ensures var s := DigitalReadSpec(d.peripheral, old(d.trace), addr, pin);
      d.trace == old(d.trace) + s.events && r == s.result
  {
    var s := DigitalReadSpec(d.peripheral, d.trace, addr, pin);
    d.trace := d.trace + s.events;
    r := s.result;
  }
}
