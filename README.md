# Seesaw I2C driver, modelled in Dafny

A Seesaw device is an I/O expander whose functions are grouped into register
blocks ("modules": status, ADC, timer/PWM, NeoPixel, encoder, GPIO, ...). The
host reaches a register by its two-byte address `[module id, function id]`
over I2C. This project models the blocking driver's core:

- **The transport** (`driver.dfy`, module `Transport`). `register_read`
  writes the register address, waits `DELAY_TIME_MICROS` (125 us), then reads
  N bytes. `register_write` sends one bus write of the address followed by the
  payload, then waits the same delay. The typed accessors `read_u8` ...
  `write_i64` become one width-tagged pair, `ReadInt` / `WriteInt`, over
  `IntKind`. The big-endian two's-complement marshalling lives in
  `bigendian.dfy`.
- **The bus is a collaborator.** A `Driver` object records every bus step and
  delay in its `trace` field. Its `peripheral` decides what the device does,
  as a deterministic function of all earlier traffic: whether a step fails,
  which bytes a read returns, and the level of a GPIO pin.
- **Every operation is a method whose contract gives the traffic it
  appends and its result.** Mostly this is a pure specification function
  (`RegisterReadSpec`, `ResetSpec`, `ColorsSpec`, ...) returning both, and
  the method ensures `d.trace == old(d.trace) + s.events` and
  `r == s.result`. `Capabilities`, `ProductInfo` and `Temp` instead give
  their result by cases over the underlying typed read. `EnableButton`
  states its traffic directly. Lemmas then state what the specification
  functions promise. A method's "## Model" row covers the specification
  function it is proved against.
- **Failure semantics.** A failed bus step is recorded and ends the
  operation: no delay and no later step follows it. Its error is returned
  wrapped in `SeesawError.I2c`, which is the `From` conversion behind `?`.
- **The device blocks:**
  - `status.dfy`: capabilities bitmask, hardware id, date code, temperature,
    reset, and reset-and-verify.
  - `adc.dfy`: the pin-to-channel table and the channel read.
  - `timer.dfy`: the PWM pin table and the packed `[pin, value]` word.
  - `neopixel.dfy`: pin, length, speed, pixel buffer frames and show.
  - `encoder.dfy`: position, delta, interrupts and the push button.
- **GPIO.** The encoder uses GPIO through `gpio.dfy`, a stand-in that performs
  one opaque GPIO step per call.
- **The echo device.** `echo.dfy` defines a register-file device that never
  faults. Against it, a typed write followed by a typed read of the same
  register returns the value written, for every integer width.
- **Register ids.** The block ids and hardware-id bytes are the Seesaw
  firmware's values, declared in `common.dfy`. Status is 0x00, Timer 0x08,
  ADC 0x09, NeoPixel 0x0E, Encoder 0x11. The ATTINY817 reports 0x87 and the
  SAMD09 0x55.

Two observations the model keeps as the code has them:

- The ADC block's documentation asks for at least 500 us between addressing
  a channel and reading it, but `analog_read` goes through `register_read`,
  which waits 125 us.
- `sync_neopixel` waits 125 us twice: once inside `register_write` and once
  explicitly.

## Model

| member | source | states |
|---|---|---|
| BigEndian.ToBeBytes | src/driver.rs:50-60 | `to_be_bytes` yields exactly the type's width (BITS / 8) in bytes, whose unsigned value is v itself or, for a negative v, v + 256^width: two's complement |
| BigEndian.FromBeBytes | src/driver.rs:63-69 | `from_be_bytes` of a width-sized buffer is a value of the type's range equal to the bytes' unsigned value or to that value minus 256^width (exactly one of the two lies in the range) |
| BigEndian.ToBeBytesMod | src/driver.rs:50-60 | the encoding's unsigned value is v modulo 256^width |
| BigEndian.FromBeBytesMod | src/driver.rs:63-69 | a decoded value is congruent to the bytes' unsigned value modulo 256^width |
| BigEndian.MinusOneI32 | src/driver.rs:50-69 | -1 as an i32 is the bytes FF FF FF FF, and those bytes decode to -1 |
| BigEndian.U8Encode | src/driver.rs:50-60 | a u8 is written as its single byte |
| BigEndian.U8Byte | src/driver.rs:63-69 | a u8 read is its single byte |
| BigEndian.BeValueOfBeBytes | src/driver.rs:58 | decoding the n big-endian bytes of x gives x back |
| BigEndian.BeBytesOfBeValue | src/driver.rs:67 | re-encoding the value of a byte string gives the same bytes |
| BigEndian.BeValueLeadingByte | src/driver.rs:63-69 | the first byte is the most significant: it weighs 256^(n-1) |
| BigEndian.RoundTrip | src/driver.rs:50-69 | for every width and every in-range value, decode(encode(v)) == v |
| BigEndian.RoundTripBytes | src/driver.rs:50-69 | for every width, every buffer of that width is the encoding of its decoded value |
| BigEndian.SameUnsignedValue | src/driver.rs:50-69 | decoding a buffer and encoding the value again keeps the buffer's unsigned value |
| BigEndian.U16Bytes | src/modules/timer.rs:40 | a u16 built from [hi, lo] is hi * 256 + lo, and its big-endian bytes are [hi, lo] |
| Transport.BusStep | src/driver.rs:117-119 | a bus step is recorded whether or not it fails; it succeeds exactly when the device reports no fault, and otherwise returns the device's error |
| Transport.ReadData | src/driver.rs:116-120 | a read into an N-byte buffer yields exactly N bytes |
| Transport.RegisterReadFraming | src/driver.rs:111-121 | a register read writes the 2-byte address, waits 125 us, and reads N bytes, returning exactly what was read; it succeeds exactly when neither step faults; a failed address write returns its error and is followed by neither the delay nor the read; a failed read returns that read's error after the delay |
| Transport.RegisterWriteFraming | src/driver.rs:123-139 | a register write is one bus write of N + 2 bytes: the register address first, then the payload; the delay follows only a write that succeeded, and a failure returns the bus error |
| Transport.ReadIntSpec | src/driver.rs:63-69 | a typed read that succeeds returns a value of the requested type |
| Transport.ReadIntWidth | src/driver.rs:63-69 | a typed read transfers exactly BITS / 8 bytes |
| Transport.AssembleFrame | src/driver.rs:132-134 | the N + 2 byte buffer holds the register address in its first two cells and the payload in the rest |
| Transport.Driver.RegisterRead | src/driver.rs:111-121 | appends exactly the register-read traffic to the trace and returns its result |
| Transport.Driver.RegisterWrite | src/driver.rs:123-139 | appends exactly the register-write traffic to the trace and returns its result |
| Transport.Driver.ReadInt | src/driver.rs:63-69 | a typed read is a register read of the type's width, decoded big-endian |
| Transport.Driver.WriteInt | src/driver.rs:50-60 | a typed write is a register write of the value's big-endian bytes |
| EchoBus.EchoReadsBack | src/driver.rs:111-139 | on an echoing device a successful register write of any non-empty payload is one write plus the delay, and a following register read of the same register and length returns exactly that payload |
| EchoBus.WriteThenRead | src/driver.rs:50-69 | on an echoing register device, write_W then read_W of the same register returns the value written, for every width and value |
| Errors.Lift | src/lib.rs:91-101 | the `?` conversion keeps the traffic and the success value, and wraps a bus error as `SeesawError::I2c` |
| Common.ModuleIdsDistinct | src/modules/status.rs:120-133 | distinct register blocks have distinct id bytes, so each capability bit names exactly one block |
| Common.HardwareId.ToU8 | src/modules/status.rs:66-69 | the byte each hardware variant reports (0x87 for ATTINY817, 0x55 for SAMD09), and no other variant reports it |
| StatusModule.CapabilitiesFrom | src/modules/status.rs:117-135 | each capability flag is the word's bit at that block's id |
| StatusModule.BitOfPow2 | src/modules/status.rs:120-133 | the word 2^m has bit m set and no other bit |
| StatusModule.CapabilitiesOfZero | src/modules/status.rs:117-135 | the word 0 decodes to no capabilities |
| StatusModule.CapabilitiesOfSingleBit | src/modules/status.rs:117-135 | a word with only block m's bit set decodes to block m alone |
| StatusModule.NeopixelOnly | src/modules/status.rs:117-135 | the literal word 0x4000 decodes to NeoPixel alone |
| StatusModule.DateCodeFrom | src/modules/status.rs:147-155 | the decode gives a year in 2000..2063, a month at most 15 and a day at most 31, with no calendar check |
| StatusModule.DateCodeRoundTrip | src/modules/status.rs:147-155 | every date code the word can carry decodes from its word unchanged |
| StatusModule.WordFields | src/modules/status.rs:147-155 | the decode's shifts and masks recover the id, year offset, month and day from a word that packs them |
| StatusModule.DateCodeWordOfDecode | src/modules/status.rs:147-155 | re-encoding a decoded word restores it, except bit 6, which the decode ignores |
| StatusModule.DateCodeExample | src/modules/status.rs:147-155 | the literal word 0x12345A8D decodes to product 0x1234, built 2013-05-11 |
| StatusModule.TempFromRaw | src/modules/status.rs:76-81 | the temperature is the raw word divided by 2^16 |
| StatusModule.TempOfOne | src/modules/status.rs:80 | the raw word 0x00010000 is exactly 1.0 degree |
| StatusModule.HardwareIdSpec | src/modules/status.rs:32-38 | the hardware id is one 1-byte register read that returns the byte read, unchanged; it succeeds exactly when neither the address write nor the read faults, and otherwise returns the faulting step's error |
| StatusModule.ResetTrace | src/modules/status.rs:51-61 | reset writes 0xFF to the reset register, then waits 125 us and then 125 000 us; a failed write returns the bus error and waits for nothing |
| StatusModule.ResetAndVerifyVerdict | src/modules/status.rs:63-74 | verification succeeds exactly when the reset and the id read succeed and the id equals the variant's byte; it fails with InvalidHardwareId(x) exactly when the id read returns some other byte x; a failed reset is returned before any id read; after a successful reset the traffic is the reset's followed by the id read's, and a failed id read returns that read's error |
| StatusModule.Capabilities | src/modules/status.rs:21-30 | one u32 read of the options register, decoded as capabilities |
| StatusModule.ReadHardwareId | src/modules/status.rs:32-38 | one u8 read of the hardware-id register |
| StatusModule.ProductInfo | src/modules/status.rs:40-49 | one u32 read of the version register, decoded as a date code |
| StatusModule.Reset | src/modules/status.rs:51-61 | the reset write, then the reboot wait |
| StatusModule.ResetAndVerifySeesaw | src/modules/status.rs:63-74 | the reset, then the id read, then the comparison, with the traffic and verdict of the reset-and-verify specification |
| StatusModule.Temp | src/modules/status.rs:76-81 | one u32 read of the temperature register, converted to degrees |
| AdcModule.PinOffset | src/modules/adc.rs:95-106 | ATTINY817 channels are the pins themselves; on SAMD09, pins 2, 3, 4 and 5 are channels 0 to 3 and every other pin is channel 0 |
| AdcModule.ChannelRange | src/modules/adc.rs:76 | the channel register `0x07 + offset` exists for every SAMD09 pin and for ATTINY817 pins up to 248 |
| AdcModule.AnalogReadValue | src/modules/adc.rs:67-79 | a successful read addresses `[0x09, 0x07 + offset]`, waits, reads 2 bytes, and returns them as high byte * 256 + low byte |
| AdcModule.AnalogRead | src/modules/adc.rs:67-79 | one u16 read of the pin's channel register |
| TimerModule.MappedPin | src/modules/timer.rs:26-35 | ATTINY817 pins are used as they are; on SAMD09, pins 4 to 7 are PWM outputs 0 to 3 and every other pin is output 0 |
| TimerModule.TablesDiffer | src/modules/timer.rs:26-35 | the PWM table is not the ADC table: SAMD09 pin 4 is ADC channel 2 but PWM output 0 |
| TimerModule.PwmWord | src/modules/timer.rs:40 | the word packs the output in its high byte and the value in its low byte, and its big-endian bytes are exactly [output, value] |
| TimerModule.AnalogWrite | src/modules/timer.rs:25-43 | one register write to PWM_VAL whose payload is exactly [mapped pin, value] |
| NeopixelModule.SpeedBit | src/modules/neopixel.rs:62-77 | the speed register's value is 0 for 400 kHz and 1 for 800 kHz |
| NeopixelModule.PixelFrame | src/modules/neopixel.rs:85-101 | pixel n's frame is six bytes: the byte offset 3 * n as high byte * 256 + low byte, then r, g, b, then a zero byte |
| NeopixelModule.PixelOffsets | src/modules/neopixel.rs:93 | the first two frame bytes are exactly `u16::to_be_bytes(3 * n)` and decode back to 3 * n |
| NeopixelModule.EnableTrace | src/modules/neopixel.rs:43-60 | enabling writes the pin byte, then the length 3 * N_LEDS as a big-endian u16; each write is followed by the register delay and a 10 ms wait; it succeeds exactly when neither write faults, and a failed pin or length write ends the call with that write's error |
| NeopixelModule.SpeedTrace | src/modules/neopixel.rs:62-77 | a speed change writes the single speed byte, then waits 10 ms; it succeeds exactly when that write does, and otherwise returns the write's error with nothing after it |
| NeopixelModule.SyncTrace | src/modules/neopixel.rs:126-137 | show is the bare 2-byte register address followed by two 125 us waits; it fails exactly when that write fails, and then returns that write's bus error wrapped as `I2c` |
| NeopixelModule.FrameEventsAt | src/modules/neopixel.rs:103-124 | in the traffic of k pixel writes, event 2j is pixel j's frame and event 2j + 1 the delay after it |
| NeopixelModule.FrameWrites | src/modules/neopixel.rs:103-124 | writing k pixels takes exactly k bus writes |
| NeopixelModule.ColorsShape | src/modules/neopixel.rs:103-124 | setting all colours either writes every frame in pixel order, or fails on some pixel j after writing pixels 0 to j - 1, returning that write's error and sending nothing more |
| NeopixelModule.ColorsAllWritten | src/modules/neopixel.rs:112-123 | iterations that all succeeded sent exactly the frame writes of pixels 0 to k - 1, in order, each followed by the register delay |
| NeopixelModule.ColorsFailure | src/modules/neopixel.rs:112-122 | a failed run failed on some pixel j < k after writing pixels 0 to j - 1 |
| NeopixelModule.FailedAtLast | src/modules/neopixel.rs:115-121 | a failure right after j successful iterations is the failed frame write of pixel j, its error returned through `?` |
| NeopixelModule.ColorsStep | src/modules/neopixel.rs:112-122 | after pixels 0 to k - 1 were written without error, iteration k appends exactly the SET_BUF write of pixel k's frame and succeeds exactly when that write does, converting its error with `?` |
| NeopixelModule.ColorsStop | src/modules/neopixel.rs:112-122 | once a frame write has failed, later iterations add no traffic and keep the error |
| NeopixelModule.EnableNeopixel | src/modules/neopixel.rs:43-60 | the pin and length writes with their waits, as the enable specification gives them |
| NeopixelModule.SetNeopixelSpeed | src/modules/neopixel.rs:62-77 | the speed write and its wait |
| NeopixelModule.SetNthNeopixelColor | src/modules/neopixel.rs:85-101 | callable only for n < N_LEDS; one SET_BUF write of pixel n's frame |
| NeopixelModule.SetNeopixelColor | src/modules/neopixel.rs:79-83 | the same traffic and result as setting pixel 0 |
| NeopixelModule.SetNeopixelColors | src/modules/neopixel.rs:103-124 | the loop's traffic and result are those of the pixel-by-pixel specification over all N_LEDS pixels |
| NeopixelModule.SyncNeopixel | src/modules/neopixel.rs:126-137 | the show write and its wait |
| EncoderModule.EnableButton | src/modules/encoder.rs:26-32 | the button pin is set as a pulled-up input; a 125 us wait follows only if that succeeded |
| EncoderModule.Button | src/modules/encoder.rs:34-38 | exactly the digital read of the button pin |
| EncoderModule.Delta | src/modules/encoder.rs:40-46 | one i32 read of the delta register |
| EncoderModule.DisableInterrupt | src/modules/encoder.rs:48-54 | the byte 1 written to the interrupt-clear register |
| EncoderModule.EnableInterrupt | src/modules/encoder.rs:56-62 | the byte 1 written to the interrupt-set register |
| EncoderModule.InterruptTrace | src/modules/encoder.rs:48-62 | enabling or disabling the interrupt is one write of the register address and the byte 1, then the register delay; a failed write returns its error with nothing after it |
| EncoderModule.Position | src/modules/encoder.rs:64-70 | one i32 read of the position register |
| EncoderModule.SetPosition | src/modules/encoder.rs:72-78 | the position's four big-endian bytes written to the position register |
| EncoderModule.SetPositionThenPosition | src/modules/encoder.rs:64-78 | on an echoing device, a position that was set reads back unchanged, negative positions included |

## Left out

- The asynchronous variants (`*Async` traits and the cooperative scheduling they allow) are not modelled. They send the same bus bytes as the blocking variants. One timing difference is not modelled: the async `enable_button` calls its 125 us delay without awaiting it (src/modules/encoder.rs:30).
- Real hardware is reduced to the recorded trace and the `peripheral` oracle: the I2C bus, the microsecond delay and the bus error type. Bus timeouts and bus sharing are not modelled.
- gpio.rs is not part of this model. `GpioModule.SetPinMode` and `GpioModule.DigitalRead` are each one opaque step, whose outcome the peripheral decides; only the pull-up input mode the encoder uses is declared.
- common.rs is not part of this model. The block ids and hardware-id bytes are the Seesaw firmware's values. Most proofs depend only on the block ids being distinct and below 32. Three facts name concrete values: `Common.HardwareId.ToU8` (0x87 and 0x55), `StatusModule.NeopixelOnly` (NeoPixel is 0x0E, so its bit is 0x4000) and `AdcModule.AnalogReadValue` (ADC is 0x09).
- macros.rs (the blocking/async code generator), the device catalogue, the handle plumbing in lib.rs and the example programs are not modelled.
- Register constants that no core operation uses are not declared: the encoder's STATUS register, and the ADC's STATUS, INTENSET, INTENCLR and window-mode registers.
- `AdcModule.AnalogRead`: requires that `0x07 + offset` fits in a u8 (ATTINY817 pins up to 248). The source's u8 addition would panic in a debug build and wrap in a release build; the wrap-around is not modelled.
- `NeopixelModule.EnableNeopixel`: requires `N_LEDS <= 0x5555`, so that `3 * N_LEDS` fits in a u16. Overflow of that u16 multiplication is not modelled.
- `NeopixelModule.SetNthNeopixelColor`: the source's `assert!(n < N_LEDS)` panic becomes the precondition `n < nLeds`.
- `NeopixelModule.SetNeopixelColors`: the strip length N_LEDS is the length of the colour sequence, bounded by `0x5555`.
- `StatusModule.Temp`: the conversion is exact real division by 2^16. The f32 rounding of the source (`temp_buf as f32 / (1u32 << 16) as f32`) is not modelled.
- `StatusModule.TempFromRaw`: exact, where the source rounds the raw word to f32 before dividing.
