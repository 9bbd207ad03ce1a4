# oh-byte-me firmware core in Dafny

A model of three small sequential pieces of the AVR (ATmega328P) firmware:

- **helpers.c**: `keyClicked` samples one bit of an entity's port and
  timestamps the entity. `debounceKey` and `identifyLongPress` are
  busy-wait windows that abort at the first low sample. `digitalWrite`
  drives the whole port high or low. `deactivate_entity` and
  `reactivate_entity` clear and set the entity's direction-register bit.
  `convert_range` maps a value linearly between two ranges in `uint32_t`
  arithmetic.
- **timer.c**: the Timer2 compare-match interrupt advances the millisecond
  counter and raises a match flag. `millis()` reads the counter.
  `timer2_init` computes a compare value. `simple_ramp` is a triangle-wave
  generator kept in two static bytes.
- **serial.c**: `uart_init` splits the baud divisor into two registers.
  `uart_getchar` returns a no-data sentinel when nothing was received.
  `uart_getline` is a bounded line reader. `uart_putstr` emits a string and
  then CR LF. `uart_echo` chains the two.

The hardware is replaced by injected values. Within a debounce window,
`clock` is the sequence of values that successive `millis()` calls return and
`pins` is the sequence of values that successive port reads return. Register
contents (port, data-direction register, UCSR0A) are `bv8` values passed in
and returned. The UART receiver is the sequence of bytes that successive
`uart_getchar` calls return. The transmitter is the list of bytes handed to
`uart_putchar`. `uint8_t` and `uint32_t` are bounded integers, and the code's
unsigned wrap-around is written out (`Words.Add32`, `Sub32`, `Mul32`, `Low8`).
A `char` is signed on this target (`Words.AsChar`).

Modules: `Words` (fixed-width arithmetic), `Bits` (register bits; the
reference reading `IsSet(b, i)` is `(b >> i) & 1 == 1`, while the code tests
`b & _BV(i)`), `Entities` (the `ENTITY` record of entity.h), `Helpers`,
`Timer` and `Serial`.

The debounce window test is kept exactly as written: `start + window > now`,
with `start + window` wrapped to 32 bits. The model shows what this does with
a zero window and when the sum overflows, and compares it with the wrap-safe
test `now - start < window`.

## Model

| member | source | states |
|---|---|---|
| Helpers.KeyClicked | helpers.c:24-36 | Returns 1 exactly when bit `registry_bit` of the port byte is set, otherwise 0. On a 1 the entity's `last_updated_ms` becomes the `millis()` reading and no other field changes. On a 0 the entity is unchanged and no clock reading is taken. |
| Helpers.Poll | helpers.c:11-20 | The window loop returns 0 or 1. A 1 means every sample taken was high. A 0 means the last sample taken was the first low one, and nothing after it was read. Only the timestamp can change. |
| Helpers.PollSamplesInWindow | helpers.c:13-15 | Every sample was taken right after a test reading that was strictly below the wrapped deadline. Each pass takes one reading for the test, plus one inside `keyClicked` after a high sample. |
| Helpers.PollClosingReading | helpers.c:13-20 | A 1 comes from the test reading that follows the last sample. That reading is the first one at or past the wrapped deadline. |
| Helpers.PollTimestamp | helpers.c:13-19 | The final `last_updated_ms` is the reading `keyClicked` took (line 32) after the last high sample. If no sample was high, the entity is unchanged. |
| Helpers.PollAfterHighs | helpers.c:13-19 | After k in-window high passes, the loop is in the same state as a loop started k passes later with the entity stamped by the last of them. |
| Helpers.PollHighWindowGivesOne | helpers.c:13-20 | Completeness for a 1: k in-window high samples followed by a test reading at or past the deadline give 1 after exactly k samples. |
| Helpers.PollLowInWindowGivesZero | helpers.c:13-18 | Completeness for a 0: k in-window high samples followed by an in-window low sample give 0 right after that sample. |
| Helpers.DebounceKey | helpers.c:5-21 | `debounceKey` returns 0 or 1. Every sample was taken while `(start + debounce_ms) mod 2^32 > now`. A 1 means all samples were high and the next reading reached the deadline. A 0 means the last sample was the first low one, after which it stops. Only `last_updated_ms` changes, to the reading after the last high sample. |
| Helpers.IdentifyLongPress | helpers.c:61-79 | The same guarantees as `DebounceKey`, with `(start + long_press_trigger_ms) mod 2^32` as the deadline. |
| Helpers.DebounceLowInWindowGivesZero | helpers.c:11-18 | The bounce case: k high samples and then a low one, all inside the window, make `debounceKey` return 0 right after the low sample. |
| Helpers.DebounceHighWindowGivesOne | helpers.c:11-20 | The full-window case: k high samples inside the window followed by a reading at or past `start + debounce_ms` make `debounceKey` return 1. |
| Helpers.LongPressLowInWindowGivesZero | helpers.c:69-76 | The bounce case for `identifyLongPress`, over `long_press_trigger_ms`. |
| Helpers.LongPressHighWindowGivesOne | helpers.c:69-78 | The held-long-enough case for `identifyLongPress`: it returns 1. |
| Helpers.PollIgnoresThresholds | helpers.c:13-19 | The source re-reads `debounce_ms` on every pass, and `long_press_trigger_ms` at line 71. `keyClicked` writes only `last_updated_ms` (line 32), so the threshold stays constant and computing the deadline once is equivalent. Entities that agree on the bit and the timestamp get the same verdict after the same samples and end with the same timestamp. |
| Helpers.LongPressIsDebounceWithItsThreshold | helpers.c:61-79 | `identifyLongPress(key)` gives the same verdict, sample count and timestamp as `debounceKey` on `key` with `debounce_ms := long_press_trigger_ms`. |
| Helpers.ZeroDebounceSkipsSampling | helpers.c:11-13 | With `debounce_ms == 0` and no clock wrap since `start`, the result is 1 after zero samples and the entity, timestamp included, is unchanged. |
| Helpers.WrappedDeadlineSkipsSampling | helpers.c:11-13 | If `start + debounce_ms` overflows 2^32, any first reading at or above the wrapped sum ends the loop at once: the result is 1 with no sample taken. |
| Helpers.WrittenTestIsWrapSafeWithoutOverflow | helpers.c:13 | With no overflow of `start + window` and no clock wrap, the written test `start + window > now` equals the wrap-safe `now - start < window`. |
| Helpers.WrappedDeadlineReportsPressOnLowPin | helpers.c:11-20 | A concrete case: a 50 ms window armed 16 ms before the wrap, with no time elapsed and a low pin. The wrap-safe test says the window is still open, but the routine reports a press without sampling. |
| Helpers.DigitalWrite | helpers.c:91-105 | The port byte is HIGH (0xFF) or LOW (0x00). Every one of its 8 bits is 1 exactly when `val > 0`. |
| Helpers.DeactivateEntity | helpers.c:118-125 | Bit `registry_bit` of the direction register is cleared and every other bit keeps its value. The entity record is not written. |
| Helpers.ReactivateEntity | helpers.c:128-135 | Bit `registry_bit` of the direction register is set and every other bit keeps its value. The entity record is not written. |
| Helpers.EntityTogglesIdempotent | helpers.c:124-134 | Clearing twice is the same as clearing once, and setting twice is the same as setting once. Setting then clearing a clear bit restores the register, and clearing then setting a set bit restores it too. |
| Helpers.ConvertRangeExact | helpers.c:39-58 | For `rmin <= v`, `rmin < rmax` and `omin <= omax`, when the product does not overflow and the sum fits a byte, the 32-bit computation equals `(v - rmin) * (omax - omin) / (rmax - rmin) + omin` over unbounded integers. |
| Helpers.ConvertRangeInRange | helpers.c:54-57 | For `rmin <= v <= rmax`, `omin <= omax <= 255` and a product with no 32-bit overflow: the result is in `[omin, omax]`, equals `omin` at `v == rmin` and equals `omax` at `v == rmax`. |
| Helpers.ConvertRangeBelowRangeWraps | helpers.c:54-57 | Below the reference range the unsigned difference wraps instead of clamping: `convert_range(0, 10, 20, 0, 100) == 53`. |
| Timer.Tick | timer.c:4-11 | One interrupt increments `timer2_ms` by one, wrapping from 2^32-1 to 0, and sets `timer2_ctc_match` to 1. These two globals are the whole state. |
| Timer.TicksAdvanceCounter | timer.c:9-10 | After n ticks the counter is `(ms + n) mod 2^32`. The flag is 1 if n > 0, and zero ticks change nothing. |
| Timer.MillisCountsTicksFromBoot | timer.c:99-120 | From the zeroed boot state, `millis()` after n ticks returns `n mod 2^32`. |
| Timer.MillisMonotoneWithoutWrap | timer.c:112-119 | Two `millis()` readings separated only by n ticks that do not wrap differ by exactly n, so the later one is never smaller. |
| Timer.CompareValue | timer.c:26 | OCR2A is 255 for `cpu_clk < 1 024 000`, because the unsigned subtraction underflows. Otherwise it is `(cpu_clk / 1 024 000 - 1) mod 256`, which is just `cpu_clk / 1 024 000 - 1` while the quotient is at most 256. The two truncating divisions act as one division by 1 024 000. |
| Timer.CompareValueAt16MHz | timer.c:26 | At 16 000 000 Hz the compare value is 14. |
| Timer.CompareValueTruncates | timer.c:26 | The 8-bit store keeps only the low byte: 307 200 000 Hz gives 299 mod 256 = 43. |
| Timer.SimpleRamp | timer.c:78-96 | Each call returns the new `count`. That count is the old one plus or minus 1 and never wraps past 0 or 255. Afterwards `direction == 1` implies `count >= 1`, and `direction == 0` implies `count <= 254`. At 0 the ramp turns up and at 255 it turns down. In between, the direction is kept. |
| Timer.RampAfterClosedForm | timer.c:85-95 | Starting from zeroed statics, the statics after n calls depend only on `n mod 510`. They are `(m, 1)` for phases m in 1..255, `(510 - m, 0)` for phases 256..509, and `(0, 0)` at phase 0. |
| Timer.RampSequence | timer.c:78-96 | Starting from zeroed statics, call n+1 returns `Triangle(n)`, giving 1, 2, ..., 255, 254, ..., 0. The statics repeat with period 510. |
| Serial.SplitDivisor | serial.c:20-21 | UBRR0L is the divisor mod 256. For a divisor below 65536, `UBRR0H * 256 + UBRR0L` reconstructs it. |
| Serial.DivisorAtBoardSettings | serial.h:9-11 | With 16 MHz and 38 400 baud, UBRR is 25: UBRR0H gets 0 and UBRR0L gets 25. |
| Serial.UartGetchar | serial.c:75-86 | Returns 0xFF (the `-1` sentinel) when the RXC0 bit of UCSR0A is clear, otherwise the data byte. |
| Serial.LineLength | serial.c:109-121 | The stored line length is at most the limit and at most the number of received bytes. No byte before it ends a line, and unless the limit was reached, the byte at it does. |
| Serial.LineLengthUnique | serial.c:109-121 | Those facts determine the line length: no other count satisfies them. |
| Serial.UartGetline | serial.c:88-126 | For `size >= 1`: it stores `count <= size-1` bytes, namely the received bytes before the first CR, LF or byte below 1 as a `char` (0, the 0xFF sentinel, anything from 0x80 up). The stopping byte is not stored. It writes `'\0'` at index `count` and leaves every byte beyond that untouched. |
| Serial.UartPutstr | serial.c:57-73 | Emits the bytes of `str` up to, but not including, the first byte that is not positive as a `char`. CR LF follows, because WIN_ENDL is defined. |
| Serial.UartEcho | serial.c:128-134 | The output is the received line (at most 254 bytes, cut at the first line-ending byte) followed by CR LF. This is `putstr(getline(input, 255))`. |

## Left out

- Interrupt concurrency and `ATOMIC_BLOCK` (timer.c:115, serial.c:107): the tick is a discrete step and `millis()` is a plain read. Freedom from torn reads is a hardware and compiler property.
- Real elapsed time: the busy-wait loops read injected traces. When a trace ends before the loop would stop, the model answers `OutOfTrace`, whereas the firmware would keep spinning.
- Tick-period accuracy: a compare value of 14 gives 0.96 ms per tick. That is a wall-clock matter, not logic.
- Helpers.ConvertRange: has no contract of its own. Its behaviour is stated by `Helpers.ConvertRangeExact`, `Helpers.ConvertRangeInRange` and `Helpers.ConvertRangeBelowRangeWraps`.
- Timer.Millis: has no contract of its own. As a pure read of the model state it cannot change the counter or the flag, and its value is stated by `Timer.MillisCountsTicksFromBoot`.
- Register setup with no logic is not modelled: `timer0_init`, the TCCR2A/TCCR2B/TIMSK2 writes of `timer2_init`, `initAnalogDigitalConversion`, `analogWrite` (a plain byte store) and the UCSR0B enable bits of `uart_init`.
- `serial_write_ready` and the wait loop in `uart_putchar` are not modelled: emitting a byte is appending it to the output list.
- `_delay_us(500)` and the drain loop `while(serial_available());` in `uart_getline` are not modelled. Both leave the buffer as it is. The drain loop never reads UDR0, so on hardware it spins for as long as another byte is pending. That blocking is not modelled.
- The `state` enum of entity.h is not modelled, because no modelled code uses it.
- `is_active` is never written by the code, and the model does not write it either.
- `registry_bit` is never range-checked by the code. The model requires `registryBit < 8` instead.
- The RXC0 bit position (7) comes from the ATmega328P device header, which is not part of this model.
- Serial.UartPutstr: reading past the end of the C string is not modelled. The model requires a byte that is not positive as a `char` somewhere in `str`.
- Serial.UartGetline: the C `int size` (16 bits on AVR) is not bounded in the model. Sizes below 1 are excluded because the terminator store would fall outside the buffer.
