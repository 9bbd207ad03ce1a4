/** timer.c: the Timer2 compare-match tick, `millis()`, the OCR2A compare
    value and the `simple_ramp` triangle wave. */
module Timer {
  import opened Words

  /** The two globals of timer.h that the interrupt writes. */
  datatype Timebase = Timebase(ms: uint32, ctcMatch: uint8)

  /** Both globals are zero at boot. */
  const BOOT: Timebase := Timebase(0, 0)

  /** One run of the `TIMER2_COMPA_vect` handler. */
  function Tick(t: Timebase): (t': Timebase)
    ensures t.ms < MAX_UINT32 ==> t'.ms == t.ms + 1
    ensures t.ms == MAX_UINT32 ==> t'.ms == 0
    ensures t'.ctcMatch == 1
  {
    Timebase(Add32(t.ms, 1), 1)
  }

  /** `n` handler runs in a row. */
  function Ticks(t: Timebase, n: nat): Timebase {
    if n == 0 then t else Tick(Ticks(t, n - 1))
  }

  /** `millis()`: the counter as it stands; reading changes no state. */
  function Millis(t: Timebase): uint32 {
    t.ms
  }

  /** After `n` ticks the counter has advanced by `n` modulo 2^32, the match
      flag is raised if any tick happened, and zero ticks change nothing. */
  lemma {:induction false} TicksAdvanceCounter(t: Timebase, n: nat)
    ensures Ticks(t, n).ms == (t.ms + n) % WORD_MODULUS
    ensures n > 0 ==> Ticks(t, n).ctcMatch == 1
    ensures n == 0 ==> Ticks(t, n) == t
  {
    if n > 0 {
      TicksAdvanceCounter(t, n - 1);
      ModSucc(t.ms + n - 1);
    }
  }

  /** Counted from boot, `millis()` returns the number of ticks so far,
      modulo 2^32. */
  lemma MillisCountsTicksFromBoot(n: nat)
    ensures Millis(Ticks(BOOT, n)) == n % WORD_MODULUS
  {
    TicksAdvanceCounter(BOOT, n);
  }

  /** Two `millis()` readings separated only by ticks that do not wrap the
      counter differ by the number of ticks, so the later is never smaller. */
  lemma MillisMonotoneWithoutWrap(t: Timebase, n: nat)
    requires t.ms + n < WORD_MODULUS
    ensures Millis(Ticks(t, n)) == Millis(t) + n
    ensures Millis(Ticks(t, n)) >= Millis(t)
  {
    TicksAdvanceCounter(t, n);
  }

  /** Prescaler times ticks per second: the compare divisor of `timer2_init`. */
  const TICK_DIVISOR: int := 1024 * 1000

  /** Two truncating divisions in a row divide by the product. */
  lemma DivideTwice(x: nat)
    ensures x / 1024 / 1000 == x / TICK_DIVISOR
  {
    var q := x / 1024 / 1000;
    assert TICK_DIVISOR * q <= x < TICK_DIVISOR * q + TICK_DIVISOR;
    QuotientUnique(x, TICK_DIVISOR, q);
  }

  /** The byte `timer2_init(cpu_clk)` stores to OCR2A:
      `cpu_clk / 1024 / 1000 - 1` in `uint32_t`, truncated to 8 bits. Below
      1 024 000 Hz the subtraction underflows and the stored byte is 255. */
  function CompareValue(cpuClk: uint32): (ocr: uint8)
    ensures cpuClk < TICK_DIVISOR ==> ocr == 255
    ensures TICK_DIVISOR <= cpuClk ==> ocr == (cpuClk / TICK_DIVISOR - 1) % BYTE_MODULUS
    ensures TICK_DIVISOR <= cpuClk && cpuClk / TICK_DIVISOR <= 256 ==> ocr + 1 == cpuClk / TICK_DIVISOR
  {
    DivideTwice(cpuClk);
    Low8(Sub32(cpuClk / 1024 / 1000, 1))
  }

  /** At the board's 16 MHz clock the compare value is 14. */
  lemma CompareValueAt16MHz()
    ensures CompareValue(16_000_000) == 14
  {
  }

  /** A quotient above 256 keeps only its low byte: 307.2 MHz gives
      `299 mod 256 == 43`. */
  lemma CompareValueTruncates()
    ensures CompareValue(307_200_000) == 43
  {
  }

  /** The two `static uint8_t` variables of `simple_ramp`. */
  datatype Ramp = Ramp(count: uint8, direction: uint8)

  /** Static storage starts zeroed. */
  const RAMP_START: Ramp := Ramp(0, 0)

  /** One `simple_ramp()` call: the value returned and the statics afterwards.
      `count++` / `count--` are `uint8_t` steps, written with their wrap. */
  function SimpleRamp(s: Ramp): (r: (uint8, Ramp))
    ensures r.0 == r.1.count
    // one step up or down, never across 0 or 255
    ensures r.1.count == s.count + 1 || r.1.count == s.count - 1
    // the direction matches the step just taken
    ensures r.1.direction == 1 ==> r.1.count >= 1
    ensures r.1.direction == 0 ==> r.1.count <= 254
    ensures s.count == 0 ==> r.1 == Ramp(1, 1)
    ensures s.count == 255 ==> r.1 == Ramp(254, 0)
    ensures 0 < s.count < 255 ==> r.1.direction == s.direction
  {
    var direction: uint8 := if s.count == 0 then 1 else if s.count == 255 then 0 else s.direction;
    var count: uint8 := if direction != 0 then (s.count + 1) % BYTE_MODULUS else (s.count - 1) % BYTE_MODULUS;
    (count, Ramp(count, direction))
  }

  /** The statics after `n` calls from boot. */
  function RampAfter(n: nat): Ramp {
    if n == 0 then RAMP_START else SimpleRamp(RampAfter(n - 1)).1
  }

  /** The triangle wave 1, 2, ..., 255, 254, ..., 0 of period 510. */
  function Triangle(n: nat): uint8 {
    var k := n % 510;
    if k < 255 then k + 1 else 509 - k
  }

  /** The statics at phase `m` of the 510-call period: climbing with
      direction 1 through the first 255 calls, then falling with direction 0
      back to the zeroed start. */
  function RampPhase(m: nat): Ramp
    requires m < 510
  {
    if m == 0 then RAMP_START
    else if m <= 255 then Ramp(m, 1)
    else Ramp(510 - m, 0)
  }

  /** The phase after phase `m`. */
  function NextPhase(m: nat): (m': nat)
    requires m < 510
    ensures m' < 510
  {
    if m == 509 then 0 else m + 1
  }

  /** One call moves the statics one phase on. */
  lemma RampPhaseStep(m: nat)
    requires m < 510
    ensures SimpleRamp(RampPhase(m)).1 == RampPhase(NextPhase(m))
  {
  }

  /** Counting calls modulo 510 follows the phases. */
  lemma PhaseOfNextCall(n: nat)
    ensures (n + 1) % 510 == NextPhase(n % 510)
    ensures (n + 510) % 510 == n % 510
  {
  }

  /** The statics after `n` calls are those of phase `n % 510`. */
  lemma {:induction false} RampAfterClosedForm(n: nat)
    ensures RampAfter(n) == RampPhase(n % 510)
  {
    if n > 0 {
      var m := (n - 1) % 510;
      RampAfterClosedForm(n - 1);
      RampPhaseStep(m);
      PhaseOfNextCall(n - 1);
      assert RampAfter(n) == SimpleRamp(RampPhase(m)).1;
    }
  }

  /** Call number `n + 1` from boot returns `Triangle(n)`: the sequence is
      1, 2, ..., 255, 254, ..., 0 and then repeats with period 510. */
  lemma {:induction false} RampSequence(n: nat)
    ensures SimpleRamp(RampAfter(n)).0 == Triangle(n)
    ensures RampAfter(n + 510) == RampAfter(n)
  {
    RampAfterClosedForm(n + 1);
    RampAfterClosedForm(n + 510);
    RampAfterClosedForm(n);
    PhaseOfNextCall(n);
  }
}
