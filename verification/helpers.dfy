/** helpers.c: pin sampling, the blocking debounce and long-press windows,
    port writes, direction-register toggles and range conversion.

    The hardware is replaced by injected values: `clock` is the sequence of
    values successive `millis()` calls return, `pins` the sequence of values
    successive reads of `*key->port` return, and register contents are passed
    in and returned as bytes. */
module Helpers {
  import opened Words
  import opened Bits
  import opened Entities

  /** HIGH and LOW of helpers.h */
  const HIGH: bv8 := 0xFF
  const LOW: bv8 := 0x00

  /** The outcome of one `keyClicked` call. `NoReading` stands for a call that
      needed a `millis()` reading the injected clock trace does not hold. */
  datatype Click = NoReading | Clicked(hit: uint8, key: Entity)

  /** `keyClicked(key)` given the port byte it reads and the clock readings
      `millis()` would return from now on; it takes a reading only when the
      entity's bit is set. */
  function KeyClicked(key: Entity, port: bv8, clock: seq<uint32>): (r: Click)
    requires key.registryBit < 8
    ensures r.NoReading? <==> IsSet(port, key.registryBit) && |clock| == 0
    ensures r.Clicked? ==> (r.hit == 1 <==> IsSet(port, key.registryBit))
    ensures r.Clicked? ==> r.hit == 0 || r.hit == 1
    ensures r.Clicked? && r.hit == 1 ==> r.key == key.(lastUpdatedMs := clock[0])
    ensures r.Clicked? && r.hit == 0 ==> r.key == key
  {
    MaskTestsBit(port, key.registryBit);
    if port & Mask(key.registryBit) != 0 then
      if |clock| == 0 then NoReading
      else Clicked(1, key.(lastUpdatedMs := clock[0]))
    else
      Clicked(0, key)
  }

  /** The outcome of a busy-wait window. `Decided` carries the routine's return
      value, the entity afterwards, and the index into `pins` just past the
      last sample taken. `OutOfTrace` means the injected traces ended while
      the firmware would still be looping. */
  datatype Window = OutOfTrace | Decided(pressed: uint8, key: Entity, samples: nat)

  /** The `millis()` reading the loop test takes before the `k`-th sample
      counted from `clock[c]`. Each pass takes one reading for the test and,
      after a high sample, one more inside `keyClicked`. */
  function TestReading(clock: seq<uint32>, c: nat, k: nat): uint32
    requires c + 2 * k < |clock|
  {
    clock[c + 2 * k]
  }

  /** The loop shared by `debounceKey` and `identifyLongPress`, from the
      `millis()` call at `clock[c]` and the port read at `pins[p]` on.
      `deadline` is the already wrapped `current_time + window`; the loop runs
      while `deadline > millis()`, compared as unsigned 32-bit values. */
  function Poll(deadline: uint32, key: Entity, clock: seq<uint32>, c: nat, pins: seq<bv8>, p: nat): (w: Window)
    requires key.registryBit < 8
    requires c <= |clock| && p <= |pins|
    decreases |clock| - c
    ensures w.Decided? ==> p <= w.samples <= |pins|
    ensures w.Decided? ==> w.pressed == 0 || w.pressed == 1
    // a 1 means every sample taken was high
    ensures w.Decided? && w.pressed == 1 ==>
              forall j | p <= j < w.samples :: IsSet(pins[j], key.registryBit)
    // a 0 means the last sample taken was the first low one
    ensures w.Decided? && w.pressed == 0 ==>
              p < w.samples
              && !IsSet(pins[w.samples - 1], key.registryBit)
              && (forall j | p <= j < w.samples - 1 :: IsSet(pins[j], key.registryBit))
    // only the timestamp may change
    ensures w.Decided? ==> w.key == key.(lastUpdatedMs := w.key.lastUpdatedMs)
  {
    if c == |clock| then OutOfTrace
    else if !(deadline > clock[c]) then Decided(1, key, p)
    else if p == |pins| then OutOfTrace
    else
      match KeyClicked(key, pins[p], clock[c + 1..])
      case NoReading => OutOfTrace
      case Clicked(hit, key') =>
        if hit == 0 then Decided(0, key', p + 1)
        else Poll(deadline, key', clock, c + 2, pins, p + 1)
  }

  /** One pass of the loop with an in-window test reading and a high sample:
      the entity is stamped with the next reading and the loop goes on two
      readings and one sample later. */
  lemma PollHighPass(deadline: uint32, key: Entity, clock: seq<uint32>, c: nat, pins: seq<bv8>, p: nat)
    requires key.registryBit < 8
    requires c + 2 <= |clock| && p < |pins|
    requires deadline > clock[c] && IsSet(pins[p], key.registryBit)
    ensures Poll(deadline, key, clock, c, pins, p)
            == Poll(deadline, key.(lastUpdatedMs := clock[c + 1]), clock, c + 2, pins, p + 1)
  {
    assert clock[c + 1..][0] == clock[c + 1];
  }

  /** Every sample was taken after a test reading inside the window. */
  lemma {:induction false} PollSamplesInWindow(deadline: uint32, key: Entity, clock: seq<uint32>, c: nat,
                                               pins: seq<bv8>, p: nat)
    requires key.registryBit < 8
    requires c <= |clock| && p <= |pins|
    decreases |clock| - c
    ensures var w := Poll(deadline, key, clock, c, pins, p);
            w.Decided? ==>
              forall k | 0 <= k < w.samples - p :: c + 2 * k < |clock| && deadline > TestReading(clock, c, k)
  {
    if c < |clock| && deadline > clock[c] && p < |pins| && IsSet(pins[p], key.registryBit) && c + 1 < |clock| {
      PollHighPass(deadline, key, clock, c, pins, p);
      var key', c' := key.(lastUpdatedMs := clock[c + 1]), c + 2;
      PollSamplesInWindow(deadline, key', clock, c', pins, p + 1);
      var w := Poll(deadline, key', clock, c', pins, p + 1);
      if w.Decided? {
        forall k | 0 <= k < w.samples - p
          ensures c + 2 * k < |clock| && deadline > TestReading(clock, c, k)
        {
          if k > 0 {
            assert c' + 2 * (k - 1) < |clock| && deadline > TestReading(clock, c', k - 1);
            assert TestReading(clock, c, k) == TestReading(clock, c', k - 1);
          }
        }
      }
    }
  }

  /** A 1 comes from the test reading after the last sample: the first one at
      or past the deadline. */
  lemma {:induction false} PollClosingReading(deadline: uint32, key: Entity, clock: seq<uint32>, c: nat,
                                              pins: seq<bv8>, p: nat)
    requires key.registryBit < 8
    requires c <= |clock| && p <= |pins|
    decreases |clock| - c
    ensures var w := Poll(deadline, key, clock, c, pins, p);
            w.Decided? && w.pressed == 1 ==>
              c + 2 * (w.samples - p) < |clock| && deadline <= TestReading(clock, c, w.samples - p)
  {
    if c < |clock| && deadline > clock[c] && p < |pins| && IsSet(pins[p], key.registryBit) && c + 1 < |clock| {
      PollHighPass(deadline, key, clock, c, pins, p);
      var key', c' := key.(lastUpdatedMs := clock[c + 1]), c + 2;
      PollClosingReading(deadline, key', clock, c', pins, p + 1);
      var w := Poll(deadline, key', clock, c', pins, p + 1);
      if w.Decided? && w.pressed == 1 {
        assert TestReading(clock, c, w.samples - p) == TestReading(clock, c', w.samples - (p + 1));
      }
    }
  }

  /** The timestamp the loop leaves: the reading `keyClicked` took after the
      last high sample, or the old one when no sample was high. */
  lemma {:induction false} PollTimestamp(deadline: uint32, key: Entity, clock: seq<uint32>, c: nat, pins: seq<bv8>, p: nat)
    requires key.registryBit < 8
    requires c <= |clock| && p <= |pins|
    decreases |clock| - c
    ensures var w := Poll(deadline, key, clock, c, pins, p);
            w.Decided? && w.pressed == 1 && w.samples > p ==>
              c + 2 * (w.samples - p) - 1 < |clock|
              && w.key.lastUpdatedMs == clock[c + 2 * (w.samples - p) - 1]
    ensures var w := Poll(deadline, key, clock, c, pins, p);
            w.Decided? && w.pressed == 0 && w.samples > p + 1 ==>
              c + 2 * (w.samples - p) - 3 < |clock|
              && w.key.lastUpdatedMs == clock[c + 2 * (w.samples - p) - 3]
    ensures var w := Poll(deadline, key, clock, c, pins, p);
            w.Decided? && (w.samples == p || (w.pressed == 0 && w.samples == p + 1)) ==> w.key == key
  {
    if c < |clock| && deadline > clock[c] && p < |pins| && IsSet(pins[p], key.registryBit) && c + 1 < |clock| {
      PollHighPass(deadline, key, clock, c, pins, p);
      PollTimestamp(deadline, key.(lastUpdatedMs := clock[c + 1]), clock, c + 2, pins, p + 1);
    }
  }

  /** `k` passes of the loop from `clock[c]` and `pins[p]` on in which the
      test reading is inside the window and the sample is high, with the
      reading `keyClicked` takes after each of them present. */
  ghost predicate HighsInWindow(deadline: uint32, bit: BitIndex, clock: seq<uint32>, c: nat,
                                pins: seq<bv8>, p: nat, k: nat)
  {
    && c + 2 * k <= |clock|
    && p + k <= |pins|
    && forall i | 0 <= i < k :: deadline > TestReading(clock, c, i) && IsSet(pins[p + i], bit)
  }

  /** The entity after `k` high samples from `clock[c]` on: stamped with the
      reading taken after the last of them. */
  function AfterHighs(key: Entity, clock: seq<uint32>, c: nat, k: nat): Entity
    requires c + 2 * k <= |clock|
  {
    if k == 0 then key else key.(lastUpdatedMs := clock[c + 2 * k - 1])
  }

  /** After `k` in-window high passes the loop is where it would be had it
      started `k` passes later with the entity stamped by the last of them. */
  lemma {:induction false} PollAfterHighs(deadline: uint32, key: Entity, clock: seq<uint32>, c: nat,
                                          pins: seq<bv8>, p: nat, k: nat)
    requires key.registryBit < 8
    requires HighsInWindow(deadline, key.registryBit, clock, c, pins, p, k)
    decreases k
    ensures Poll(deadline, key, clock, c, pins, p)
            == Poll(deadline, AfterHighs(key, clock, c, k), clock, c + 2 * k, pins, p + k)
  {
    if k > 0 {
      assert deadline > TestReading(clock, c, 0) && IsSet(pins[p + 0], key.registryBit);
      PollHighPass(deadline, key, clock, c, pins, p);
      var key' := key.(lastUpdatedMs := clock[c + 1]);
      HighsInWindowShift(deadline, key.registryBit, clock, c, pins, p, k);
      PollAfterHighs(deadline, key', clock, c + 2, pins, p + 1, k - 1);
      assert AfterHighs(key', clock, c + 2, k - 1) == AfterHighs(key, clock, c, k);
    }
  }

  /** Dropping the first of `k` in-window high passes leaves `k - 1` of them. */
  lemma HighsInWindowShift(deadline: uint32, bit: BitIndex, clock: seq<uint32>, c: nat,
                           pins: seq<bv8>, p: nat, k: nat)
    requires k > 0 && HighsInWindow(deadline, bit, clock, c, pins, p, k)
    ensures HighsInWindow(deadline, bit, clock, c + 2, pins, p + 1, k - 1)
  {
    var c', p' := c + 2, p + 1;
    forall i | 0 <= i < k - 1
      ensures deadline > TestReading(clock, c', i) && IsSet(pins[p' + i], bit)
    {
      var j := i + 1;
      assert deadline > TestReading(clock, c, j) && IsSet(pins[p + j], bit);
      assert c' + 2 * i == c + 2 * j && p' + i == p + j;
    }
    assert c' + 2 * (k - 1) <= |clock| && p' + (k - 1) <= |pins|;
    assert HighsInWindow(deadline, bit, clock, c', pins, p', k - 1);
  }

  /** High samples up to a test reading at or past the deadline: the loop
      answers 1 after exactly those samples. */
  lemma PollHighWindowGivesOne(deadline: uint32, key: Entity, clock: seq<uint32>, c: nat,
                               pins: seq<bv8>, p: nat, k: nat)
    requires key.registryBit < 8
    requires HighsInWindow(deadline, key.registryBit, clock, c, pins, p, k)
    requires c + 2 * k < |clock| && deadline <= clock[c + 2 * k]
    ensures Poll(deadline, key, clock, c, pins, p) == Decided(1, AfterHighs(key, clock, c, k), p + k)
  {
    PollAfterHighs(deadline, key, clock, c, pins, p, k);
  }

  /** High samples and then a low one while the window is still open: the
      loop answers 0 right after the low sample. */
  lemma PollLowInWindowGivesZero(deadline: uint32, key: Entity, clock: seq<uint32>, c: nat,
                                 pins: seq<bv8>, p: nat, k: nat)
    requires key.registryBit < 8
    requires HighsInWindow(deadline, key.registryBit, clock, c, pins, p, k)
    requires c + 2 * k < |clock| && deadline > clock[c + 2 * k]
    requires p + k < |pins| && !IsSet(pins[p + k], key.registryBit)
    ensures Poll(deadline, key, clock, c, pins, p) == Decided(0, AfterHighs(key, clock, c, k), p + k + 1)
  {
    PollAfterHighs(deadline, key, clock, c, pins, p, k);
  }

  /** `debounceKey(key)`: `start` is its first `millis()` reading, `clock` the later ones. */
  function DebounceKey(key: Entity, start: uint32, clock: seq<uint32>, pins: seq<bv8>): (w: Window)
    requires key.registryBit < 8
    ensures w.Decided? ==> w.pressed == 0 || w.pressed == 1
    ensures w.Decided? ==> w.samples <= |pins|
    // every sample was taken while `(start + debounce_ms) mod 2^32 > millis()`
    ensures w.Decided? ==>
              forall k | 0 <= k < w.samples :: 2 * k < |clock|
                && Add32(start, key.debounceMs) > TestReading(clock, 0, k)
    // 1: all samples high, then the first reading at or past the deadline
    ensures w.Decided? && w.pressed == 1 ==>
              (forall j | 0 <= j < w.samples :: IsSet(pins[j], key.registryBit))
              && 2 * w.samples < |clock|
              && Add32(start, key.debounceMs) <= TestReading(clock, 0, w.samples)
    // 0: the last sample was the first low one
    ensures w.Decided? && w.pressed == 0 ==>
              0 < w.samples
              && !IsSet(pins[w.samples - 1], key.registryBit)
              && (forall j | 0 <= j < w.samples - 1 :: IsSet(pins[j], key.registryBit))
    // only `last_updated_ms` changes: to the reading after the last high sample
    ensures w.Decided? ==> w.key == key.(lastUpdatedMs := w.key.lastUpdatedMs)
    ensures w.Decided? && w.pressed == 1 && w.samples > 0 ==>
              2 * w.samples - 1 < |clock| && w.key.lastUpdatedMs == clock[2 * w.samples - 1]
    ensures w.Decided? && w.pressed == 0 && w.samples > 1 ==>
              2 * w.samples - 3 < |clock| && w.key.lastUpdatedMs == clock[2 * w.samples - 3]
    ensures w.Decided? && (w.samples == 0 || (w.pressed == 0 && w.samples == 1)) ==> w.key == key
  {
    var deadline := Add32(start, key.debounceMs);
    PollSamplesInWindow(deadline, key, clock, 0, pins, 0);
    PollClosingReading(deadline, key, clock, 0, pins, 0);
    PollTimestamp(deadline, key, clock, 0, pins, 0);
    Poll(deadline, key, clock, 0, pins, 0)
  }

  /** `identifyLongPress(key)`: the same loop over `long_press_trigger_ms`. */
  function IdentifyLongPress(key: Entity, start: uint32, clock: seq<uint32>, pins: seq<bv8>): (w: Window)
    requires key.registryBit < 8
    ensures w.Decided? ==> w.pressed == 0 || w.pressed == 1
    ensures w.Decided? ==> w.samples <= |pins|
    // every sample was taken while `(start + long_press_trigger_ms) mod 2^32 > millis()`
    ensures w.Decided? ==>
              forall k | 0 <= k < w.samples :: 2 * k < |clock|
                && Add32(start, key.longPressTriggerMs) > TestReading(clock, 0, k)
    // 1: all samples high, then the first reading at or past the deadline
    ensures w.Decided? && w.pressed == 1 ==>
              (forall j | 0 <= j < w.samples :: IsSet(pins[j], key.registryBit))
              && 2 * w.samples < |clock|
              && Add32(start, key.longPressTriggerMs) <= TestReading(clock, 0, w.samples)
    // 0: the last sample was the first low one
    ensures w.Decided? && w.pressed == 0 ==>
              0 < w.samples
              && !IsSet(pins[w.samples - 1], key.registryBit)
              && (forall j | 0 <= j < w.samples - 1 :: IsSet(pins[j], key.registryBit))
    // only `last_updated_ms` changes: to the reading after the last high sample
    ensures w.Decided? ==> w.key == key.(lastUpdatedMs := w.key.lastUpdatedMs)
    ensures w.Decided? && w.pressed == 1 && w.samples > 0 ==>
              2 * w.samples - 1 < |clock| && w.key.lastUpdatedMs == clock[2 * w.samples - 1]
    ensures w.Decided? && w.pressed == 0 && w.samples > 1 ==>
              2 * w.samples - 3 < |clock| && w.key.lastUpdatedMs == clock[2 * w.samples - 3]
    ensures w.Decided? && (w.samples == 0 || (w.pressed == 0 && w.samples == 1)) ==> w.key == key
  {
    var deadline := Add32(start, key.longPressTriggerMs);
    PollSamplesInWindow(deadline, key, clock, 0, pins, 0);
    PollClosingReading(deadline, key, clock, 0, pins, 0);
    PollTimestamp(deadline, key, clock, 0, pins, 0);
    Poll(deadline, key, clock, 0, pins, 0)
  }

  /** The bounce case of `debounceKey`: `k` high samples and then a low one,
      all inside the window, give 0 right after the low sample. */
  lemma DebounceLowInWindowGivesZero(key: Entity, start: uint32, clock: seq<uint32>, pins: seq<bv8>, k: nat)
    requires key.registryBit < 8
    requires HighsInWindow(Add32(start, key.debounceMs), key.registryBit, clock, 0, pins, 0, k)
    requires 2 * k < |clock| && Add32(start, key.debounceMs) > clock[2 * k]
    requires k < |pins| && !IsSet(pins[k], key.registryBit)
    ensures DebounceKey(key, start, clock, pins) == Decided(0, AfterHighs(key, clock, 0, k), k + 1)
  {
    PollLowInWindowGivesZero(Add32(start, key.debounceMs), key, clock, 0, pins, 0, k);
  }

  /** The full-window case of `debounceKey`: `k` high samples inside the
      window and then a reading that closes it give 1. */
  lemma DebounceHighWindowGivesOne(key: Entity, start: uint32, clock: seq<uint32>, pins: seq<bv8>, k: nat)
    requires key.registryBit < 8
    requires HighsInWindow(Add32(start, key.debounceMs), key.registryBit, clock, 0, pins, 0, k)
    requires 2 * k < |clock| && Add32(start, key.debounceMs) <= clock[2 * k]
    ensures DebounceKey(key, start, clock, pins) == Decided(1, AfterHighs(key, clock, 0, k), k)
  {
    PollHighWindowGivesOne(Add32(start, key.debounceMs), key, clock, 0, pins, 0, k);
  }

  /** The bounce case of `identifyLongPress`. */
  lemma LongPressLowInWindowGivesZero(key: Entity, start: uint32, clock: seq<uint32>, pins: seq<bv8>, k: nat)
    requires key.registryBit < 8
    requires HighsInWindow(Add32(start, key.longPressTriggerMs), key.registryBit, clock, 0, pins, 0, k)
    requires 2 * k < |clock| && Add32(start, key.longPressTriggerMs) > clock[2 * k]
    requires k < |pins| && !IsSet(pins[k], key.registryBit)
    ensures IdentifyLongPress(key, start, clock, pins) == Decided(0, AfterHighs(key, clock, 0, k), k + 1)
  {
    PollLowInWindowGivesZero(Add32(start, key.longPressTriggerMs), key, clock, 0, pins, 0, k);
  }

  /** The held-long-enough case of `identifyLongPress`. */
  lemma LongPressHighWindowGivesOne(key: Entity, start: uint32, clock: seq<uint32>, pins: seq<bv8>, k: nat)
    requires key.registryBit < 8
    requires HighsInWindow(Add32(start, key.longPressTriggerMs), key.registryBit, clock, 0, pins, 0, k)
    requires 2 * k < |clock| && Add32(start, key.longPressTriggerMs) <= clock[2 * k]
    ensures IdentifyLongPress(key, start, clock, pins) == Decided(1, AfterHighs(key, clock, 0, k), k)
  {
    PollHighWindowGivesOne(Add32(start, key.longPressTriggerMs), key, clock, 0, pins, 0, k);
  }

  /** The window loop reads neither threshold field: two entities that agree on
      the bit and the timestamp reach the same verdict after the same samples
      and leave the same timestamp. */
  lemma {:induction false} PollIgnoresThresholds(deadline: uint32, k1: Entity, k2: Entity,
                                                 clock: seq<uint32>, c: nat, pins: seq<bv8>, p: nat)
    requires k1.registryBit < 8
    requires k2.registryBit == k1.registryBit && k2.lastUpdatedMs == k1.lastUpdatedMs
    requires c <= |clock| && p <= |pins|
    decreases |clock| - c
    ensures Poll(deadline, k1, clock, c, pins, p).Decided? <==> Poll(deadline, k2, clock, c, pins, p).Decided?
    ensures Poll(deadline, k1, clock, c, pins, p).Decided? ==>
              && Poll(deadline, k1, clock, c, pins, p).pressed == Poll(deadline, k2, clock, c, pins, p).pressed
              && Poll(deadline, k1, clock, c, pins, p).samples == Poll(deadline, k2, clock, c, pins, p).samples
              && Poll(deadline, k1, clock, c, pins, p).key.lastUpdatedMs
                 == Poll(deadline, k2, clock, c, pins, p).key.lastUpdatedMs
  {
    if c == |clock| || !(deadline > clock[c]) || p == |pins| {
    } else {
      var r1 := KeyClicked(k1, pins[p], clock[c + 1..]);
      var r2 := KeyClicked(k2, pins[p], clock[c + 1..]);
      if r1.Clicked? && r1.hit == 1 {
        PollIgnoresThresholds(deadline, r1.key, r2.key, clock, c + 2, pins, p + 1);
      }
    }
  }

  /** `identifyLongPress` is `debounceKey` with `long_press_trigger_ms` in
      place of `debounce_ms`: over the same traces both give the same answer
      after the same samples and leave the same timestamp. */
  lemma LongPressIsDebounceWithItsThreshold(key: Entity, start: uint32, clock: seq<uint32>, pins: seq<bv8>)
    requires key.registryBit < 8
    ensures var lp := IdentifyLongPress(key, start, clock, pins);
            var db := DebounceKey(key.(debounceMs := key.longPressTriggerMs), start, clock, pins);
            && (lp.Decided? <==> db.Decided?)
            && (lp.Decided? ==> lp.pressed == db.pressed && lp.samples == db.samples
                                && lp.key.lastUpdatedMs == db.key.lastUpdatedMs)
  {
    PollIgnoresThresholds(Add32(start, key.longPressTriggerMs), key,
                          key.(debounceMs := key.longPressTriggerMs), clock, 0, pins, 0);
  }

  /** A zero debounce time with a clock that has not wrapped since `start`:
      the loop body never runs, so the routine answers 1 without calling
      `keyClicked`, and the entity (its timestamp included) is untouched. */
  lemma ZeroDebounceSkipsSampling(key: Entity, start: uint32, clock: seq<uint32>, pins: seq<bv8>)
    requires key.registryBit < 8 && key.debounceMs == 0
    requires |clock| > 0 && start <= clock[0]
    ensures DebounceKey(key, start, clock, pins) == Decided(1, key, 0)
  {
  }

  /** When `start + window` overflows 2^32 the wrapped deadline is small, and
      any reading at or above it ends the loop before the first sample: the
      routine answers 1 without looking at the pin. */
  lemma WrappedDeadlineSkipsSampling(key: Entity, start: uint32, clock: seq<uint32>, pins: seq<bv8>)
    requires key.registryBit < 8
    requires start + key.debounceMs >= WORD_MODULUS
    requires |clock| > 0 && clock[0] >= start + key.debounceMs - WORD_MODULUS
    ensures DebounceKey(key, start, clock, pins) == Decided(1, key, 0)
  {
  }

  /** A wrap-safe window test compares elapsed time: `now - start < window`. */
  predicate InWindowWrapSafe(start: uint32, window: uint32, now: uint32) {
    Sub32(now, start) < window
  }

  /** Without overflow of `start + window` and without a clock wrap since
      `start`, the written test `start + window > now` is the wrap-safe one. */
  lemma WrittenTestIsWrapSafeWithoutOverflow(start: uint32, window: uint32, now: uint32)
    requires start + window < WORD_MODULUS && start <= now
    ensures (Add32(start, window) > now) == InWindowWrapSafe(start, window, now)
  {
  }

  /** A concrete case of the overflow: 50 ms debounce armed 16 ms before the
      counter wraps, no time elapsed and the pin reading low. The written test
      ends the loop at once and reports a press; the wrap-safe test would have
      sampled the low pin. */
  lemma WrappedDeadlineReportsPressOnLowPin()
    ensures var key := Entity(3, 7, 50, 1000, 1);
            var start := 0xFFFF_FFF0;
            && !IsSet(0x00, 3)
            && InWindowWrapSafe(start, 50, start)
            && DebounceKey(key, start, [start], [0x00]) == Decided(1, key, 0)
  {
  }

  /** `digitalWrite(entity, val)`: the byte stored to the port. */
  function DigitalWrite(val: uint8): (port: bv8)
    ensures forall i: BitIndex :: IsSet(port, i) == (val > 0)
    ensures port == HIGH || port == LOW
  {
    if val > 0 then HIGH else LOW
  }

  /** `deactivate_entity(entity)`: the direction register byte afterwards.
      The record itself is not written, so `is_active` and every other field
      stay as they were. */
  function DeactivateEntity(entity: Entity, ddr: bv8): (ddr': bv8)
    requires entity.registryBit < 8
    ensures forall i: BitIndex ::
              IsSet(ddr', i) == (i != entity.registryBit && IsSet(ddr, i))
  {
    ddr & !Mask(entity.registryBit)
  }

  /** `reactivate_entity(entity)`: the direction register byte afterwards. */
  function ReactivateEntity(entity: Entity, ddr: bv8): (ddr': bv8)
    requires entity.registryBit < 8
    ensures forall i: BitIndex ::
              IsSet(ddr', i) == (i == entity.registryBit || IsSet(ddr, i))
  {
    ddr | Mask(entity.registryBit)
  }

  /** Both direction-register toggles are idempotent, and each undoes the
      other on the entity's bit while every other bit is left alone. */
  lemma EntityTogglesIdempotent(entity: Entity, ddr: bv8)
    requires entity.registryBit < 8
    ensures DeactivateEntity(entity, DeactivateEntity(entity, ddr)) == DeactivateEntity(entity, ddr)
    ensures ReactivateEntity(entity, ReactivateEntity(entity, ddr)) == ReactivateEntity(entity, ddr)
    ensures !IsSet(ddr, entity.registryBit) ==> DeactivateEntity(entity, ReactivateEntity(entity, ddr)) == ddr
    ensures IsSet(ddr, entity.registryBit) ==> ReactivateEntity(entity, DeactivateEntity(entity, ddr)) == ddr
  {
  }

  /** `convert_range(...)`: every step in `uint32_t` arithmetic, the result
      truncated to `uint8_t`. The division needs `rmax != rmin`. */
  function ConvertRange(v: uint32, rmin: uint32, rmax: uint32, omin: uint32, omax: uint32): (r: uint8)
    requires rmax != rmin
  {
    Low8(Add32(Mul32(Sub32(v, rmin), Sub32(omax, omin)) / Sub32(rmax, rmin), omin))
  }

  /** The scaled quotient `a * b / d` for `0 <= a <= d`: it lies in
      `0..b`, is 0 at `a == 0` and `b` at `a == d`. */
  lemma ScaledQuotientBounds(a: nat, b: nat, d: nat)
    requires 0 < d && a <= d
    ensures 0 <= a * b / d <= b
    ensures a == 0 ==> a * b / d == 0
    ensures a == d ==> a * b / d == b
  {
    MulNonNegative(a, b);
    MulNonNegative(d - a, b);
    assert a * b <= d * b;
    DivOfMultiple(d, b);
  }

  /** Without overflow of the product and with the sum still a byte,
      `convert_range` is the unbounded integer formula. */
  lemma ConvertRangeExact(v: uint32, rmin: uint32, rmax: uint32, omin: uint32, omax: uint32)
    requires rmin <= v && rmin < rmax && omin <= omax
    requires (v - rmin) * (omax - omin) < WORD_MODULUS
    requires (v - rmin) * (omax - omin) / (rmax - rmin) + omin < BYTE_MODULUS
    ensures ConvertRange(v, rmin, rmax, omin, omax) == (v - rmin) * (omax - omin) / (rmax - rmin) + omin
  {
    var a, b, d := v - rmin, omax - omin, rmax - rmin;
    MulNonNegative(a, b);
    var p := a * b;
    assert Mul32(Sub32(v, rmin), Sub32(omax, omin)) == p;
    var q := p / d;
    assert Add32(q, omin) == q + omin;
  }

  /** For an input inside its reference range, an output range inside a byte
      and a product that does not overflow, `convert_range` lies inside the
      output range and maps the ends of the reference range onto the ends of
      the output range. */
  lemma ConvertRangeInRange(v: uint32, rmin: uint32, rmax: uint32, omin: uint32, omax: uint32)
    requires rmin <= v <= rmax && rmin != rmax
    requires omin <= omax <= 255
    requires (v - rmin) * (omax - omin) < WORD_MODULUS
    ensures omin <= ConvertRange(v, rmin, rmax, omin, omax) <= omax
    ensures v == rmin ==> ConvertRange(v, rmin, rmax, omin, omax) == omin
    ensures v == rmax ==> ConvertRange(v, rmin, rmax, omin, omax) == omax
  {
    ScaledQuotientBounds(v - rmin, omax - omin, rmax - rmin);
    ConvertRangeExact(v, rmin, rmax, omin, omax);
  }

  /** Below the reference range the unsigned difference wraps instead of
      clamping: 0 in the range 10..20 mapped onto 0..100 gives 53. */
  lemma ConvertRangeBelowRangeWraps()
    ensures ConvertRange(0, 10, 20, 0, 100) == 53
  {
    assert Sub32(0, 10) == 0xFFFF_FFF6;
    assert Mul32(0xFFFF_FFF6, 100) == 0xFFFF_FC18;
    assert 0xFFFF_FC18 / 10 == 0x1999_9935;
    assert Add32(0x1999_9935, 0) == 0x1999_9935;
  }
}
