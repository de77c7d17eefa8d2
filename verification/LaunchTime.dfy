/** Launch times: when each frame of a cycle is to leave the network card, in 64-bit arithmetic. */
module LaunchTime {
  import opened Words

  /** tx_time_get_frame_duration: nanoseconds on a link of `speed` Mbit/s. */
  function FrameDuration(speed: nat, frameLength: nat): (d: nat)
    requires 0 < speed
  {
    (frameLength * 8 * 1000) / speed
  }

  /** The duration is the exact transmission time rounded down to whole nanoseconds. */
  lemma DurationRounding(speed: nat, frameLength: nat)
    requires 0 < speed
    ensures FrameDuration(speed, frameLength) * speed <= frameLength * 8000
    ensures frameLength * 8000 < (FrameDuration(speed, frameLength) + 1) * speed
    ensures FrameDuration(speed, frameLength) > 0 <==> frameLength * 8000 >= speed
  {
    var x := frameLength * 8000;
    assert frameLength * 8 * 1000 == x;
    DivModFacts(x, speed);
    var d := x / speed;
    assert (d + 1) * speed == d * speed + speed;
    if x < speed {
      DivModUnique(x, speed, 0, x);
    }
  }

  /** Start of the next cycle. Both the subtraction and the final sum may wrap around. */
  function BaseTime(now: nat, start: nat, cycle: nat): (base: nat)
    requires 0 < cycle
  {
    var pastCycles := U64(now - start) / cycle;
    U64((pastCycles + 1) * cycle + start)
  }

  /** tx_time_get_frame_tx_time with the clock reading as a parameter. */
  function TxTime(now: nat, start: nat, cycle: nat, offset: nat, seqNo: nat, n: nat, duration: nat): (t: nat)
    requires 0 < cycle && 0 < n
  {
    U64(BaseTime(now, start, cycle) + offset + (seqNo % n) * duration)
  }

  predicate InRange(now: nat, start: nat, cycle: nat)
  {
    0 < cycle && start < TWO64 && now + cycle < TWO64
  }

  lemma BaseTimeForm(now: nat, start: nat, cycle: nat)
    requires InRange(now, start, cycle)
    ensures BaseTime(now, start, cycle) == now + cycle - U64(now - start) % cycle
  {
    var d := U64(now - start);
    assert d == if now >= start then now - start else now - start + TWO64 by {
      WrapNegative(now - start);
    }
    DivModFacts(d, cycle);
    var past, r := d / cycle, d % cycle;
    assert (past + 1) * cycle == d - r + cycle;
    WrapAbove(now + cycle - r, (past + 1) * cycle + start);
  }

  lemma WrapNegative(x: int)
    requires 0 < x + TWO64 < 2 * TWO64
    ensures U64(x) == if x >= 0 then x else x + TWO64
  {
  }

  lemma WrapAbove(v: nat, x: nat)
    requires v < TWO64 && (x == v || x == v + TWO64)
    ensures U64(x) == v
  {
  }

  /** The base time lies in the cycle that follows the clock reading, even if the clock is before the start time. */
  lemma BaseTimeNext(now: nat, start: nat, cycle: nat)
    requires InRange(now, start, cycle)
    ensures now < BaseTime(now, start, cycle) <= now + cycle
  {
    BaseTimeForm(now, start, cycle);
  }

  /**
   The base time is on the cycle grid that starts at `start` if and only if the clock has reached the
   start time or the cycle time divides 2^64.
   */
  lemma BaseTimeAligned(now: nat, start: nat, cycle: nat)
    requires InRange(now, start, cycle)
    ensures (BaseTime(now, start, cycle) - start) % cycle == 0 <==> now >= start || TWO64 % cycle == 0
  {
    BaseTimeForm(now, start, cycle);
    var d := U64(now - start);
    WrapNegative(now - start);
    DivModFacts(d, cycle);
    var past, r := d / cycle, d % cycle;
    var multiple := (past + 1) * cycle;
    assert multiple == d - r + cycle;
    DivModUnique(multiple, cycle, past + 1, 0);
    if now >= start {
      assert BaseTime(now, start, cycle) - start == multiple;
    } else {
      assert BaseTime(now, start, cycle) - start == multiple - TWO64;
      SameRemainder(multiple, TWO64, cycle);
    }
  }

  /** For example, one nanosecond before the start time a 1 ms cycle gets a base time off the grid. */
  lemma ClockBeforeStart()
    ensures (BaseTime(0, 1, 1_000_000) - 1) % 1_000_000 != 0
  {
    BaseTimeAligned(0, 1, 1_000_000);
  }

  /** From the start time on it is the least instant of the grid that is still to come. */
  lemma BaseTimeLeast(now: nat, start: nat, cycle: nat, t: int)
    requires InRange(now, start, cycle) && now >= start
    requires t > now && (t - start) % cycle == 0
    ensures t >= BaseTime(now, start, cycle)
  {
    BaseTimeForm(now, start, cycle);
    BaseTimeAligned(now, start, cycle);
    var b := BaseTime(now, start, cycle);
    SameRemainder(t - start, b - start, cycle);
    if t < b {
      DivModUnique(b - t, cycle, 0, b - t);
      SameRemainder(b - start, t - start, cycle);
    }
  }

  lemma BaseTimeMonotone(now: nat, later: nat, start: nat, cycle: nat)
    requires InRange(later, start, cycle) && start <= now <= later
    ensures BaseTime(now, start, cycle) <= BaseTime(later, start, cycle)
  {
    BaseTimeNext(later, start, cycle);
    BaseTimeAligned(later, start, cycle);
    BaseTimeLeast(now, start, cycle, BaseTime(later, start, cycle));
  }

  // ---------- the frames of one cycle ----------

  /** Clock readings taken while the frames 0 .. n-1 of a cycle are prepared. */
  predicate Readings(clock: seq<nat>, start: nat, cycle: nat, offset: nat, duration: nat)
  {
    && 0 < cycle && start < TWO64
    && (forall i :: 0 <= i < |clock| ==> start <= clock[i] && clock[i] + cycle + offset + |clock| * duration < TWO64)
    && (forall i, j :: 0 <= i < j < |clock| ==> clock[i] <= clock[j])
  }

  /** Launch time of the i-th frame of the cycle whose first frame has number `first`. */
  function Launch(clock: seq<nat>, start: nat, cycle: nat, offset: nat, duration: nat, first: nat, i: nat): (t: nat)
    requires 0 < cycle && i < |clock|
  {
    TxTime(clock[i], start, cycle, offset, first + i, |clock|, duration)
  }

  lemma ProductGrows(i: nat, j: nat, d: nat)
    requires i < j
    ensures i * d + d <= j * d
  {
    MulNonNegative(j - i - 1, d);
    assert j * d - i * d == (j - i - 1) * d + d;
  }

  lemma LaunchForm(clock: seq<nat>, start: nat, cycle: nat, offset: nat, duration: nat, first: nat, i: nat)
    requires Readings(clock, start, cycle, offset, duration) && i < |clock| && first % |clock| == 0
    ensures InRange(clock[i], start, cycle)
    ensures Launch(clock, start, cycle, offset, duration, first, i)
         == BaseTime(clock[i], start, cycle) + offset + i * duration
  {
    var n := |clock|;
    DivModFacts(first, n);
    DivModUnique(first + i, n, first / n, i);
    ProductGrows(i, n, duration);
    MulNonNegative(n, duration);
    MulNonNegative(i, duration);
    BaseTimeNext(clock[i], start, cycle);
  }

  /** For any clock that does not run backwards the launch times of a cycle strictly increase. */
  lemma LaunchIncreasing(clock: seq<nat>, start: nat, cycle: nat, offset: nat, duration: nat, first: nat,
                         i: nat, j: nat)
    requires Readings(clock, start, cycle, offset, duration) && i < j < |clock| && first % |clock| == 0
    requires duration > 0
    ensures Launch(clock, start, cycle, offset, duration, first, i)
          < Launch(clock, start, cycle, offset, duration, first, j)
  {
    LaunchForm(clock, start, cycle, offset, duration, first, i);
    LaunchForm(clock, start, cycle, offset, duration, first, j);
    BaseTimeMonotone(clock[i], clock[j], start, cycle);
    ProductGrows(i, j, duration);
  }

  /** All readings fall into the same cycle, so they agree on the next one. */
  lemma SameCycleSameBase(now: nat, later: nat, start: nat, cycle: nat)
    requires InRange(now, start, cycle) && InRange(later, start, cycle) && start <= now && start <= later
    requires (now - start) / cycle == (later - start) / cycle
    ensures BaseTime(now, start, cycle) == BaseTime(later, start, cycle)
  {
  }

  /**
   If the frames fit behind the offset and the readings fall into one cycle, every transmission window
   lies inside the next cycle and the windows do not overlap.
   */
  lemma WindowsFit(clock: seq<nat>, start: nat, cycle: nat, offset: nat, duration: nat, first: nat, i: nat)
    requires Readings(clock, start, cycle, offset, duration) && i < |clock| && first % |clock| == 0
    requires offset + |clock| * duration <= cycle
    requires forall j :: 0 <= j < |clock| ==> (clock[j] - start) / cycle == (clock[0] - start) / cycle
    ensures var base := BaseTime(clock[0], start, cycle);
      var t := Launch(clock, start, cycle, offset, duration, first, i);
      && base + offset <= t && t + duration <= base + cycle && (i == 0 ==> t == base + offset)
      && (i + 1 < |clock| ==> t + duration <= Launch(clock, start, cycle, offset, duration, first, i + 1))
  {
    LaunchForm(clock, start, cycle, offset, duration, first, i);
    LaunchForm(clock, start, cycle, offset, duration, first, 0);
    SameCycleSameBase(clock[i], clock[0], start, cycle);
    ProductGrows(i, |clock|, duration);
    MulNonNegative(i, duration);
    if i + 1 < |clock| {
      LaunchForm(clock, start, cycle, offset, duration, first, i + 1);
      SameCycleSameBase(clock[i + 1], clock[0], start, cycle);
      ProductGrows(i, i + 1, duration);
    }
  }
}
