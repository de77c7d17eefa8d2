/**
 Time-triggered operation: both threads of a traffic class sleep until absolute instants that are one
 cycle apart, the Rx thread at one offset of the cycle and the Tx thread at a later one.
 */
module Schedule {
  import opened Words
  import Umem

  const NSEC_PER_SEC: nat := 1_000_000_000

  // ---------- timespec arithmetic ----------

  class Timespec {
    var sec: int
    var nsec: int

    ghost function Ns(): int
      reads this
    {
      sec * NSEC_PER_SEC + nsec
    }

    ghost predicate Normalized()
      reads this
    {
      0 <= nsec < NSEC_PER_SEC
    }

    /** ns_to_ts, for instants that are not negative. */
    constructor (ns: nat)
      ensures Ns() == ns && Normalized()
    {
      sec := ns / NSEC_PER_SEC;
      nsec := ns % NSEC_PER_SEC;
    }

    method IncrementPeriod(period: nat)
      modifies this
      ensures Ns() == old(Ns()) + period
      ensures old(Normalized()) ==> Normalized()
    {
      nsec := nsec + period;
      while nsec >= NSEC_PER_SEC
        invariant Ns() == old(Ns()) + period
        invariant old(Normalized()) ==> nsec >= 0
      {
        sec := sec + 1;
        nsec := nsec - NSEC_PER_SEC;
      }
    }
  }

  // ---------- wake times ----------

  datatype Timing = Timing(cycle: nat, startTime: nat, startOffset: nat, rxOffset: nat, txOffset: nat)

  /** The cycle time and offset checks of config_sanity_check. */
  predicate Checked(t: Timing)
  {
    0 < t.cycle && t.rxOffset <= t.cycle && t.txOffset <= t.cycle && t.rxOffset < t.txOffset
  }

  /** get_thread_start_time; without a configured start time it is whatever the clock shows. */
  function StartTime(t: Timing, baseOffset: nat, clock: nat): nat
  {
    if t.startTime != 0 then t.startTime + t.startOffset + baseOffset else clock
  }

  /**
   The k-th instant a thread sleeps until, as the thread computes it: by repeated increments. It is k + 1 cycles after
   the configured start time and both offsets, or after the clock reading if no start time is configured.
   */
  method WakeUp(t: Timing, baseOffset: nat, clock: nat, k: nat) returns (w: Timespec)
    ensures w.Ns() == (if t.startTime == 0 then clock else t.startTime + t.startOffset + baseOffset) + (k + 1) * t.cycle
    ensures w.Normalized()
  {
    w := new Timespec(StartTime(t, baseOffset, clock));
    for i := 0 to k + 1
      invariant fresh(w) && w.Normalized()
      invariant w.Ns() == StartTime(t, baseOffset, clock) + i * t.cycle
    {
      w.IncrementPeriod(t.cycle);
      assert (i + 1) * t.cycle == i * t.cycle + t.cycle;
    }
  }

  function RxWake(t: Timing, k: nat): nat
    requires t.startTime != 0
  {
    StartTime(t, t.rxOffset, 0) + (k + 1) * t.cycle
  }

  function TxWake(t: Timing, k: nat): nat
    requires t.startTime != 0
  {
    StartTime(t, t.txOffset, 0) + (k + 1) * t.cycle
  }

  /** The instants of both threads, counted from the configured start time. */
  lemma WakeInstants(t: Timing, k: nat)
    requires t.startTime != 0
    ensures RxWake(t, k) - (t.startTime + t.startOffset) == t.rxOffset + (k + 1) * t.cycle
    ensures TxWake(t, k) - (t.startTime + t.startOffset) == t.txOffset + (k + 1) * t.cycle
  {
  }

  /** The Tx instant of a cycle coincides with the next Rx instant. */
  predicate Touching(t: Timing)
  {
    t.rxOffset == 0 && t.txOffset == t.cycle
  }

  /** Rx and Tx instants alternate for ever; they never meet unless the offsets span the whole cycle. */
  lemma WakesAlternate(t: Timing, k: nat)
    requires Checked(t) && t.startTime != 0
    ensures RxWake(t, k) < TxWake(t, k) <= RxWake(t, k + 1)
    ensures TxWake(t, k) == RxWake(t, k + 1) <==> Touching(t)
  {
    assert (k + 2) * t.cycle == (k + 1) * t.cycle + t.cycle;
  }

  lemma WakesGrow(t: Timing, j: nat, k: nat)
    requires Checked(t) && t.startTime != 0 && j < k
    ensures RxWake(t, j) < RxWake(t, k) && TxWake(t, j) < TxWake(t, k)
  {
    MulNonNegative(k - j - 1, t.cycle);
    assert (k + 1) * t.cycle - (j + 1) * t.cycle == (k - j - 1) * t.cycle + t.cycle;
  }

  // ---------- critical sections in the order of their instants ----------

  function RxCount(actions: seq<Umem.Action>): (k: nat)
  {
    if actions == [] then 0
    else RxCount(actions[..|actions| - 1]) + if actions[|actions| - 1].Rx? then 1 else 0
  }

  function TxCount(actions: seq<Umem.Action>): (k: nat)
  {
    if actions == [] then 0
    else TxCount(actions[..|actions| - 1]) + if actions[|actions| - 1].Tx? then 1 else 0
  }

  /**
   The last critical section runs when it is its turn: every section with an earlier instant has run
   before it, and none with a later instant has.
   */
  ghost predicate OnTime(t: Timing, actions: seq<Umem.Action>)
    requires t.startTime != 0 && actions != []
  {
    var before, last := actions[..|actions| - 1], actions[|actions| - 1];
    var rx, tx := RxCount(before), TxCount(before);
    last.Kernel? ||
    var w := if last.Rx? then RxWake(t, rx) else TxWake(t, tx);
    && (forall k: nat :: RxWake(t, k) < w ==> k < rx)
    && (forall k: nat :: TxWake(t, k) < w ==> k < tx)
    && (forall k: nat :: k < rx ==> RxWake(t, k) <= w)
    && (forall k: nat :: k < tx ==> TxWake(t, k) <= w)
  }

  ghost predicate InWakeOrder(t: Timing, actions: seq<Umem.Action>)
    requires t.startTime != 0
  {
    actions == [] || (InWakeOrder(t, actions[..|actions| - 1]) && OnTime(t, actions))
  }

  lemma {:induction false} CountsAlternate(t: Timing, actions: seq<Umem.Action>)
    requires Checked(t) && t.startTime != 0 && !Touching(t) && InWakeOrder(t, actions)
    ensures Umem.Alternating(actions)
    ensures RxCount(actions) == TxCount(actions) + if Umem.AwaitsTx(actions) then 1 else 0
  {
    if actions != [] {
      var before, last := actions[..|actions| - 1], actions[|actions| - 1];
      CountsAlternate(t, before);
      var rx, tx := RxCount(before), TxCount(before);
      WakesAlternate(t, tx);
    }
  }

  /**
   Threads that keep to their instants alternate, hence the mirror's received_frames always describes
   the reserved Tx entries exactly, and after each Tx section all frames that ever arrived have been
   submitted, in the order they arrived in: each in the cycle it was received in.
   */
  lemma ScheduleKeepsRingExact(t: Timing, actions: seq<Umem.Action>)
    requires Checked(t) && t.startTime != 0 && !Touching(t) && InWakeOrder(t, actions)
    ensures var s := Umem.MirrorRun(actions);
      && |s.reserved| == s.received
      && Umem.Arrived(actions) == s.wire + s.tx + s.reserved
      && (!Umem.AwaitsTx(actions) ==> s.reserved == [] && Umem.Arrived(actions) == s.wire + s.tx)
  {
    CountsAlternate(t, actions);
    Umem.AlternatingIsExact(actions);
    Umem.DepartInOrder(actions);
  }

  /** Rx, Tx, Rx, Tx, ... : `m` critical sections in turn. */
  function InTurn(m: nat, b: Umem.Bursts): (actions: seq<Umem.Action>)
    ensures |actions| == m
  {
    if m == 0 then [] else InTurn(m - 1, b) + [if m % 2 == 1 then Umem.Rx(b) else Umem.Tx(b)]
  }

  lemma {:induction false} InTurnCounts(m: nat, b: Umem.Bursts)
    ensures RxCount(InTurn(m, b)) == (m + 1) / 2 && TxCount(InTurn(m, b)) == m / 2
  {
    if m > 0 {
      InTurnCounts(m - 1, b);
      assert InTurn(m, b)[..m - 1] == InTurn(m - 1, b);
    }
  }

  lemma RxInTurn(t: Timing, j: nat, k: nat)
    requires Checked(t) && t.startTime != 0
    ensures RxWake(t, k) < RxWake(t, j) ==> k < j
    ensures TxWake(t, k) < RxWake(t, j) ==> k < j
    ensures k < j ==> RxWake(t, k) <= RxWake(t, j) && TxWake(t, k) <= RxWake(t, j)
  {
    if k < j {
      WakesGrow(t, k, j);
      WakesAlternate(t, j - 1);
      if k < j - 1 { WakesGrow(t, k, j - 1); }
    } else {
      if k > j { WakesGrow(t, j, k); }
      WakesAlternate(t, j);
    }
  }

  lemma TxInTurn(t: Timing, j: nat, k: nat)
    requires Checked(t) && t.startTime != 0
    ensures RxWake(t, k) < TxWake(t, j) ==> k < j + 1
    ensures TxWake(t, k) < TxWake(t, j) ==> k < j
    ensures k < j + 1 ==> RxWake(t, k) <= TxWake(t, j)
    ensures k < j ==> TxWake(t, k) <= TxWake(t, j)
  {
    WakesAlternate(t, j);
    if k < j {
      WakesGrow(t, k, j);
    } else if k > j {
      WakesGrow(t, j, k);
      if k > j + 1 { WakesGrow(t, j + 1, k); }
    }
  }

  lemma RxOnTime(t: Timing, before: seq<Umem.Action>, b: Umem.Bursts)
    requires Checked(t) && t.startTime != 0 && RxCount(before) == TxCount(before)
    ensures OnTime(t, before + [Umem.Rx(b)])
  {
    var j := RxCount(before);
    assert (before + [Umem.Rx(b)])[..|before|] == before;
    forall k: nat
      ensures RxWake(t, k) < RxWake(t, j) ==> k < j
      ensures TxWake(t, k) < RxWake(t, j) ==> k < j
      ensures k < j ==> RxWake(t, k) <= RxWake(t, j) && TxWake(t, k) <= RxWake(t, j)
    {
      RxInTurn(t, j, k);
    }
  }

  lemma TxOnTime(t: Timing, before: seq<Umem.Action>, b: Umem.Bursts)
    requires Checked(t) && t.startTime != 0 && RxCount(before) == TxCount(before) + 1
    ensures OnTime(t, before + [Umem.Tx(b)])
  {
    var j := TxCount(before);
    assert (before + [Umem.Tx(b)])[..|before|] == before;
    forall k: nat
      ensures RxWake(t, k) < TxWake(t, j) ==> k < j + 1
      ensures TxWake(t, k) < TxWake(t, j) ==> k < j
      ensures k < j + 1 ==> RxWake(t, k) <= TxWake(t, j)
      ensures k < j ==> TxWake(t, k) <= TxWake(t, j)
    {
      TxInTurn(t, j, k);
    }
  }

  lemma Halves(m: nat)
    requires m > 0
    ensures m / 2 == (m - 1) / 2 + if m % 2 == 1 then 0 else 1
  {
  }

  /** Taking turns is an order that keeps to the instants, for any number of cycles. */
  lemma {:induction false} InTurnIsInWakeOrder(t: Timing, m: nat, b: Umem.Bursts)
    requires Checked(t) && t.startTime != 0
    ensures InWakeOrder(t, InTurn(m, b))
  {
    if m > 0 {
      var before := InTurn(m - 1, b);
      var a := if m % 2 == 1 then Umem.Rx(b) else Umem.Tx(b);
      InTurnIsInWakeOrder(t, m - 1, b);
      InTurnCounts(m - 1, b);
      Halves(m);
      ExtendInTurn(t, before, b, a);
      assert InTurn(m, b) == before + [a];
    }
  }

  lemma ExtendInTurn(t: Timing, before: seq<Umem.Action>, b: Umem.Bursts, a: Umem.Action)
    requires Checked(t) && t.startTime != 0 && InWakeOrder(t, before)
    requires (a == Umem.Rx(b) && RxCount(before) == TxCount(before))
          || (a == Umem.Tx(b) && RxCount(before) == TxCount(before) + 1)
    ensures InWakeOrder(t, before + [a])
  {
    if a.Rx? {
      RxOnTime(t, before, b);
    } else {
      TxOnTime(t, before, b);
    }
    assert (before + [a])[..|before|] == before;
  }

  /** The configuration check lets such offsets through: Rx at the start of a millisecond cycle, Tx at its end. */
  lemma TouchingIsAccepted()
    ensures var t := Timing(1_000_000, 1, 0, 0, 1_000_000); Checked(t) && t.startTime != 0 && Touching(t)
  {
  }

  /** If the instants touch, keeping to them does not force the threads to alternate. */
  lemma TouchingMayNotAlternate(t: Timing, b: Umem.Bursts)
    requires Checked(t) && t.startTime != 0 && Touching(t)
    ensures InWakeOrder(t, [Umem.Rx(b), Umem.Rx(b)]) && !Umem.Alternating([Umem.Rx(b), Umem.Rx(b)])
  {
    var one, two := [Umem.Rx(b)], [Umem.Rx(b), Umem.Rx(b)];
    assert one[..0] == [] && two[..1] == one;
    WakesAlternate(t, 0);
    assert RxCount(one) == 1 && TxCount(one) == 0;
    forall k: nat
      ensures RxWake(t, k) < RxWake(t, 1) ==> k < 1
      ensures !(TxWake(t, k) < RxWake(t, 1))
      ensures !(RxWake(t, k) < RxWake(t, 0)) && !(TxWake(t, k) < RxWake(t, 0))
    {
      if k > 1 { WakesGrow(t, 1, k); }
      if k > 0 {
        WakesGrow(t, 0, k);
      }
    }
    assert OnTime(t, one) && OnTime(t, two);
    assert Umem.AwaitsTx(one);
  }

  /** Then two frames may arrive before anything is submitted, and one of them is never announced. */
  lemma TouchingForgets(t: Timing, b: Umem.Bursts)
    requires Checked(t) && t.startTime != 0 && Touching(t)
    requires b.first == [Umem.TakeFill, Umem.Deliver(0)] && b.second == []
    ensures var actions := [Umem.Rx(b), Umem.Rx(b)];
      && InWakeOrder(t, actions)
      && |Umem.MirrorRun(actions).reserved| == 2 && Umem.MirrorRun(actions).received == 1
  {
    TouchingMayNotAlternate(t, b);
    Umem.FirstFrameForgotten(b);
  }

  ghost predicate AlwaysExact(t: Timing)
    requires t.startTime != 0
  {
    forall actions :: InWakeOrder(t, actions) ==> |Umem.MirrorRun(actions).reserved| == Umem.MirrorRun(actions).received
  }

  /** The schedule keeps the ring exact in every run if and only if the instants do not touch. */
  lemma {:induction false} ExactUnlessTouching(t: Timing)
    requires Checked(t) && t.startTime != 0
    ensures AlwaysExact(t) <==> !Touching(t)
  {
    if Touching(t) {
      var b := Umem.Bursts([Umem.TakeFill, Umem.Deliver(0)], [], []);
      TouchingForgets(t, b);
    } else {
      forall actions | InWakeOrder(t, actions)
        ensures |Umem.MirrorRun(actions).reserved| == Umem.MirrorRun(actions).received
      {
        ScheduleKeepsRingExact(t, actions);
      }
    }
  }
}
