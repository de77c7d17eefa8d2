/**
 The batches the AF_XDP mirror enters into the backlog: numbered by the receiver's sequence check, looked up
 when their hardware timestamps arrive.
 */
module MirrorBatches {
  import opened Words
  import opened SequenceTracking
  import Backlog

  /** The frames of one cycle: numbers of the accepted ones, how many were rejected, when they are sent. */
  datatype Cycle = Cycle(accepted: seq<nat>, rejected: nat, now: nat)

  function Received(y: Cycle): nat
  {
    |y.accepted| + y.rejected
  }

  /** The receiver after these cycles. */
  function After(cycles: seq<Cycle>): (t: Tracker)
  {
    if cycles == [] then Tracker(0, 0) else Track(After(cycles[..|cycles| - 1]), cycles[|cycles| - 1].accepted)
  }

  /** How many frames of the cycle are flagged as out of order. */
  function Flagged(t: Tracker, y: Cycle): int
  {
    Track(t, y.accepted).outOfOrder - t.outOfOrder
  }

  /** rx_sequence_counter - received, in 64 bits. */
  function BatchOf(t: Tracker, y: Cycle): (b: Backlog.Batch)
  {
    Backlog.Batch(U64(Track(t, y.accepted).expected - Received(y)), Received(y), y.now)
  }

  /** One batch per cycle; that of a cycle without frames is empty and records nothing. */
  function Log(cycles: seq<Cycle>): (log: seq<Backlog.Batch>)
    ensures |log| == |cycles|
  {
    if cycles == [] then [] else
    var before := cycles[..|cycles| - 1];
    Log(before) + [BatchOf(After(before), cycles[|cycles| - 1])]
  }

  lemma {:induction false} LogAt(cycles: seq<Cycle>, i: nat)
    requires i < |cycles|
    ensures Log(cycles)[i] == BatchOf(After(cycles[..i]), cycles[i])
  {
    if i < |cycles| - 1 {
      LogAt(cycles[..|cycles| - 1], i);
      assert cycles[..|cycles| - 1][..i] == cycles[..i];
    }
  }

  /** A batch takes up where the previous one may have ended, and ends where the receiver now stands. */
  predicate Continues(t: Tracker, y: Cycle)
  {
    var b := BatchOf(t, y);
    t.expected <= b.first && b.first + b.count == Track(t, y.accepted).expected
  }

  /** That is so exactly when no more frames are rejected than flagged, whatever arrives. */
  lemma ContinuesExactly(t: Tracker, y: Cycle)
    requires Track(t, y.accepted).expected < TWO64
    ensures Continues(t, y) <==> y.rejected <= Flagged(t, y)
  {
    CounterIsReceivedPlusErrors(t, y.accepted);
    Subtract64(Track(t, y.accepted).expected, Received(y));
  }

  lemma Subtract64(a: nat, b: nat)
    requires a < TWO64
    ensures b <= a ==> U64(a - b) == a - b
    ensures b > a ==> U64(a - b) + b != a
  {
  }

  predicate AllContinue(cycles: seq<Cycle>)
  {
    cycles == [] || (
      var before, last := cycles[..|cycles| - 1], cycles[|cycles| - 1];
      AllContinue(before) && last.rejected <= Flagged(After(before), last))
  }

  /** Without rejected frames the numbers grow for every stream, with losses, duplicates and late frames. */
  lemma {:induction false} NoneRejected(cycles: seq<Cycle>)
    requires forall i :: 0 <= i < |cycles| ==> cycles[i].rejected == 0
    ensures AllContinue(cycles)
  {
    if cycles != [] {
      var before, last := cycles[..|cycles| - 1], cycles[|cycles| - 1];
      NoneRejected(before);
      assert cycles[|cycles| - 1].rejected == 0;
      CounterIsReceivedPlusErrors(After(before), last.accepted);
    }
  }

  /** A batch that does not wrap around ends where the receiver stood when it was recorded. */
  lemma BatchEnd(t: Tracker, y: Cycle, end: nat)
    requires Track(t, y.accepted).expected <= end < TWO64
    ensures var b := BatchOf(t, y); b.first + b.count <= end ==> b.first + b.count == Track(t, y.accepted).expected
  {
    var e, k := Track(t, y.accepted).expected, Received(y);
    if k <= e {
      Subtract64(e, k);
    } else {
      WrapsBeyond(e, k);
    }
  }

  lemma WrapsBeyond(a: nat, b: nat)
    requires a < TWO64 && b > a
    ensures U64(a - b) + b >= TWO64 + a
  {
    NegativeWraps(a - b);
  }

  lemma NegativeWraps(d: int)
    requires d < 0
    ensures U64(d) >= d + TWO64
  {
  }

  /**
   What the backlog is made for, numbers that never reach back and stay below the expected one, is exactly what the
   mirror records while no cycle has more rejected than flagged frames.
   */
  lemma {:induction false} LogIncreases(cycles: seq<Cycle>)
    requires After(cycles).expected < TWO64
    ensures Backlog.Increasing(Log(cycles)) && Backlog.SentBelow(Log(cycles), After(cycles).expected)
       <==> AllContinue(cycles)
  {
    if cycles != [] {
      var before, last := cycles[..|cycles| - 1], cycles[|cycles| - 1];
      CounterIsReceivedPlusErrors(After(before), last.accepted);
      LogIncreases(before);
      ContinuesExactly(After(before), last);
      if AllContinue(cycles) {
        AppendIncreases(Log(before), BatchOf(After(before), last), After(before).expected, After(cycles).expected);
      }
      if Backlog.Increasing(Log(cycles)) && Backlog.SentBelow(Log(cycles), After(cycles).expected) {
        PrefixContinues(cycles);
      }
    }
  }

  /** If the whole log is in order, so is the log before the last batch, and the last batch takes up from there. */
  lemma {:induction false} PrefixContinues(cycles: seq<Cycle>)
    requires cycles != [] && After(cycles).expected < TWO64
    requires Backlog.Increasing(Log(cycles)) && Backlog.SentBelow(Log(cycles), After(cycles).expected)
    ensures var before, last := cycles[..|cycles| - 1], cycles[|cycles| - 1];
      && Backlog.Increasing(Log(before)) && Backlog.SentBelow(Log(before), After(before).expected)
      && Continues(After(before), last)
  {
    var before, last, log := cycles[..|cycles| - 1], cycles[|cycles| - 1], Log(cycles);
    var k := |before|;
    forall i | 0 <= i < k
      ensures log[i] == Log(before)[i] && log[i].first + log[i].count <= After(before).expected
    {
      EndsInTime(cycles, i);
    }
    assert log[k] == BatchOf(After(before), last);
    BatchEnd(After(before), last, After(cycles).expected);
    if k > 0 {
      LastEnd(cycles);
      assert log[k - 1].first + log[k - 1].count <= log[k].first;
    }
  }

  lemma {:induction false} ExpectedGrows(cycles: seq<Cycle>, i: nat)
    requires i <= |cycles|
    ensures After(cycles[..i]).expected <= After(cycles).expected
    decreases |cycles|
  {
    if i == |cycles| {
      assert cycles[..i] == cycles;
    } else {
      var before := cycles[..|cycles| - 1];
      ExpectedGrows(before, i);
      assert before[..i] == cycles[..i];
      CounterIsReceivedPlusErrors(After(before), cycles[|cycles| - 1].accepted);
    }
  }

  lemma {:induction false} EndsInTime(cycles: seq<Cycle>, i: nat)
    requires i < |cycles| && After(cycles).expected < TWO64
    requires Backlog.SentBelow(Log(cycles), After(cycles).expected)
    ensures var b := Log(cycles)[i]; b.first + b.count == After(cycles[..i + 1]).expected
    ensures i < |cycles| - 1 ==> var before := cycles[..|cycles| - 1];
      Log(cycles)[i] == Log(before)[i] && After(cycles[..i + 1]).expected <= After(before).expected
  {
    LogAt(cycles, i);
    ExpectedGrows(cycles, i + 1);
    assert cycles[..i + 1][..i] == cycles[..i];
    var b := Log(cycles)[i];
    assert b.first + b.count <= After(cycles).expected;
    BatchEnd(After(cycles[..i]), cycles[i], After(cycles).expected);
    if i < |cycles| - 1 {
      var before := cycles[..|cycles| - 1];
      ExpectedGrows(before, i + 1);
      assert before[..i + 1] == cycles[..i + 1];
    }
  }

  lemma {:induction false} LastEnd(cycles: seq<Cycle>)
    requires |cycles| > 1 && After(cycles).expected < TWO64
    requires Backlog.SentBelow(Log(cycles), After(cycles).expected)
    ensures var b := Log(cycles)[|cycles| - 2];
      b.first + b.count == After(cycles[..|cycles| - 1]).expected
  {
    EndsInTime(cycles, |cycles| - 2);
  }

  lemma AppendIncreases(log: seq<Backlog.Batch>, b: Backlog.Batch, from: nat, to: nat)
    requires Backlog.Increasing(log) && Backlog.SentBelow(log, from) && from <= b.first && b.first + b.count <= to
    ensures Backlog.Increasing(log + [b]) && Backlog.SentBelow(log + [b], to)
  {
    var all := log + [b];
    forall i, j | 0 <= i < j < |all|
      ensures all[i].first + all[i].count <= all[j].first
    {
      assert all[i] == log[i];
    }
    forall i | 0 <= i < |all|
      ensures all[i].first + all[i].count <= to
    {
      if i < |log| {
        assert all[i] == log[i];
      }
    }
  }

  /** A rejected frame alone in its cycle makes the mirror record the previous frame a second time. */
  lemma RejectedReachesBack()
    ensures Log([Cycle([0], 0, 5), Cycle([], 1, 7)]) == [Backlog.Batch(0, 1, 5), Backlog.Batch(0, 1, 7)]
    ensures !Backlog.Increasing(Log([Cycle([0], 0, 5), Cycle([], 1, 7)]))
  {
    var y, z := Cycle([0], 0, 5), Cycle([], 1, 7);
    assert [y, z][..1] == [y] && [y][..0] == [];
    var none: seq<nat> := [];
    var t := Track(Tracker(0, 0), [0]);
    assert [0][..0] == none && Track(Tracker(0, 0), none) == Tracker(0, 0) && t == Tracker(1, 0);
    assert After([]) == Tracker(0, 0) && After([y]) == t && Track(t, none) == t;
    assert Log([]) == [] && Log([y]) == [BatchOf(After([]), y)] && BatchOf(After([]), y) == Backlog.Batch(0, 1, 5);
    assert BatchOf(t, z) == Backlog.Batch(0, 1, 7);
    var log := Log([y, z]);
    assert log == [Backlog.Batch(0, 1, 5), Backlog.Batch(0, 1, 7)];
    assert !(log[0].first + log[0].count <= log[1].first);
  }

  /**
   What the mirror's lookups find. Take any run in which no cycle has more rejected than flagged frames, and a
   cycle of it without rejected frames, with a gap-free batch that the receiver had not lost track of: not ahead,
   and no further behind than the batch is long. The lookup for a frame whose cycle starts in that batch, or which is
   itself in it if frames have send times of their own, finds the time the batch was sent, until 1024 cycles later.
   */
  lemma {:induction false} MirrorLookup(p: Backlog.ClassParams, cycles: seq<Cycle>,
                                        states: seq<seq<Backlog.Entry>>, i: nat, from: nat, g: nat, f: nat,
                                        lastSent: nat)
    requires 0 < p.n && Backlog.History(p, Log(cycles), states) && i < |cycles|
    requires AllContinue(cycles) && cycles[i].rejected == 0 && After(cycles).expected < TWO64
    requires cycles[i].accepted == Consecutive(from, |cycles[i].accepted|)
    requires After(cycles[..i]).expected <= from <= After(cycles[..i]).expected + |cycles[i].accepted|
    requires Backlog.StandsFor(p, g, f) && g in cycles[i].accepted
    requires Backlog.SentBelow(Log(cycles), lastSent + 1) && lastSent / p.n < f / p.n + Backlog.MAX_BACKLOG
    ensures var slot := Backlog.Key(p, f) % Backlog.Length(p);
      && |states[|cycles|]| == Backlog.Length(p) && 0 <= slot < Backlog.Length(p)
      && states[|cycles|][slot].sw == cycles[i].now
  {
    LogIncreases(cycles);
    LogAt(cycles, i);
    ExpectedGrows(cycles, i + 1);
    var t, y := After(cycles[..i]), cycles[i];
    assert cycles[..i + 1][..i] == cycles[..i];
    BatchNumber(t, from, |y.accepted|, 0);
    Subtract64(Track(t, y.accepted).expected, Received(y));
    assert Backlog.Covers(Log(cycles)[i], g);
    Backlog.LookupWithinBacklog(p, Log(cycles), states, i, g, f, lastSent);
  }
}
