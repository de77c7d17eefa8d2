/**
 The receiver's sequence check: a frame whose number differs from the expected one is counted as out
 of order and makes the expected number jump by two instead of one.
 */
module SequenceTracking {
  import opened Words

  datatype Tracker = Tracker(expected: nat, outOfOrder: nat)

  function Observe(t: Tracker, seqNo: nat): (r: Tracker)
  {
    if seqNo != t.expected then Tracker(t.expected + 2, t.outOfOrder + 1) else Tracker(t.expected + 1, t.outOfOrder)
  }

  function Track(t: Tracker, s: seq<nat>): (r: Tracker)
  {
    if s == [] then t else Observe(Track(t, s[..|s| - 1]), s[|s| - 1])
  }

  /** thread_context->rx_sequence_counter and the error counter, updated once per accepted frame. */
  class Receiver {
    var rxSequenceCounter: nat
    var outOfOrderErrors: nat

    ghost function State(): (t: Tracker)
      reads this
    {
      Tracker(rxSequenceCounter, outOfOrderErrors)
    }

    constructor ()
      ensures State() == Tracker(0, 0)
    {
      rxSequenceCounter, outOfOrderErrors := 0, 0;
    }

    method Frame(seqNo: nat) returns (outOfOrder: bool)
      modifies this
      ensures State() == Observe(old(State()), seqNo)
      ensures outOfOrder == (State().outOfOrder > old(State()).outOfOrder)
    {
      outOfOrder := seqNo != rxSequenceCounter;
      if outOfOrder {
        outOfOrderErrors := outOfOrderErrors + 1;
        rxSequenceCounter := rxSequenceCounter + 1;
      }
      rxSequenceCounter := rxSequenceCounter + 1;
    }

    method Frames(s: seq<nat>)
      modifies this
      ensures State() == Track(old(State()), s)
    {
      for i := 0 to |s|
        invariant State() == Track(old(State()), s[..i])
      {
        var _ := Frame(s[i]);
        assert s[..i + 1][..i] == s[..i];
      }
      assert s[..|s|] == s;
    }
  }

  // ---------- losses ----------

  predicate Increasing(s: seq<nat>)
  {
    forall i, j :: 0 <= i < j < |s| ==> s[i] < s[j]
  }

  function Below(next: nat): (r: set<nat>)
    ensures forall x: nat :: x in r <==> x < next
  {
    if next == 0 then {} else Below(next - 1) + {next - 1}
  }

  function Elements(s: seq<nat>): (r: set<nat>)
  {
    set x | x in s
  }

  /** How many numbers below `next` were not among the frames received. */
  function Lost(next: nat, received: seq<nat>): (lost: nat)
  {
    |Below(next) - Elements(received)|
  }

  lemma {:induction false} BelowSize(next: nat)
    ensures |Below(next)| == next
  {
    if next > 0 {
      BelowSize(next - 1);
    }
  }

  lemma {:induction false} ElementsSize(s: seq<nat>)
    requires Increasing(s)
    ensures |Elements(s)| == |s|
  {
    if s != [] {
      var before, last := s[..|s| - 1], s[|s| - 1];
      ElementsSize(before);
      assert s == before + [last];
      assert Elements(s) == Elements(before) + {last};
      assert last !in before;
    }
  }

  /** In a strictly increasing stream the frames lost before frame `k` are those it skipped. */
  lemma LostBefore(s: seq<nat>, k: nat)
    requires Increasing(s) && k < |s|
    ensures Lost(s[k], s[..k]) == s[k] - k
  {
    BelowSize(s[k]);
    ElementsSize(s[..k]);
    assert Elements(s[..k]) <= Below(s[k]);
    var gone := Below(s[k]) - Elements(s[..k]);
    assert Below(s[k]) == gone + Elements(s[..k]);
  }

  lemma {:induction false} CounterIsReceivedPlusErrors(t: Tracker, s: seq<nat>)
    ensures Track(t, s).expected - t.expected == |s| + (Track(t, s).outOfOrder - t.outOfOrder)
    ensures Track(t, s).outOfOrder >= t.outOfOrder
  {
    if s != [] {
      CounterIsReceivedPlusErrors(t, s[..|s| - 1]);
    }
  }

  /** The expected number never runs ahead of a strictly increasing stream. */
  lemma {:induction false} NeverAhead(s: seq<nat>, k: nat)
    requires Increasing(s) && k < |s|
    ensures Track(Tracker(0, 0), s[..k]).expected <= s[k]
  {
    if k > 0 {
      NeverAhead(s, k - 1);
      assert s[..k][..k - 1] == s[..k - 1];
      assert s[k - 1] < s[k];
    }
  }

  /**
   Before frame `k` of any strictly increasing stream the errors counted never exceed the frames lost
   so far, and the difference is exactly how far the expected number lags behind. A frame that
   matches therefore proves that every loss has been counted.
   */
  lemma ErrorsCountLosses(s: seq<nat>, k: nat)
    requires Increasing(s) && k < |s|
    ensures var t, lost := Track(Tracker(0, 0), s[..k]), Lost(s[k], s[..k]);
      && t.expected <= s[k]
      && t.outOfOrder <= lost
      && lost - t.outOfOrder == s[k] - t.expected
      && (s[k] == t.expected <==> t.outOfOrder == lost)
  {
    CounterIsReceivedPlusErrors(Tracker(0, 0), s[..k]);
    LostBefore(s, k);
    NeverAhead(s, k);
  }

  /** The numbers from, from + 1, ..., from + len - 1. */
  function Consecutive(from: nat, len: nat): (s: seq<nat>)
    ensures |s| == len
    ensures forall i :: 0 <= i < len ==> s[i] == from + i
  {
    seq(len, i => from + i)
  }

  /**
   A gap-free run of `len` frames that arrives when the expected number is `lag` behind: the first
   `lag` of them are flagged and none after that.
   */
  lemma {:induction false} GapFreeRun(t: Tracker, lag: nat, len: nat)
    ensures Track(t, Consecutive(t.expected + lag, len))
         == Tracker(t.expected + len + Min(lag, len), t.outOfOrder + Min(lag, len))
  {
    if len > 0 {
      GapFreeRun(t, lag, len - 1);
      var s := Consecutive(t.expected + lag, len);
      assert s[..len - 1] == Consecutive(t.expected + lag, len - 1);
    }
  }

  /** A burst of `lost` losses is cleared by exactly as many flagged frames, and then frames match. */
  lemma BurstCleared(t: Tracker, lost: nat, more: nat)
    ensures Track(t, Consecutive(t.expected + lost, lost + more))
         == Tracker(t.expected + 2 * lost + more, t.outOfOrder + lost)
    ensures Track(t, Consecutive(t.expected + lost, lost + more)).expected == t.expected + lost + (lost + more)
  {
    GapFreeRun(t, lost, lost + more);
  }

  /**
   Once the expected number is ahead of the stream, as after a duplicate or a late frame, every frame
   of a gap-free continuation is flagged and the distance grows with every frame.
   */
  lemma {:induction false} AheadNeverRecovers(t: Tracker, from: nat, len: nat)
    requires from < t.expected
    ensures Track(t, Consecutive(from, len)) == Tracker(t.expected + 2 * len, t.outOfOrder + len)
  {
    if len > 0 {
      AheadNeverRecovers(t, from, len - 1);
      var s := Consecutive(from, len);
      assert s[..len - 1] == Consecutive(from, len - 1);
    }
  }

  /** On one gap-free run: every frame is flagged exactly when the run starts ahead or is no longer than the lag. */
  lemma AlwaysFlagged(t: Tracker, from: nat, len: nat)
    ensures Track(t, Consecutive(from, len)).outOfOrder == t.outOfOrder + len
       <==> from < t.expected || len <= from - t.expected
  {
    if from < t.expected {
      AheadNeverRecovers(t, from, len);
    } else {
      GapFreeRun(t, from - t.expected, len);
    }
  }

  /**
   The AF_XDP mirror numbers the batch it sends `expected - received`, where `received` counts the accepted and
   the rejected frames. For a batch whose accepted frames are gap-free that is the number of the first of them
   exactly when nothing was rejected and the receiver was not ahead and no further behind than the batch is
   long, or when the rejected frames make up by accident for how far it was ahead.
   */
  lemma BatchNumber(t: Tracker, from: nat, accepted: nat, rejected: nat)
    requires accepted > 0
    ensures Track(t, Consecutive(from, accepted)).expected - (accepted + rejected) == from <==>
      if from < t.expected then rejected == t.expected - from + accepted
      else from <= t.expected + accepted && rejected == 0
  {
    if from < t.expected {
      AheadNeverRecovers(t, from, accepted);
    } else {
      GapFreeRun(t, from - t.expected, accepted);
    }
  }
}
