/** Hardware Tx timestamps: what a completion does to the backlog and to the counters. */
module Completions {
  import opened Words
  import opened Backlog
  import MetaData

  datatype LogMode = Reference | Mirror | TxTimestamps

  /** `p.hwStamps` is the class's tx_hwtstamp_enabled; `haveRx` the build's Rx timestamp support. */
  datatype Params = Params(p: ClassParams, log: LogMode, haveRx: bool)

  /**
   The backlog, and what has been handed to the statistics since the last reset: Tx latencies, the number of misses,
   ProcFirst and ProcBatch latencies, all in microseconds.
   */
  datatype Context = Context(
    entries: seq<Entry>, tx: seq<nat>, txMissing: nat, procFirst: seq<nat>, procBatch: seq<nat>)

  predicate Valid(c: Params, x: Context)
  {
    0 < c.p.n && |x.entries| == Length(c.p)
  }

  function Slot(c: Params, seqNo: nat): (idx: nat)
    requires 0 < c.p.n
    ensures idx < Length(c.p)
  {
    SlotInRange(c.p, CycleStart(c.p, seqNo));
    CycleStart(c.p, seqNo) % Length(c.p)
  }

  // ---------- single operations ----------

  /** The first frame of a cycle leaves its hardware Rx timestamp in the backlog. */
  function StoreRx(c: Params, x: Context, seqNo: nat, rxHw: nat): (r: Context)
    requires Valid(c, x)
    ensures Valid(c, r)
  {
    if Stores(c, seqNo, rxHw) then
      var i := Slot(c, seqNo);
      x.(entries := x.entries[i := x.entries[i].(rxHw := rxHw)])
    else x
  }

  predicate Stores(c: Params, seqNo: nat, rxHw: nat)
    requires 0 < c.p.n
  {
    c.log.TxTimestamps? && c.p.hwStamps && c.haveRx && rxHw != 0 && seqNo % c.p.n == 0
  }

  /** The branch of stat_frame_sent_latency for a timestamp that was already consumed. */
  predicate AlreadyProcessed(e: Entry)
  {
    e.sw != 0 && e.hw == 0
  }

  /** stat_frame_sent_latency on slot `i`. */
  function SentLatency(c: Params, x: Context, i: nat): (r: Context)
    requires Valid(c, x) && i < Length(c.p)
    ensures Valid(c, r)
  {
    var e := x.entries[i];
    if !c.p.hwStamps || AlreadyProcessed(e) then x
    else if e.hw > e.sw then x.(tx := x.tx + [(e.hw - e.sw) / 1000], entries := x.entries[i := e.(hw := 0)])
    else x.(txMissing := x.txMissing + 1)
  }

  predicate Sampled(c: Params, rxHw: nat, hwTs: nat)
  {
    c.haveRx && c.p.hwStamps && rxHw != 0 && hwTs != 0 && hwTs > rxHw
  }

  function ProcFirst(c: Params, x: Context, i: nat, hwTs: nat): (r: Context)
    requires Valid(c, x) && i < Length(c.p)
    ensures Valid(c, r)
  {
    var rxHw := x.entries[i].rxHw;
    if Sampled(c, rxHw, hwTs) then x.(procFirst := x.procFirst + [(hwTs - rxHw) / 1000]) else x
  }

  /** stat_proc_batch_latency clears the Rx timestamp whether or not it yields a sample. */
  function ProcBatch(c: Params, x: Context, i: nat, hwTs: nat): (r: Context)
    requires Valid(c, x) && i < Length(c.p)
    ensures Valid(c, r)
  {
    var rxHw := x.entries[i].rxHw;
    var cleared := x.(entries := x.entries[i := x.entries[i].(rxHw := 0)]);
    if Sampled(c, rxHw, hwTs) then cleared.(procBatch := x.procBatch + [(hwTs - rxHw) / 1000]) else cleared
  }

  /** A first-frame completion that is taken into account: both timestamps are known. */
  predicate CountsAsFirst(c: Params, x: Context, seqNo: nat, hwTs: nat)
    requires Valid(c, x)
  {
    hwTs != 0 && x.entries[Slot(c, seqNo)].sw != 0 && seqNo % c.p.n == 0
  }

  function AfterLatency(c: Params, x: Context, seqNo: nat, hwTs: nat): (r: Context)
    requires Valid(c, x)
    ensures Valid(c, r)
  {
    var i := Slot(c, seqNo);
    if seqNo % c.p.n == 0 then
      SentLatency(c, x.(entries := x.entries[i := x.entries[i].(hw := hwTs)]), i)
    else x
  }

  function AfterProcessing(c: Params, x: Context, seqNo: nat, hwTs: nat): (r: Context)
    requires Valid(c, x)
    ensures Valid(c, r)
  {
    var i := Slot(c, seqNo);
    if c.log.TxTimestamps? && c.haveRx && hwTs > x.entries[i].sw then
      if seqNo % c.p.n == 0 then ProcFirst(c, x, i, hwTs)
      else if seqNo % c.p.n == c.p.n - 1 then ProcBatch(c, x, i, hwTs)
      else x
    else x
  }

  /** One completion, on the AF_PACKET and on the AF_XDP path alike. */
  function Completed(c: Params, x: Context, seqNo: nat, hwTs: nat): (r: Context)
    requires Valid(c, x)
    ensures Valid(c, r)
  {
    if hwTs == 0 || x.entries[Slot(c, seqNo)].sw == 0 then x
    else AfterProcessing(c, AfterLatency(c, x, seqNo, hwTs), seqNo, hwTs)
  }

  // ---------- what one completion counts ----------

  /** The hardware Tx time is later than both the recorded send time and the stored Rx time. */
  predicate Measurable(c: Params, e: Entry, hwTs: nat)
  {
    c.log.TxTimestamps? && c.haveRx && e.rxHw != 0 && hwTs > e.sw && hwTs > e.rxHw
  }

  /**
   Each first-frame completion is counted exactly once, as a latency from the recorded send time or as a miss; others
   not at all. First and last frames measured from the stored Rx timestamp yield one sample each.
   */
  lemma CompletedCounts(c: Params, x: Context, seqNo: nat, hwTs: nat)
    requires Valid(c, x) && c.p.hwStamps
    ensures var r, e := Completed(c, x, seqNo, hwTs), x.entries[Slot(c, seqNo)];
      var counts := CountsAsFirst(c, x, seqNo, hwTs);
      && r.tx == x.tx + (if counts && hwTs > e.sw then [(hwTs - e.sw) / 1000] else [])
      && r.txMissing == x.txMissing + Bit(counts && hwTs <= e.sw)
    ensures var r, e := Completed(c, x, seqNo, hwTs), x.entries[Slot(c, seqNo)];
      var first := CountsAsFirst(c, x, seqNo, hwTs) && Measurable(c, e, hwTs);
      r.procFirst == x.procFirst + if first then [(hwTs - e.rxHw) / 1000] else []
    ensures var r, e := Completed(c, x, seqNo, hwTs), x.entries[Slot(c, seqNo)];
      var last := e.sw != 0 && c.p.n > 1 && seqNo % c.p.n == c.p.n - 1 && Measurable(c, e, hwTs);
      r.procBatch == x.procBatch + if last then [(hwTs - e.rxHw) / 1000] else []
  {
  }

  /**
   What a completion does to the backlog. Only the slot of its cycle changes: a first-frame completion that counts as a
   latency leaves no hardware timestamp behind, one that counts as a miss leaves its own, and a last-frame
   completion later than the send time consumes the Rx timestamp.
   */
  lemma CompletedEntries(c: Params, x: Context, seqNo: nat, hwTs: nat, k: nat)
    requires Valid(c, x) && c.p.hwStamps && k < Length(c.p)
    ensures var e, r := x.entries[k], Completed(c, x, seqNo, hwTs).entries[k];
      if k != Slot(c, seqNo) || hwTs == 0 || e.sw == 0 then r == e
      else if seqNo % c.p.n == 0 then r == e.(hw := if hwTs > e.sw then 0 else hwTs)
      else if seqNo % c.p.n == c.p.n - 1 && c.log.TxTimestamps? && c.haveRx && hwTs > e.sw then r == e.(rxHw := 0)
      else r == e
  {
  }

  // ---------- pending Rx timestamps ----------

  function Pending(s: seq<Entry>): (k: nat)
  {
    if s == [] then 0 else Pending(s[..|s| - 1]) + if s[|s| - 1].rxHw != 0 then 1 else 0
  }

  lemma {:induction false} PendingUpdate(s: seq<Entry>, i: nat, e: Entry)
    requires i < |s|
    ensures Pending(s[i := e]) + Bit(s[i].rxHw != 0) == Pending(s) + Bit(e.rxHw != 0)
  {
    var t := s[i := e];
    if i < |s| - 1 {
      PendingUpdate(s[..|s| - 1], i, e);
      assert t[..|s| - 1] == s[..|s| - 1][i := e];
    } else {
      assert t[..|s| - 1] == s[..|s| - 1];
    }
  }

  lemma {:induction false} PendingSame(s: seq<Entry>, t: seq<Entry>)
    requires |s| == |t| && forall i :: 0 <= i < |s| ==> s[i].rxHw == t[i].rxHw
    ensures Pending(s) == Pending(t)
  {
    if s != [] {
      PendingSame(s[..|s| - 1], t[..|t| - 1]);
    }
  }

  lemma LatencyKeepsPending(c: Params, x: Context, seqNo: nat, hwTs: nat)
    requires Valid(c, x)
    ensures var r := AfterLatency(c, x, seqNo, hwTs);
      Pending(r.entries) == Pending(x.entries) && r.procBatch == x.procBatch
  {
    PendingSame(x.entries, AfterLatency(c, x, seqNo, hwTs).entries);
  }

  /** Every ProcBatch sample consumes a pending Rx timestamp. */
  lemma CompletedConsumes(c: Params, x: Context, seqNo: nat, hwTs: nat)
    requires Valid(c, x)
    ensures var r := Completed(c, x, seqNo, hwTs);
      |r.procBatch| >= |x.procBatch| && |r.procBatch| + Pending(r.entries) <= |x.procBatch| + Pending(x.entries)
  {
    LatencyKeepsPending(c, x, seqNo, hwTs);
    var y, i := AfterLatency(c, x, seqNo, hwTs), Slot(c, seqNo);
    PendingUpdate(y.entries, i, y.entries[i].(rxHw := 0));
  }

  lemma StoreAddsPending(c: Params, x: Context, seqNo: nat, rxHw: nat)
    requires Valid(c, x)
    ensures Pending(StoreRx(c, x, seqNo, rxHw).entries) <= Pending(x.entries) + Bit(Stores(c, seqNo, rxHw))
  {
    var i := Slot(c, seqNo);
    PendingUpdate(x.entries, i, x.entries[i].(rxHw := rxHw));
  }

  // ---------- every run ----------

  datatype Event = Sent(b: Batch) | Received(seqNo: nat, rxHw: nat) | Completion(seqNo: nat, hwTs: nat) | Reset

  ghost function AfterBatch(c: Params, x: Context, b: Batch): (r: Context)
    requires Valid(c, x)
    ensures Valid(c, r) && Stamped(c.p, x.entries, b, r.entries)
    ensures r == x.(entries := r.entries)
  {
    x.(entries := seq(|x.entries|, k requires 0 <= k < |x.entries| =>
      if Hits(c.p, b, k) then x.entries[k].(sw := b.now) else x.entries[k]))
  }

  /**
   Completions of first frames and ProcBatch samples since the last reset; Rx timestamps stored and ProcBatch samples
   taken since start.
   */
  datatype Tally = Tally(firsts: nat, recent: nat, stored: nat, batches: nat)

  ghost function Step(c: Params, x: Context, e: Event): (r: Context)
    requires Valid(c, x)
    ensures Valid(c, r)
  {
    match e
    case Sent(b) => AfterBatch(c, x, b)
    case Received(f, rxHw) => StoreRx(c, x, f, rxHw)
    case Completion(f, hwTs) => Completed(c, x, f, hwTs)
    case Reset => x.(tx := [], txMissing := 0, procFirst := [], procBatch := [])
  }

  ghost function Count(c: Params, x: Context, t: Tally, e: Event): (r: Tally)
    requires Valid(c, x)
  {
    match e
    case Sent(b) => t
    case Received(f, rxHw) => t.(stored := t.stored + Bit(Stores(c, f, rxHw)))
    case Completion(f, hwTs) =>
      var sampled := Bit(|Completed(c, x, f, hwTs).procBatch| > |x.procBatch|);
      t.(firsts := t.firsts + Bit(CountsAsFirst(c, x, f, hwTs)), recent := t.recent + sampled,
         batches := t.batches + sampled)
    case Reset => t.(firsts := 0, recent := 0)
  }

  ghost predicate Accounted(c: Params, x: Context, t: Tally)
  {
    && |x.tx| + x.txMissing == t.firsts
    && |x.procFirst| <= |x.tx|
    && |x.procBatch| == t.recent <= t.batches
    && t.batches + Pending(x.entries) <= t.stored
  }

  lemma StepAccounted(c: Params, x: Context, t: Tally, e: Event)
    requires Valid(c, x) && c.p.hwStamps && Accounted(c, x, t)
    ensures Accounted(c, Step(c, x, e), Count(c, x, t, e))
  {
    match e
    case Sent(b) =>
      PendingSame(x.entries, AfterBatch(c, x, b).entries);
    case Received(f, rxHw) =>
      StoreAddsPending(c, x, f, rxHw);
    case Completion(f, hwTs) =>
      CompletedCounts(c, x, f, hwTs);
      CompletedConsumes(c, x, f, hwTs);
      AtMostOneSample(c, x, f, hwTs);
    case Reset =>
  }

  /** A completion yields at most one ProcBatch sample, and a ProcFirst sample only along with a Tx latency. */
  lemma AtMostOneSample(c: Params, x: Context, seqNo: nat, hwTs: nat)
    requires Valid(c, x) && c.p.hwStamps
    ensures var r := Completed(c, x, seqNo, hwTs);
      && |x.procBatch| <= |r.procBatch| <= |x.procBatch| + 1
      && |r.procFirst| - |x.procFirst| <= |r.tx| - |x.tx|
  {
  }

  /** A run of events from the zeroed backlog. */
  ghost predicate Trace(c: Params, events: seq<Event>, xs: seq<Context>, ts: seq<Tally>)
    requires 0 < c.p.n
  {
    && |xs| == |ts| == |events| + 1
    && xs[0] == Context(seq(Length(c.p), _ => Entry(0, 0, 0)), [], 0, [], []) && ts[0] == Tally(0, 0, 0, 0)
    && forall i {:trigger events[i]} :: 0 <= i < |events| ==>
         Valid(c, xs[i]) && xs[i + 1] == Step(c, xs[i], events[i]) && ts[i + 1] == Count(c, xs[i], ts[i], events[i])
  }

  lemma {:induction false} PendingZero(k: nat)
    ensures Pending(seq(k, _ => Entry(0, 0, 0))) == 0
  {
    if k > 0 {
      PendingZero(k - 1);
      assert seq(k, _ => Entry(0, 0, 0))[..k - 1] == seq(k - 1, _ => Entry(0, 0, 0));
    }
  }

  /**
   In every run, in any order of sends, receptions, completions and resets: latencies plus misses are
   exactly the first-frame completions since the last reset, there are never more ProcFirst samples
   than latencies, and never more ProcBatch samples than Rx timestamps stored.
   */
  lemma {:induction false} EveryRunAccounted(c: Params, events: seq<Event>, xs: seq<Context>, ts: seq<Tally>, k: nat)
    requires 0 < c.p.n && c.p.hwStamps && Trace(c, events, xs, ts) && k <= |events|
    ensures Valid(c, xs[k]) && Accounted(c, xs[k], ts[k])
  {
    if k == 0 {
      PendingZero(Length(c.p));
    } else {
      EveryRunAccounted(c, events, xs, ts, k - 1);
      var e := events[k - 1];
      StepAccounted(c, xs[k - 1], ts[k - 1], e);
    }
  }

  /** A completion that reaches stat_frame_sent_latency and is skipped there as already consumed. */
  predicate Skipped(c: Params, x: Context, e: Event)
    requires Valid(c, x)
  {
    e.Completion? && CountsAsFirst(c, x, e.seqNo, e.hwTs) &&
    var i := Slot(c, e.seqNo);
    AlreadyProcessed(x.entries[i := x.entries[i].(hw := e.hwTs)][i])
  }

  /** A remark: no completion of a run takes that branch, because it has just stored a timestamp other than zero. */
  lemma NeverAlreadyProcessed(c: Params, events: seq<Event>, xs: seq<Context>, ts: seq<Tally>, k: nat)
    requires 0 < c.p.n && Trace(c, events, xs, ts) && k < |events|
    ensures Valid(c, xs[k]) && !Skipped(c, xs[k], events[k])
  {
    assert Valid(c, xs[k]) by {
      var _ := events[k];
    }
  }

  // ---------- which send time a completion reads ----------

  /** The batches sent in a run. */
  function SentSoFar(events: seq<Event>): (log: seq<Batch>)
  {
    if events == [] then [] else
    var before, last := SentSoFar(events[..|events| - 1]), events[|events| - 1];
    if last.Sent? then before + [last.b] else before
  }

  lemma CompletedKeepsSendTimes(c: Params, x: Context, seqNo: nat, hwTs: nat, k: nat)
    requires Valid(c, x) && k < Length(c.p)
    ensures Completed(c, x, seqNo, hwTs).entries[k].sw == x.entries[k].sw
  {
  }

  lemma StepSendTimes(c: Params, x: Context, e: Event, slot: nat)
    requires Valid(c, x) && slot < Length(c.p)
    ensures Step(c, x, e).entries[slot].sw ==
      if e.Sent? && Hits(c.p, e.b, slot) then e.b.now else x.entries[slot].sw
  {
    match e
    case Sent(b) =>
    case Received(f, rxHw) =>
    case Completion(f, hwTs) => CompletedKeepsSendTimes(c, x, f, hwTs, slot);
    case Reset =>
  }

  /** In every run each slot holds the time of the latest batch sent so far that wrote it. */
  lemma {:induction false} TraceSendTimes(c: Params, events: seq<Event>, xs: seq<Context>, ts: seq<Tally>,
                                          k: nat, slot: nat)
    requires 0 < c.p.n && Trace(c, events, xs, ts) && k <= |events| && slot < Length(c.p)
    ensures Valid(c, xs[k]) && xs[k].entries[slot].sw == LatestTime(c.p, SentSoFar(events[..k]), slot)
  {
    if k > 0 {
      TraceSendTimes(c, events, xs, ts, k - 1, slot);
      var e := events[k - 1];
      StepSendTimes(c, xs[k - 1], e, slot);
      assert events[..k][..k - 1] == events[..k - 1];
      var before := SentSoFar(events[..k - 1]);
      if e.Sent? {
        assert (before + [e.b])[..|before|] == before;
      }
    }
  }

  lemma {:induction false} SentPrefix(events: seq<Event>, k: nat)
    requires k <= |events|
    ensures SentSoFar(events[..k]) <= SentSoFar(events)
    decreases |events|
  {
    if k < |events| {
      SentPrefix(events[..|events| - 1], k);
      assert events[..|events| - 1][..k] == events[..k];
    } else {
      assert events[..k] == events;
    }
  }

  /**
   In every run whose batches are recorded at different times, a completion of frame `f`, whose number comes
   from the counters in the frame and wraps after 2^32 cycles, reads the time of the batch `o` that sent the first
   frame of its cycle if and only if that batch comes before the completion in the run and no batch in between
   wrote the same slot.
   */
  lemma {:induction false} CompletionReadsOwnBatch(c: Params, events: seq<Event>, xs: seq<Context>, ts: seq<Tally>,
                                                   k: nat, o: nat, f: nat)
    requires 0 < c.p.n <= TWO32 && c.p.hwStamps && Trace(c, events, xs, ts) && k < |events| && events[k].Completion?
    requires events[k].seqNo == MetaData.DecodeCounter(MetaData.EncodeCounter(f, c.p.n), c.p.n)
    requires var log := SentSoFar(events);
      ClockRuns(log) && o < |log| && Covers(log[o], CycleStart(c.p, f))
    ensures var log, slot := SentSoFar(events), Slot(c, events[k].seqNo);
      && Valid(c, xs[k]) && |SentSoFar(events[..k])| <= |log|
      && (xs[k].entries[slot].sw == log[o].now <==> LastToHit(c.p, log, slot, o, |SentSoFar(events[..k])|))
  {
    var log, slot := SentSoFar(events), Slot(c, events[k].seqNo);
    var sent := SentSoFar(events[..k]);
    SentPrefix(events, k);
    assert log[..|sent|] == sent;
    TraceSendTimes(c, events, xs, ts, k, slot);
    SlotsAgree(c.p, f);
    KeyIsRecorded(c.p, f);
    assert Hits(c.p, log[o], slot);
    LatestTimeExactly(c.p, log, slot, o, |sent|);
  }

  /** A completion that comes before its batch is recorded, in the first cycle: it is ignored for good. */
  lemma {:induction false} EarlyCompletion(c: Params, hwTs: nat) returns (xs: seq<Context>, ts: seq<Tally>)
    requires 0 < c.p.n && c.p.hwStamps
    ensures Trace(c, [Completion(0, hwTs), Sent(Batch(0, c.p.n, 5))], xs, ts)
    ensures Valid(c, xs[0]) && xs[0].entries[Slot(c, 0)].sw == 0
    ensures Valid(c, xs[2]) && xs[2].entries[Slot(c, 0)].sw == 5
    ensures xs[2].tx == [] && xs[2].txMissing == 0
  {
    var e0, e1 := Completion(0, hwTs), Sent(Batch(0, c.p.n, 5));
    var x0, t0 := Context(seq(Length(c.p), _ => Entry(0, 0, 0)), [], 0, [], []), Tally(0, 0, 0, 0);
    var x1, t1 := Step(c, x0, e0), Count(c, x0, t0, e0);
    assert x1 == x0;
    var x2, t2 := Step(c, x1, e1), Count(c, x1, t1, e1);
    xs, ts := [x0, x1, x2], [t0, t1, t2];
    CycleStartFacts(c.p, 0);
    SlotInRange(c.p, 0);
    StepSendTimes(c, x1, e1, Slot(c, 0));
    assert Covers(e1.b, 0) && Recorded(c.p, 0) && 0 % Length(c.p) == Slot(c, 0);
  }

  // ---------- from reception to sample ----------

  /** The events that may change the Rx timestamp of a slot: another first frame, or a last-frame completion. */
  predicate Touches(c: Params, e: Event, slot: nat)
    requires 0 < c.p.n
  {
    match e
    case Sent(_) => false
    case Received(f, rxHw) => f % c.p.n == 0 && rxHw != 0 && Slot(c, f) == slot
    case Completion(f, _) => f % c.p.n != 0 && f % c.p.n == c.p.n - 1 && Slot(c, f) == slot
    case Reset => false
  }

  lemma StepKeepsRxTimestamp(c: Params, x: Context, e: Event, slot: nat)
    requires Valid(c, x) && slot < Length(c.p) && !Touches(c, e, slot)
    ensures Step(c, x, e).entries[slot].rxHw == x.entries[slot].rxHw
  {
  }

  /** All frames of a cycle share the slot of its first frame. */
  lemma SharedSlot(c: Params, g: nat, f: nat)
    requires 0 < c.p.n && g % c.p.n == 0 && g <= f < g + c.p.n
    ensures Slot(c, f) == Slot(c, g)
  {
    CycleStartFacts(c.p, g);
    DivModFacts(g, c.p.n);
    DivModUnique(f, c.p.n, g / c.p.n, f - g);
  }

  /** The measurement is on: the mirror's latency log, hardware Tx timestamps, Rx timestamps. */
  predicate Measures(c: Params)
  {
    c.log.TxTimestamps? && c.p.hwStamps && c.haveRx
  }

  /**
   In every run: once the first frame `g` of a cycle has been received with a hardware timestamp, the slot of every
   frame of that cycle holds it, until a last-frame completion or a later first frame takes the slot.
   */
  lemma {:induction false} RxTimestampStays(c: Params, events: seq<Event>, xs: seq<Context>, ts: seq<Tally>,
                                            i: nat, k: nat, g: nat, rxHw: nat, f: nat)
    requires 0 < c.p.n && Measures(c) && Trace(c, events, xs, ts) && i < k <= |events|
    requires events[i] == Received(g, rxHw) && g % c.p.n == 0 && rxHw != 0 && g <= f < g + c.p.n
    requires forall m :: i < m < k ==> !Touches(c, events[m], Slot(c, g))
    ensures Valid(c, xs[k]) && xs[k].entries[Slot(c, f)].rxHw == rxHw
  {
    SharedSlot(c, g, f);
    var e := events[k - 1];
    assert Valid(c, xs[k - 1]) && xs[k] == Step(c, xs[k - 1], e);
    if i < k - 1 {
      RxTimestampStays(c, events, xs, ts, i, k - 1, g, rxHw, f);
      StepKeepsRxTimestamp(c, xs[k - 1], e, Slot(c, g));
    }
  }

  /**
   Hence a later completion of the cycle's last frame, above the send time and the stored Rx timestamp, takes exactly
   one ProcBatch sample, the time from reception to transmission, and uses the timestamp up; a completion of its
   first frame takes exactly one ProcFirst sample and leaves the timestamp.
   */
  lemma {:induction false} SampleTaken(c: Params, events: seq<Event>, xs: seq<Context>, ts: seq<Tally>,
                                       i: nat, k: nat, g: nat, rxHw: nat, f: nat)
    requires 0 < c.p.n && Measures(c) && Trace(c, events, xs, ts) && i < k < |events|
    requires events[i] == Received(g, rxHw) && g % c.p.n == 0 && rxHw != 0 && g <= f < g + c.p.n
    requires forall m :: i < m < k ==> !Touches(c, events[m], Slot(c, g))
    requires events[k].Completion? && events[k].seqNo == f
    requires Valid(c, xs[k]) && 0 < xs[k].entries[Slot(c, f)].sw < events[k].hwTs && rxHw < events[k].hwTs
    ensures Valid(c, xs[k + 1])
    ensures xs[k + 1].procFirst
         == xs[k].procFirst + if f == g then [(events[k].hwTs - rxHw) / 1000] else []
    ensures xs[k + 1].procBatch
         == xs[k].procBatch + if f != g && f == g + c.p.n - 1 then [(events[k].hwTs - rxHw) / 1000] else []
    ensures xs[k + 1].entries[Slot(c, f)].rxHw == if f != g && f == g + c.p.n - 1 then 0 else rxHw
  {
    RxTimestampStays(c, events, xs, ts, i, k, g, rxHw, f);
    var e := events[k];
    assert xs[k + 1] == Step(c, xs[k], e);
    assert e == Completion(f, e.hwTs);
    DivModFacts(g, c.p.n);
    DivModUnique(f, c.p.n, g / c.p.n, f - g);
    OneSample(c, xs[k], f, e.hwTs);
  }

  lemma OneSample(c: Params, x: Context, f: nat, hwTs: nat)
    requires Valid(c, x) && Measures(c)
    requires var e := x.entries[Slot(c, f)]; 0 < e.sw < hwTs && 0 < e.rxHw < hwTs
    ensures var r, o := Completed(c, x, f, hwTs), f % c.p.n;
      var us := (hwTs - x.entries[Slot(c, f)].rxHw) / 1000;
      && r.procFirst == x.procFirst + (if o == 0 then [us] else [])
      && r.procBatch == x.procBatch + (if o != 0 && o == c.p.n - 1 then [us] else [])
      && r.entries[Slot(c, f)].rxHw == if o != 0 && o == c.p.n - 1 then 0 else x.entries[Slot(c, f)].rxHw
  {
  }

  /** If the measurement is off, no Rx timestamp is ever stored and no sample taken. */
  lemma {:induction false} NothingMeasured(c: Params, events: seq<Event>, xs: seq<Context>, ts: seq<Tally>,
                                           k: nat, slot: nat)
    requires 0 < c.p.n && !Measures(c) && Trace(c, events, xs, ts) && k <= |events| && slot < Length(c.p)
    ensures Valid(c, xs[k]) && xs[k].entries[slot].rxHw == 0
  {
    if k > 0 {
      NothingMeasured(c, events, xs, ts, k - 1, slot);
      var e := events[k - 1];
      assert xs[k] == Step(c, xs[k - 1], e);
    }
  }

  // ---------- the code ----------

  class RoundTripContext {
    const c: Params
    const backlog: array<Entry>
    var tx: seq<nat>
    var txMissing: nat
    var procFirst: seq<nat>
    var procBatch: seq<nat>

    ghost function View(): (x: Context)
      reads this, backlog
    {
      Context(backlog[..], tx, txMissing, procFirst, procBatch)
    }

    constructor (c: Params)
      requires 0 < c.p.n
      ensures this.c == c && fresh(backlog) && Valid(c, View())
      ensures View() == Context(seq(Length(c.p), _ => Entry(0, 0, 0)), [], 0, [], [])
    {
      this.c := c;
      backlog := new Entry[Length(c.p)](_ => Entry(0, 0, 0));
      tx, txMissing, procFirst, procBatch := [], 0, [], [];
      new;
      assert backlog[..] == seq(Length(c.p), _ => Entry(0, 0, 0));
    }

    method FrameReceived(seqNo: nat, rxHw: nat)
      requires Valid(c, View())
      modifies this, backlog
      ensures View() == StoreRx(c, old(View()), seqNo, rxHw)
    {
      if c.log.TxTimestamps? && c.p.hwStamps && c.haveRx && rxHw != 0 {
        if seqNo % c.p.n == 0 {
          var idx := Slot(c, seqNo);
          backlog[idx] := backlog[idx].(rxHw := rxHw);
        }
      }
    }

    method FrameSentLatency(idx: nat)
      requires Valid(c, View()) && idx < Length(c.p)
      modifies this, backlog
      ensures View() == SentLatency(c, old(View()), idx)
    {
      var sw, hw := backlog[idx].sw, backlog[idx].hw;
      if !c.p.hwStamps {
        return;
      }
      if sw != 0 && hw == 0 {
        return;
      }
      if hw > sw {
        var latency := (hw - sw) / 1000;
        tx := tx + [latency];
        backlog[idx] := backlog[idx].(hw := 0);
      } else {
        txMissing := txMissing + 1;
      }
    }

    method ProcFirstLatency(idx: nat, hwTs: nat)
      requires Valid(c, View()) && idx < Length(c.p)
      modifies this
      ensures View() == ProcFirst(c, old(View()), idx, hwTs)
    {
      var rxHw := backlog[idx].rxHw;
      if !c.haveRx || !c.p.hwStamps {
        return;
      }
      if rxHw == 0 || hwTs == 0 {
        return;
      }
      if hwTs > rxHw {
        procFirst := procFirst + [(hwTs - rxHw) / 1000];
      }
    }

    method ProcBatchLatency(idx: nat, hwTs: nat)
      requires Valid(c, View()) && idx < Length(c.p)
      modifies this, backlog
      ensures View() == ProcBatch(c, old(View()), idx, hwTs)
    {
      var rxHw := backlog[idx].rxHw;
      backlog[idx] := backlog[idx].(rxHw := 0);
      if !c.haveRx || !c.p.hwStamps {
        return;
      }
      if rxHw == 0 || hwTs == 0 {
        return;
      }
      if hwTs > rxHw {
        procBatch := procBatch + [(hwTs - rxHw) / 1000];
      }
    }

    /** One pass of the loop that drains completions. */
    method ProcessCompletion(seqNo: nat, hwTs: nat)
      requires Valid(c, View())
      modifies this, backlog
      ensures View() == Completed(c, old(View()), seqNo, hwTs)
    {
      if hwTs == 0 {
        return;
      }
      var frameInCycle := seqNo % c.p.n;
      var isFirst, isLast := frameInCycle == 0, frameInCycle == c.p.n - 1;
      var idx := Slot(c, seqNo);
      if backlog[idx].sw == 0 {
        return;
      }
      if isFirst {
        backlog[idx] := backlog[idx].(hw := hwTs);
        FrameSentLatency(idx);
      }
      assert View() == AfterLatency(c, old(View()), seqNo, hwTs);
      if c.log.TxTimestamps? && c.haveRx && hwTs > backlog[idx].sw {
        if isFirst {
          ProcFirstLatency(idx, hwTs);
        } else if isLast {
          ProcBatchLatency(idx, hwTs);
        }
      }
    }
  }
}
