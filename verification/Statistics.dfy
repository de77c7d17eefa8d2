/**
 Statistics of one traffic class: a global record that grows until the user resets it, and a record
 of the current collection interval that is published and cleared at the end of the interval.
 Sums are integers; averages are not kept.
 */
module Statistics {
  import opened Words
  import Backlog
  import H = Histogram

  const INT64_MAX: nat := 0x7fff_ffff_ffff_ffff
  const INT64_MIN: int := -0x8000_0000_0000_0000

  // ---------- a latency measurement ----------

  datatype Latency = Latency(min: int, max: int, count: nat, sum: int)

  function Sample(l: Latency, v: int): (r: Latency)
  {
    Latency(if v < l.min then v else l.min, if v > l.max then v else l.max, l.count + 1, l.sum + v)
  }

  function MergeLatency(a: Latency, b: Latency): (r: Latency)
  {
    Latency(if b.min < a.min then b.min else a.min, if b.max > a.max then b.max else a.max,
            a.count + b.count, a.sum + b.sum)
  }

  // ---------- the record ----------

  datatype Stat = Stat(
    framesSent: nat, framesReceived: nat, outOfOrder: nat, frameIdErrors: nat, payloadErrors: nat,
    roundTripOutliers: nat, onewayOutliers: nat, procFirstOutliers: nat, procBatchOutliers: nat, txMissing: nat,
    roundTrip: Latency, oneway: Latency, rx: Latency, rxHw2Sw: Latency, rxSw2App: Latency,
    tx: Latency, procFirst: Latency, procBatch: Latency)

  const EMPTY_UNSIGNED: Latency := Latency(TWO64 - 1, 0, 0, 0)
  const EMPTY_SIGNED: Latency := Latency(INT64_MAX, INT64_MIN, 0, 0)

  /** stat_reset. */
  const EMPTY: Stat := Stat(
    0, 0, 0, 0, 0, 0, 0, 0, 0, 0,
    EMPTY_UNSIGNED, EMPTY_SIGNED, EMPTY_UNSIGNED, EMPTY_UNSIGNED, EMPTY_UNSIGNED,
    EMPTY_UNSIGNED, EMPTY_UNSIGNED, EMPTY_UNSIGNED)

  function Merge(a: Stat, b: Stat): (r: Stat)
  {
    Stat(
      a.framesSent + b.framesSent, a.framesReceived + b.framesReceived, a.outOfOrder + b.outOfOrder,
      a.frameIdErrors + b.frameIdErrors, a.payloadErrors + b.payloadErrors,
      a.roundTripOutliers + b.roundTripOutliers, a.onewayOutliers + b.onewayOutliers,
      a.procFirstOutliers + b.procFirstOutliers, a.procBatchOutliers + b.procBatchOutliers, a.txMissing + b.txMissing,
      MergeLatency(a.roundTrip, b.roundTrip), MergeLatency(a.oneway, b.oneway), MergeLatency(a.rx, b.rx),
      MergeLatency(a.rxHw2Sw, b.rxHw2Sw), MergeLatency(a.rxSw2App, b.rxSw2App),
      MergeLatency(a.tx, b.tx), MergeLatency(a.procFirst, b.procFirst), MergeLatency(a.procBatch, b.procBatch))
  }

  // ---------- what is measured ----------

  /** C division truncates towards zero. */
  function TruncDiv(x: int, d: nat): int
    requires 0 < d
  {
    if x >= 0 then x / d else -((-x) / d)
  }

  function Signed(x: nat): int
  {
    if x <= INT64_MAX then x else x - TWO64
  }

  /** One received frame: clock reading, send time from the backlog and from the frame, Rx timestamps, errors. */
  datatype Frame = Frame(
    now: nat, sentAt: nat, txTimestamp: nat, rxHw: nat, rxSw: nat,
    outOfOrder: bool, payloadMismatch: bool, frameIdMismatch: bool)

  datatype RxTimes = RxTimes(hw2app: nat, hw2sw: nat, sw2app: nat)

  /** Hardware to software to application; unavailable or unordered timestamps give zero. */
  function RxSplit(f: Frame): (t: RxTimes)
  {
    if f.rxHw != 0 && f.rxSw != 0 && f.rxHw <= f.rxSw <= f.now
    then RxTimes((f.now - f.rxHw) / 1000, (f.rxSw - f.rxHw) / 1000, (f.now - f.rxSw) / 1000)
    else RxTimes(0, 0, 0)
  }

  /** Reference mode, real time class, round trip limit and cycle time in microseconds, histogram enabled. */
  datatype Params = Params(reference: bool, realTime: bool, limit: nat, cycleUs: nat, histogram: bool)

  function RoundTrip(c: Params, f: Frame): (rtt: nat)
  {
    if c.reference then Backlog.RoundTripTime(f.now, f.sentAt) else 0
  }

  function ReceivedRoundTrip(c: Params, s: Stat, f: Frame): (r: Stat)
  {
    if !c.reference then s else
    var rtt := RoundTrip(c, f);
    s.(roundTripOutliers := s.roundTripOutliers + Bit(c.realTime && rtt > c.limit),
       roundTrip := Sample(s.roundTrip, rtt))
  }

  function ReceivedOneway(c: Params, s: Stat, f: Frame): (r: Stat)
  {
    var oneway := TruncDiv(Signed(f.now) - Signed(f.txTimestamp), 1000);
    s.(onewayOutliers := s.onewayOutliers + Bit(c.realTime && oneway > c.limit / 2), oneway := Sample(s.oneway, oneway))
  }

  function ReceivedRx(s: Stat, f: Frame): (r: Stat)
  {
    var t := RxSplit(f);
    if t.hw2app != 0 && t.hw2sw != 0 && t.sw2app != 0
    then s.(rx := Sample(s.rx, t.hw2app), rxHw2Sw := Sample(s.rxHw2Sw, t.hw2sw),
            rxSw2App := Sample(s.rxSw2App, t.sw2app))
    else s
  }

  function ReceivedErrors(s: Stat, f: Frame): (r: Stat)
  {
    s.(framesReceived := s.framesReceived + 1, outOfOrder := s.outOfOrder + Bit(f.outOfOrder),
       payloadErrors := s.payloadErrors + Bit(f.payloadMismatch),
       frameIdErrors := s.frameIdErrors + Bit(f.frameIdMismatch))
  }

  /** stat_frame_received_common. */
  function Received(c: Params, s: Stat, f: Frame): (r: Stat)
  {
    ReceivedErrors(ReceivedRx(ReceivedOneway(c, ReceivedRoundTrip(c, s, f), f), f), f)
  }

  datatype Event =
    | FramesSent(count: nat)
    | FrameReceived(frame: Frame)
    | TxLatency(us: nat)
    | TxMiss
    | ProcFirst(us: nat)
    | ProcBatch(us: nat)

  function Record(c: Params, s: Stat, e: Event): (r: Stat)
  {
    match e
    case FramesSent(k) => s.(framesSent := s.framesSent + k)
    case FrameReceived(f) => Received(c, s, f)
    case TxLatency(us) => s.(tx := Sample(s.tx, us))
    case TxMiss => s.(txMissing := s.txMissing + 1)
    case ProcFirst(us) =>
      s.(procFirstOutliers := s.procFirstOutliers + Bit(us > c.cycleUs), procFirst := Sample(s.procFirst, us))
    case ProcBatch(us) =>
      s.(procBatchOutliers := s.procBatchOutliers + Bit(us > c.cycleUs), procBatch := Sample(s.procBatch, us))
  }

  // ---------- merging and recording commute ----------

  lemma SampleMerged(a: Latency, b: Latency, v: int)
    ensures Sample(MergeLatency(a, b), v) == MergeLatency(a, Sample(b, v))
  {
  }

  lemma RoundTripMerged(c: Params, a: Stat, b: Stat, f: Frame)
    ensures ReceivedRoundTrip(c, Merge(a, b), f) == Merge(a, ReceivedRoundTrip(c, b, f))
  {
    SampleMerged(a.roundTrip, b.roundTrip, RoundTrip(c, f));
  }

  lemma OnewayMerged(c: Params, a: Stat, b: Stat, f: Frame)
    ensures ReceivedOneway(c, Merge(a, b), f) == Merge(a, ReceivedOneway(c, b, f))
  {
    SampleMerged(a.oneway, b.oneway, TruncDiv(Signed(f.now) - Signed(f.txTimestamp), 1000));
  }

  lemma RxMerged(a: Stat, b: Stat, f: Frame)
    ensures ReceivedRx(Merge(a, b), f) == Merge(a, ReceivedRx(b, f))
  {
    var t := RxSplit(f);
    SampleMerged(a.rx, b.rx, t.hw2app);
    SampleMerged(a.rxHw2Sw, b.rxHw2Sw, t.hw2sw);
    SampleMerged(a.rxSw2App, b.rxSw2App, t.sw2app);
  }

  lemma ErrorsMerged(a: Stat, b: Stat, f: Frame)
    ensures ReceivedErrors(Merge(a, b), f) == Merge(a, ReceivedErrors(b, f))
  {
  }

  lemma ReceivedMerged(c: Params, a: Stat, b: Stat, f: Frame)
    ensures Received(c, Merge(a, b), f) == Merge(a, Received(c, b, f))
  {
    RoundTripMerged(c, a, b, f);
    var b1 := ReceivedRoundTrip(c, b, f);
    OnewayMerged(c, a, b1, f);
    var b2 := ReceivedOneway(c, b1, f);
    RxMerged(a, b2, f);
    ErrorsMerged(a, ReceivedRx(b2, f), f);
  }

  /** Recording into a merged record is recording into its last part. */
  lemma RecordMerged(c: Params, a: Stat, b: Stat, e: Event)
    ensures Record(c, Merge(a, b), e) == Merge(a, Record(c, b, e))
  {
    match e
    case FramesSent(k) =>
    case FrameReceived(f) => ReceivedMerged(c, a, b, f);
    case TxLatency(us) => SampleMerged(a.tx, b.tx, us);
    case TxMiss =>
    case ProcFirst(us) => SampleMerged(a.procFirst, b.procFirst, us);
    case ProcBatch(us) => SampleMerged(a.procBatch, b.procBatch, us);
  }

  /** All published intervals together. */
  function MergeAll(periods: seq<Stat>): (s: Stat)
  {
    if periods == [] then EMPTY else Merge(MergeAll(periods[..|periods| - 1]), periods[|periods| - 1])
  }

  predicate WithinEmpty(s: Stat)
  {
    && s.roundTrip.min < TWO64 && s.roundTrip.max >= 0 && s.oneway.min <= INT64_MAX && s.oneway.max >= INT64_MIN
    && s.rx.min < TWO64 && s.rx.max >= 0 && s.rxHw2Sw.min < TWO64 && s.rxHw2Sw.max >= 0
    && s.rxSw2App.min < TWO64 && s.rxSw2App.max >= 0 && s.tx.min < TWO64 && s.tx.max >= 0
    && s.procFirst.min < TWO64 && s.procFirst.max >= 0 && s.procBatch.min < TWO64 && s.procBatch.max >= 0
  }

  lemma {:induction false} MergeAllWithin(periods: seq<Stat>)
    ensures WithinEmpty(MergeAll(periods))
  {
    if periods != [] {
      MergeAllWithin(periods[..|periods| - 1]);
    }
  }

  lemma MergeEmpty(s: Stat)
    requires WithinEmpty(s)
    ensures Merge(s, EMPTY) == s
  {
  }

  // ---------- intervals and resets ----------

  /**
   Records, the snapshots taken for the loggers, the intervals published since the last reset, last_ts, and
   every round trip time handed to the histogram.
   */
  datatype Engine = Engine(
    global: Stat, period: Stat, globalLog: Stat, periodLog: Stat, published: seq<Stat>, lastTs: nat,
    histogram: seq<nat>)

  /** An event is recorded globally and in the interval; a tick of the clock may close the interval. */
  datatype Action = Happens(e: Event) | Tick(now: nat, reset: bool)

  /** The interval since `lastTs` is over; zero stands for a clock that has not been read yet. */
  predicate Over(lastTs: nat, now: nat, interval: nat)
  {
    U64(now - (if lastTs == 0 then now else lastTs)) >= interval
  }

  predicate Due(x: Engine, now: nat, interval: nat)
  {
    Over(x.lastTs, now, interval)
  }

  /** stat_update with the MQTT log. */
  function Ticked(x: Engine, interval: nat, now: nat, reset: bool): (r: Engine)
  {
    if !Due(x, now, interval) then x.(lastTs := if x.lastTs == 0 then now else x.lastTs)
    else Engine(
      if reset then EMPTY else x.global, EMPTY, x.global, x.period,
      if reset then [] else x.published + [x.period], now, x.histogram)
  }

  /** What an event hands to the histogram. */
  function ForHistogram(c: Params, e: Event): (s: seq<nat>)
  {
    if c.histogram && c.reference && e.FrameReceived? then [RoundTrip(c, e.frame)] else []
  }

  function Happened(c: Params, x: Engine, e: Event): (r: Engine)
  {
    x.(global := Record(c, x.global, e), period := Record(c, x.period, e),
       histogram := x.histogram + ForHistogram(c, e))
  }

  function Step(c: Params, interval: nat, x: Engine, a: Action): (r: Engine)
  {
    match a
    case Happens(e) => Happened(c, x, e)
    case Tick(now, reset) => Ticked(x, interval, now, reset)
  }

  function Run(c: Params, interval: nat, actions: seq<Action>): (x: Engine)
  {
    if actions == [] then Engine(EMPTY, EMPTY, EMPTY, EMPTY, [], 0, [])
    else Step(c, interval, Run(c, interval, actions[..|actions| - 1]), actions[|actions| - 1])
  }

  /** `whole` is what the published intervals and the current one add up to. */
  predicate AddsUp(whole: Stat, published: seq<Stat>, period: Stat)
  {
    whole == Merge(MergeAll(published), period)
  }

  lemma RecordAddsUp(c: Params, whole: Stat, published: seq<Stat>, period: Stat, e: Event)
    requires AddsUp(whole, published, period)
    ensures AddsUp(Record(c, whole, e), published, Record(c, period, e))
  {
    RecordMerged(c, MergeAll(published), period, e);
  }

  lemma PublishAddsUp(whole: Stat, published: seq<Stat>, period: Stat)
    requires AddsUp(whole, published, period)
    ensures whole == MergeAll(published + [period])
    ensures AddsUp(whole, published + [period], EMPTY)
  {
    assert (published + [period])[..|published|] == published;
    MergeAllWithin(published + [period]);
    MergeEmpty(MergeAll(published + [period]));
  }

  lemma ResetAddsUp()
    ensures AddsUp(EMPTY, [], EMPTY)
  {
    MergeEmpty(EMPTY);
  }

  predicate Conserved(x: Engine)
  {
    AddsUp(x.global, x.published, x.period)
  }

  lemma TickConserves(interval: nat, x: Engine, now: nat, reset: bool)
    requires Conserved(x)
    ensures Conserved(Ticked(x, interval, now, reset))
  {
    if Due(x, now, interval) {
      if reset {
        ResetAddsUp();
      } else {
        PublishAddsUp(x.global, x.published, x.period);
      }
    }
  }

  lemma HappensConserves(c: Params, x: Engine, e: Event)
    requires Conserved(x)
    ensures Conserved(Happened(c, x, e))
  {
    RecordAddsUp(c, x.global, x.published, x.period, e);
  }

  lemma StepConserves(c: Params, interval: nat, x: Engine, a: Action)
    requires Conserved(x)
    ensures Conserved(Step(c, interval, x, a))
  {
    match a
    case Happens(e) => HappensConserves(c, x, e);
    case Tick(now, reset) => TickConserves(interval, x, now, reset);
  }

  /**
   In every run, every counter, count, sum, minimum and maximum of the global record is that of the
   intervals published since the last reset together with the interval in progress.
   */
  lemma {:induction false} EveryRunConserves(c: Params, interval: nat, actions: seq<Action>)
    ensures Conserved(Run(c, interval, actions))
  {
    if actions == [] {
      ResetAddsUp();
    } else {
      EveryRunConserves(c, interval, actions[..|actions| - 1]);
      StepConserves(c, interval, Run(c, interval, actions[..|actions| - 1]), actions[|actions| - 1]);
    }
  }

  /**
   When an interval is published, the global record handed to the loggers is the merge of all intervals
   published since the last reset, this one included, whether or not a reset is served with it.
   */
  lemma SnapshotsAgree(c: Params, interval: nat, actions: seq<Action>, now: nat, reset: bool)
    ensures var x := Run(c, interval, actions);
      var r := Ticked(x, interval, now, reset);
      Due(x, now, interval) ==>
        && r.globalLog == MergeAll(x.published + [x.period]) && r.periodLog == x.period
        && r.global == (if reset then EMPTY else r.globalLog) && r.period == EMPTY
        && MergeAll(r.published) == r.global && r.lastTs == now
    ensures var x := Run(c, interval, actions);
      !Due(x, now, interval) ==>
        Ticked(x, interval, now, reset) == if x.lastTs == 0 then x.(lastTs := now) else x
  {
    EveryRunConserves(c, interval, actions);
    var x := Run(c, interval, actions);
    assert (x.published + [x.period])[..|x.published|] == x.published;
  }

  // ---------- Rx latencies ----------

  /** Rounding each part down loses at most one microsecond per frame. */
  predicate SplitAddsUp(s: Stat)
  {
    && s.rxHw2Sw.count == s.rx.count == s.rxSw2App.count
    && s.rxHw2Sw.sum + s.rxSw2App.sum <= s.rx.sum <= s.rxHw2Sw.sum + s.rxSw2App.sum + s.rx.count
  }

  lemma FloorSplit(f: Frame)
    ensures var t := RxSplit(f); t.hw2sw + t.sw2app <= t.hw2app <= t.hw2sw + t.sw2app + 1
  {
  }

  lemma RecordKeepsSplit(c: Params, s: Stat, e: Event)
    requires SplitAddsUp(s)
    ensures SplitAddsUp(Record(c, s, e))
  {
    if e.FrameReceived? {
      FloorSplit(e.frame);
    }
  }

  /** In every run the sums of the two Rx parts bound the sum of the whole, to one microsecond per frame. */
  lemma {:induction false} EveryRunSplits(c: Params, interval: nat, actions: seq<Action>)
    ensures SplitAddsUp(Run(c, interval, actions).global) && SplitAddsUp(Run(c, interval, actions).period)
  {
    if actions != [] {
      EveryRunSplits(c, interval, actions[..|actions| - 1]);
      var x, a := Run(c, interval, actions[..|actions| - 1]), actions[|actions| - 1];
      if a.Happens? {
        RecordKeepsSplit(c, x.global, a.e);
        RecordKeepsSplit(c, x.period, a.e);
      }
    }
  }

  // ---------- what the records mean ----------

  datatype Kind = OfRoundTrip | OfOneway | OfRx | OfRxHw2Sw | OfRxSw2App | OfTx | OfProcFirst | OfProcBatch

  function LatencyOf(s: Stat, k: Kind): Latency
  {
    match k
    case OfRoundTrip => s.roundTrip
    case OfOneway => s.oneway
    case OfRx => s.rx
    case OfRxHw2Sw => s.rxHw2Sw
    case OfRxSw2App => s.rxSw2App
    case OfTx => s.tx
    case OfProcFirst => s.procFirst
    case OfProcBatch => s.procBatch
  }

  /** Both Rx timestamps are there, in order, and each part takes at least a microsecond. */
  predicate RxKnown(f: Frame)
  {
    0 < f.rxHw && 0 < f.rxSw && f.rxHw + 1000 <= f.rxSw && f.rxSw + 1000 <= f.now
  }

  /** Microseconds from `earlier` to `later`, rounded towards zero, for clock readings of 64 bits. */
  function SignedMicroseconds(earlier: nat, later: nat): int
  {
    var d := (if later >= TWO64 / 2 then later - TWO64 else later)
           - (if earlier >= TWO64 / 2 then earlier - TWO64 else earlier);
    if d < 0 then -(-d / 1000) else d / 1000
  }

  /** The values, at most one, that an event contributes to a latency, stated on the fields of the frame. */
  function Contribution(c: Params, e: Event, k: Kind): (v: seq<int>)
    ensures |v| <= 1
  {
    match e
    case FrameReceived(f) =>
      if k.OfRoundTrip? && c.reference then [if f.sentAt == 0 then 0 else U64(f.now - f.sentAt) / 1000]
      else if k.OfOneway? then [SignedMicroseconds(f.txTimestamp, f.now)]
      else if k.OfRx? && RxKnown(f) then [(f.now - f.rxHw) / 1000]
      else if k.OfRxHw2Sw? && RxKnown(f) then [(f.rxSw - f.rxHw) / 1000]
      else if k.OfRxSw2App? && RxKnown(f) then [(f.now - f.rxSw) / 1000]
      else []
    case TxLatency(us) => if k.OfTx? then [us] else []
    case ProcFirst(us) => if k.OfProcFirst? then [us] else []
    case ProcBatch(us) => if k.OfProcBatch? then [us] else []
    case FramesSent(_) => []
    case TxMiss => []
  }

  function Values(c: Params, events: seq<Event>, k: Kind): (v: seq<int>)
  {
    if events == [] then [] else Values(c, events[..|events| - 1], k) + Contribution(c, events[|events| - 1], k)
  }

  datatype Counter = Sent | Arrived | OutOfOrder | FrameId | Payload | RoundTripOutlier | OnewayOutlier
    | ProcFirstOutlier | ProcBatchOutlier | Missing

  function CounterOf(s: Stat, k: Counter): nat
  {
    match k
    case Sent => s.framesSent
    case Arrived => s.framesReceived
    case OutOfOrder => s.outOfOrder
    case FrameId => s.frameIdErrors
    case Payload => s.payloadErrors
    case RoundTripOutlier => s.roundTripOutliers
    case OnewayOutlier => s.onewayOutliers
    case ProcFirstOutlier => s.procFirstOutliers
    case ProcBatchOutlier => s.procBatchOutliers
    case Missing => s.txMissing
  }

  /** How much an event adds to a counter. Outliers exist for real time classes only. */
  function Increment(c: Params, e: Event, k: Counter): nat
  {
    match k
    case Sent => if e.FramesSent? then e.count else 0
    case Arrived => Bit(e.FrameReceived?)
    case OutOfOrder => Bit(e.FrameReceived? && e.frame.outOfOrder)
    case FrameId => Bit(e.FrameReceived? && e.frame.frameIdMismatch)
    case Payload => Bit(e.FrameReceived? && e.frame.payloadMismatch)
    case RoundTripOutlier =>
      Bit(c.realTime && c.reference && e.FrameReceived? && Contribution(c, e, OfRoundTrip)[0] > c.limit)
    case OnewayOutlier =>
      Bit(c.realTime && e.FrameReceived? && Contribution(c, e, OfOneway)[0] > c.limit / 2)
    case ProcFirstOutlier => Bit(e.ProcFirst? && e.us > c.cycleUs)
    case ProcBatchOutlier => Bit(e.ProcBatch? && e.us > c.cycleUs)
    case Missing => Bit(e.TxMiss?)
  }

  function Increments(c: Params, events: seq<Event>, k: Counter): (n: nat)
  {
    if events == [] then 0 else Increments(c, events[..|events| - 1], k) + Increment(c, events[|events| - 1], k)
  }

  function RecordAll(c: Params, events: seq<Event>): (s: Stat)
  {
    if events == [] then EMPTY else Record(c, RecordAll(c, events[..|events| - 1]), events[|events| - 1])
  }

  lemma RxSplitExactly(f: Frame)
    ensures var t := RxSplit(f);
      && (RxKnown(f) <==> t.hw2app != 0 && t.hw2sw != 0 && t.sw2app != 0)
      && (RxKnown(f) ==> t == RxTimes((f.now - f.rxHw) / 1000, (f.rxSw - f.rxHw) / 1000, (f.now - f.rxSw) / 1000))
  {
  }

  lemma OnewayExactly(f: Frame)
    ensures TruncDiv(Signed(f.now) - Signed(f.txTimestamp), 1000) == SignedMicroseconds(f.txTimestamp, f.now)
  {
  }

  lemma ReceivedContributes(c: Params, s: Stat, f: Frame, k: Kind)
    ensures LatencyOf(Received(c, s, f), k) ==
      var v := Contribution(c, FrameReceived(f), k); if v == [] then LatencyOf(s, k) else Sample(LatencyOf(s, k), v[0])
  {
    RxSplitExactly(f);
    OnewayExactly(f);
    match k
    case OfRoundTrip =>
    case OfOneway =>
    case OfRx =>
    case OfRxHw2Sw =>
    case OfRxSw2App =>
    case OfTx =>
    case OfProcFirst =>
    case OfProcBatch =>
  }

  lemma RecordContributes(c: Params, s: Stat, e: Event, k: Kind)
    ensures LatencyOf(Record(c, s, e), k) ==
      var v := Contribution(c, e, k); if v == [] then LatencyOf(s, k) else Sample(LatencyOf(s, k), v[0])
  {
    if e.FrameReceived? {
      ReceivedContributes(c, s, e.frame, k);
    }
  }

  lemma RecordIncrements(c: Params, s: Stat, e: Event, k: Counter)
    ensures CounterOf(Record(c, s, e), k) == CounterOf(s, k) + Increment(c, e, k)
  {
    if e.FrameReceived? {
      ReceivedIncrements(c, s, e.frame, k);
    }
  }

  lemma ReceivedIncrements(c: Params, s: Stat, f: Frame, k: Counter)
    ensures CounterOf(Received(c, s, f), k) == CounterOf(s, k) + Increment(c, FrameReceived(f), k)
  {
    OnewayExactly(f);
    match k
    case Sent =>
    case Arrived =>
    case OutOfOrder =>
    case FrameId =>
    case Payload =>
    case RoundTripOutlier =>
    case OnewayOutlier =>
    case ProcFirstOutlier =>
    case ProcBatchOutlier =>
    case Missing =>
  }

  /** The machine words an event is made of. */
  predicate Typed(e: Event)
  {
    match e
    case FrameReceived(f) => f.now < TWO64 && f.txTimestamp < TWO64
    case TxLatency(us) => us < TWO64
    case ProcFirst(us) => us < TWO64
    case ProcBatch(us) => us < TWO64
    case FramesSent(_) => true
    case TxMiss => true
  }

  function Sum(vs: seq<int>): int
  {
    if vs == [] then 0 else Sum(vs[..|vs| - 1]) + vs[|vs| - 1]
  }

  /** A latency record that describes exactly the given values. */
  predicate Describes(l: Latency, empty: Latency, vs: seq<int>)
  {
    && l.count == |vs|
    && l.sum == Sum(vs)
    && (forall i :: 0 <= i < |vs| ==> l.min <= vs[i] <= l.max)
    && (if vs == [] then l == empty else l.min in vs && l.max in vs)
  }

  lemma SampleDescribes(l: Latency, empty: Latency, vs: seq<int>, v: int)
    requires Describes(l, empty, vs) && empty.max <= v <= empty.min
    ensures Describes(Sample(l, v), empty, vs + [v])
  {
    var ws := vs + [v];
    assert ws[..|vs|] == vs && ws[|vs|] == v;
    assert forall x :: x in vs ==> x in ws;
  }

  lemma ContributionInRange(c: Params, e: Event, k: Kind)
    requires Typed(e) && Contribution(c, e, k) != []
    ensures var empty := LatencyOf(EMPTY, k); empty.max <= Contribution(c, e, k)[0] <= empty.min
  {
  }

  /**
   Whatever was recorded: each latency has the count, sum, minimum and maximum of the values contributed to
   it, and is the reset value if there were none.
   */
  lemma {:induction false} LatencyMeans(c: Params, events: seq<Event>, k: Kind)
    requires forall i :: 0 <= i < |events| ==> Typed(events[i])
    ensures Describes(LatencyOf(RecordAll(c, events), k), LatencyOf(EMPTY, k), Values(c, events, k))
  {
    if events != [] {
      var before, e := events[..|events| - 1], events[|events| - 1];
      LatencyMeans(c, before, k);
      RecordContributes(c, RecordAll(c, before), e, k);
      var v := Contribution(c, e, k);
      assert Typed(e);
      if v != [] {
        ContributionInRange(c, e, k);
        assert v == [v[0]];
        SampleDescribes(LatencyOf(RecordAll(c, before), k), LatencyOf(EMPTY, k), Values(c, before, k), v[0]);
      } else {
        assert Values(c, before, k) + v == Values(c, before, k);
      }
    }
  }

  /** And each counter is the sum of what the events add to it. */
  lemma {:induction false} CounterMeans(c: Params, events: seq<Event>, k: Counter)
    ensures CounterOf(RecordAll(c, events), k) == Increments(c, events, k)
  {
    if events != [] {
      CounterMeans(c, events[..|events| - 1], k);
      RecordIncrements(c, RecordAll(c, events[..|events| - 1]), events[|events| - 1], k);
    }
  }

  /** The events since the global record was last reset. */
  function SinceReset(c: Params, interval: nat, actions: seq<Action>): (events: seq<Event>)
  {
    if actions == [] then [] else
    var before, last := actions[..|actions| - 1], actions[|actions| - 1];
    var events := SinceReset(c, interval, before);
    match last
    case Happens(e) => events + [e]
    case Tick(now, reset) => if reset && Due(Run(c, interval, before), now, interval) then [] else events
  }

  lemma RecordOneMore(c: Params, events: seq<Event>, e: Event)
    ensures RecordAll(c, events + [e]) == Record(c, RecordAll(c, events), e)
  {
    assert (events + [e])[..|events|] == events;
  }

  /** In every run the global record is what the events since the last reset amount to. */
  lemma {:induction false} GlobalSinceReset(c: Params, interval: nat, actions: seq<Action>)
    ensures Run(c, interval, actions).global == RecordAll(c, SinceReset(c, interval, actions))
  {
    if actions != [] {
      var before, last := actions[..|actions| - 1], actions[|actions| - 1];
      GlobalSinceReset(c, interval, before);
      if last.Happens? {
        RecordOneMore(c, SinceReset(c, interval, before), last.e);
      }
    }
  }

  /** Rounding towards zero: the magnitude is rounded down and the sign kept. */
  lemma TruncatesTowardsZero(x: int, d: nat)
    requires 0 < d
    ensures TruncDiv(x, d) * d <= x < TruncDiv(x, d) * d + d || x < 0
    ensures TruncDiv(x, d) * d - d < x <= TruncDiv(x, d) * d || x > 0
    ensures TruncDiv(-x, d) == -TruncDiv(x, d)
  {
    if x >= 0 {
      DivModFacts(x, d);
    }
    if x <= 0 {
      DivModFacts(-x, d);
    }
  }

  // ---------- the length of an interval ----------

  /** An interval is published by the first tick that is at least the interval after the last publication. */
  lemma DueExactly(x: Engine, now: nat, interval: nat)
    requires x.lastTs <= now < TWO64
    ensures Due(x, now, interval) <==> if x.lastTs == 0 then interval == 0 else x.lastTs + interval <= now
  {
  }

  /** Clock readings of the ticks: never zero, never backwards. */
  predicate ClockRuns(actions: seq<Action>, from: nat, to: nat)
  {
    0 < from <= to < TWO64 &&
    (actions == [] || (
       var before, last := actions[..|actions| - 1], actions[|actions| - 1];
       if last.Tick? then last.now <= to && ClockRuns(before, from, last.now) else ClockRuns(before, from, to)))
  }

  function Publications(c: Params, interval: nat, actions: seq<Action>): (k: nat)
  {
    if actions == [] then 0 else
    var before, last := actions[..|actions| - 1], actions[|actions| - 1];
    Publications(c, interval, before)
    + Bit(last.Tick? && Due(Run(c, interval, before), last.now, interval))
  }

  /** last_ts only depends on the ticks. */
  function LastTs(interval: nat, actions: seq<Action>): (ts: nat)
  {
    if actions == [] then 0 else
    var ts, last := LastTs(interval, actions[..|actions| - 1]), actions[|actions| - 1];
    if last.Tick? then if Over(ts, last.now, interval) || ts == 0 then last.now else ts else ts
  }

  lemma {:induction false} LastTsOfRun(c: Params, interval: nat, actions: seq<Action>)
    ensures Run(c, interval, actions).lastTs == LastTs(interval, actions)
  {
    if actions != [] {
      LastTsOfRun(c, interval, actions[..|actions| - 1]);
    }
  }

  /** How many ticks found the interval over. */
  function OverCount(interval: nat, actions: seq<Action>): (k: nat)
  {
    if actions == [] then 0 else
    var before, last := actions[..|actions| - 1], actions[|actions| - 1];
    OverCount(interval, before) + Bit(last.Tick? && Over(LastTs(interval, before), last.now, interval))
  }

  lemma {:induction false} PublicationsAreOver(c: Params, interval: nat, actions: seq<Action>)
    ensures Publications(c, interval, actions) == OverCount(interval, actions)
  {
    if actions != [] {
      PublicationsAreOver(c, interval, actions[..|actions| - 1]);
      LastTsOfRun(c, interval, actions[..|actions| - 1]);
    }
  }

  lemma OverMeans(lastTs: nat, now: nat, interval: nat)
    requires lastTs <= now < TWO64 && interval > 0
    ensures Over(lastTs, now, interval) ==> lastTs != 0 && lastTs + interval <= now
  {
  }

  lemma OneIntervalMore(k: nat, interval: nat)
    ensures (k + 1) * interval == k * interval + interval
  {
  }

  lemma {:induction false} TicksLongEnough(interval: nat, actions: seq<Action>, from: nat, to: nat)
    requires ClockRuns(actions, from, to) && interval > 0
    ensures var ts, k := LastTs(interval, actions), OverCount(interval, actions);
      && (ts == 0 ==> k == 0)
      && (ts != 0 ==> from + k * interval <= ts <= to)
  {
    if actions != [] {
      var before, last := actions[..|actions| - 1], actions[|actions| - 1];
      var k := OverCount(interval, before);
      if last.Tick? {
        ClockBounds(before, from, last.now);
        TicksLongEnough(interval, before, from, last.now);
        OverMeans(LastTs(interval, before), last.now, interval);
        OneIntervalMore(k, interval);
      } else {
        TicksLongEnough(interval, before, from, to);
      }
    }
  }

  /** `k` published intervals took at least `k` times the configured interval. */
  lemma {:induction false} IntervalsLongEnough(c: Params, interval: nat, actions: seq<Action>, from: nat, to: nat)
    requires ClockRuns(actions, from, to) && interval > 0
    ensures var x, k := Run(c, interval, actions), Publications(c, interval, actions);
      && (x.lastTs == 0 ==> k == 0)
      && (x.lastTs != 0 ==> from + k * interval <= x.lastTs <= to)
  {
    LastTsOfRun(c, interval, actions);
    PublicationsAreOver(c, interval, actions);
    TicksLongEnough(interval, actions, from, to);
  }

  lemma ClockBounds(actions: seq<Action>, from: nat, to: nat)
    requires ClockRuns(actions, from, to)
    ensures 0 < from <= to < TWO64
  {
  }

  // ---------- round trips and the histogram ----------

  /** The round trip times of the frames received in reference mode. */
  function RoundTrips(c: Params, events: seq<Event>): (s: seq<nat>)
    ensures |s| == |Values(c, events, OfRoundTrip)|
    ensures forall i :: 0 <= i < |s| ==> s[i] == Values(c, events, OfRoundTrip)[i]
  {
    if events == [] then [] else
    var before, e := RoundTrips(c, events[..|events| - 1]), events[|events| - 1];
    if c.reference && e.FrameReceived? then before + [Contribution(c, e, OfRoundTrip)[0]] else before
  }

  /** Everything that happened in a run, resets or not. */
  function Events(actions: seq<Action>): (events: seq<Event>)
  {
    if actions == [] then [] else
    var before, last := Events(actions[..|actions| - 1]), actions[|actions| - 1];
    if last.Happens? then before + [last.e] else before
  }

  lemma RoundTripsStep(c: Params, events: seq<Event>, e: Event)
    ensures RoundTrips(c, events + [e]) ==
      RoundTrips(c, events) + if c.reference && e.FrameReceived? then [Contribution(c, e, OfRoundTrip)[0]] else []
  {
    assert (events + [e])[..|events|] == events;
  }

  /** In every run the histogram has been handed every round trip since the start: no reset touches it. */
  lemma {:induction false} HistogramSinceStart(c: Params, interval: nat, actions: seq<Action>)
    ensures Run(c, interval, actions).histogram == if c.histogram then RoundTrips(c, Events(actions)) else []
  {
    if actions != [] {
      var before, last := actions[..|actions| - 1], actions[|actions| - 1];
      HistogramSinceStart(c, interval, before);
      if last.Happens? {
        RoundTripsStep(c, Events(before), last.e);
      }
    }
  }

  lemma {:induction false} RoundTripCount(c: Params, events: seq<Event>)
    ensures RecordAll(c, events).roundTrip.count == |RoundTrips(c, events)|
  {
    if events != [] {
      RoundTripCount(c, events[..|events| - 1]);
      RecordContributes(c, RecordAll(c, events[..|events| - 1]), events[|events| - 1], OfRoundTrip);
    }
  }

  /** A reset that a tick really serves. */
  predicate Resets(c: Params, interval: nat, before: seq<Action>, last: Action)
  {
    last.Tick? && last.reset && Due(Run(c, interval, before), last.now, interval)
  }

  /** How many round trips the served resets have thrown out of the global record. */
  function Discarded(c: Params, interval: nat, actions: seq<Action>): (k: nat)
  {
    if actions == [] then 0 else
    var before, last := actions[..|actions| - 1], actions[|actions| - 1];
    Discarded(c, interval, before)
    + if Resets(c, interval, before, last) then |RoundTrips(c, SinceReset(c, interval, before))| else 0
  }

  /** No reset is served once a frame has arrived. */
  predicate ResetsComeFirst(c: Params, interval: nat, actions: seq<Action>)
  {
    actions == [] || (
      var before, last := actions[..|actions| - 1], actions[|actions| - 1];
      && ResetsComeFirst(c, interval, before)
      && (Resets(c, interval, before, last) ==> forall a :: a in before && a.Happens? ==> !a.e.FrameReceived?))
  }

  lemma TickConservesRoundTrips(c: Params, interval: nat, actions: seq<Action>)
    requires actions != [] && actions[|actions| - 1].Tick?
    ensures var before := actions[..|actions| - 1];
      && Events(actions) == Events(before)
      && |RoundTrips(c, SinceReset(c, interval, actions))| + Discarded(c, interval, actions)
         == |RoundTrips(c, SinceReset(c, interval, before))| + Discarded(c, interval, before)
  {
    if Resets(c, interval, actions[..|actions| - 1], actions[|actions| - 1]) {
      assert SinceReset(c, interval, actions) == [];
    } else {
      assert SinceReset(c, interval, actions) == SinceReset(c, interval, actions[..|actions| - 1]);
    }
  }

  /** Round trips are either in the global record or were discarded by a reset. */
  lemma {:induction false} RoundTripsConserved(c: Params, interval: nat, actions: seq<Action>)
    ensures |RoundTrips(c, Events(actions))|
         == |RoundTrips(c, SinceReset(c, interval, actions))| + Discarded(c, interval, actions)
  {
    if actions != [] {
      var before, last := actions[..|actions| - 1], actions[|actions| - 1];
      RoundTripsConserved(c, interval, before);
      if last.Happens? {
        RoundTripsStep(c, Events(before), last.e);
        RoundTripsStep(c, SinceReset(c, interval, before), last.e);
        assert Events(actions) == Events(before) + [last.e];
        assert SinceReset(c, interval, actions) == SinceReset(c, interval, before) + [last.e];
        assert Discarded(c, interval, actions) == Discarded(c, interval, before);
      } else {
        TickConservesRoundTrips(c, interval, actions);
      }
    }
  }

  lemma {:induction false} NoFrameNoRoundTrip(c: Params, actions: seq<Action>)
    requires c.reference
    ensures RoundTrips(c, Events(actions)) == [] <==> forall a :: a in actions && a.Happens? ==> !a.e.FrameReceived?
  {
    if actions != [] {
      var before, last := actions[..|actions| - 1], actions[|actions| - 1];
      NoFrameNoRoundTrip(c, before);
      assert actions == before + [last];
      if last.Happens? {
        RoundTripsStep(c, Events(before), last.e);
      }
    }
  }

  lemma {:induction false} DiscardedExactly(c: Params, interval: nat, actions: seq<Action>)
    requires c.reference
    ensures Discarded(c, interval, actions) == 0 <==> ResetsComeFirst(c, interval, actions)
  {
    if actions != [] {
      var before := actions[..|actions| - 1];
      DiscardedExactly(c, interval, before);
      RoundTripsConserved(c, interval, before);
      NoFrameNoRoundTrip(c, before);
    }
  }

  /**
   In every run of a reference with a histogram, the buckets, underflow and overflow together hold every round
   trip since the start. The global record holds those the resets left over, so the two counts agree exactly
   when no reset was served after a frame had arrived.
   */
  lemma HistogramAgrees(c: Params, interval: nat, actions: seq<Action>, min: nat, max: nat)
    requires c.histogram && c.reference && min <= max
    ensures var x := Run(c, interval, actions);
      var total := H.Sum(H.Buckets(x.histogram, min, max))
        + H.CountIn(x.histogram, 0, min) + H.CountFrom(x.histogram, max);
      && total == |RoundTrips(c, Events(actions))|
      && total == x.global.roundTrip.count + Discarded(c, interval, actions)
      && (total == x.global.roundTrip.count <==> ResetsComeFirst(c, interval, actions))
  {
    HistogramSinceStart(c, interval, actions);
    H.NothingLost(RoundTrips(c, Events(actions)), min, max);
    GlobalSinceReset(c, interval, actions);
    RoundTripCount(c, SinceReset(c, interval, actions));
    RoundTripsConserved(c, interval, actions);
    DiscardedExactly(c, interval, actions);
  }

  /** The shortest run in which they differ: one frame, then a reset. */
  lemma HistogramOutlivesReset(c: Params, interval: nat, f: Frame)
    requires c.histogram && c.reference && interval < TWO64 - 1
    ensures var x := Run(c, interval, [Tick(1, false), Happens(FrameReceived(f)), Tick(1 + interval, true)]);
      x.histogram == [RoundTrip(c, f)] && x.global.roundTrip.count == 0
  {
    var a1, a2, a3 := Tick(1, false), Happens(FrameReceived(f)), Tick(1 + interval, true);
    assert [a1, a2, a3][..2] == [a1, a2] && [a1, a2][..1] == [a1] && [a1][..0] == [];
    var x1 := Run(c, interval, [a1]);
    assert x1 == Ticked(Run(c, interval, []), interval, 1, false) && x1.lastTs == 1 && x1.histogram == [];
    var x2 := Run(c, interval, [a1, a2]);
    assert x2 == Happened(c, x1, FrameReceived(f)) && x2.lastTs == 1;
    assert Due(x2, 1 + interval, interval);
  }

  // ---------- the code ----------

  /** stat_update_min_max and the bookkeeping around it. */
  method AddSample(l: Latency, v: int) returns (r: Latency)
    ensures r == Sample(l, v)
  {
    r := l;
    if v > r.max {
      r := r.(max := v);
    }
    if v < r.min {
      r := r.(min := v);
    }
    r := r.(count := r.count + 1, sum := r.sum + v);
  }

  method CommonRoundTrip(c: Params, stat: Stat, f: Frame) returns (r: Stat)
    ensures r == ReceivedRoundTrip(c, stat, f)
  {
    r := stat;
    if c.reference {
      var rtt := RoundTrip(c, f);
      if c.realTime && rtt > c.limit {
        r := r.(roundTripOutliers := r.roundTripOutliers + 1);
      }
      var l := AddSample(r.roundTrip, rtt);
      r := r.(roundTrip := l);
    }
  }

  method CommonOneway(c: Params, stat: Stat, f: Frame) returns (r: Stat)
    ensures r == ReceivedOneway(c, stat, f)
  {
    r := stat;
    var oneway := TruncDiv(Signed(f.now) - Signed(f.txTimestamp), 1000);
    var l := AddSample(r.oneway, oneway);
    r := r.(oneway := l);
    if c.realTime && oneway > c.limit / 2 {
      r := r.(onewayOutliers := r.onewayOutliers + 1);
    }
  }

  method CommonRx(stat: Stat, f: Frame) returns (r: Stat)
    ensures r == ReceivedRx(stat, f)
  {
    r := stat;
    var t := RxSplit(f);
    if t.hw2app != 0 && t.hw2sw != 0 && t.sw2app != 0 {
      var whole := AddSample(r.rx, t.hw2app);
      r := r.(rx := whole);
      var hw2sw := AddSample(r.rxHw2Sw, t.hw2sw);
      r := r.(rxHw2Sw := hw2sw);
      var sw2app := AddSample(r.rxSw2App, t.sw2app);
      r := r.(rxSw2App := sw2app);
    }
  }

  /** stat_frame_received_common: one record is updated field by field. */
  method ReceivedCommon(c: Params, stat: Stat, f: Frame) returns (r: Stat)
    ensures r == Received(c, stat, f)
  {
    r := CommonRoundTrip(c, stat, f);
    r := CommonOneway(c, r, f);
    r := CommonRx(r, f);
    r := r.(framesReceived := r.framesReceived + 1);
    r := r.(outOfOrder := r.outOfOrder + Bit(f.outOfOrder));
    r := r.(payloadErrors := r.payloadErrors + Bit(f.payloadMismatch));
    r := r.(frameIdErrors := r.frameIdErrors + Bit(f.frameIdMismatch));
  }

  class Collector {
    const c: Params
    const interval: nat
    const hist: H.RttHistogram
    var global: Stat
    var period: Stat
    var globalLog: Stat
    var periodLog: Stat
    var lastTs: nat
    /** The intervals published since the last reset of the global record. */
    ghost var published: seq<Stat>

    ghost function View(): (x: Engine)
      reads this, hist
    {
      Engine(global, period, globalLog, periodLog, published, lastTs, hist.samples)
    }

    ghost predicate Valid()
      reads this, hist, hist.data
    {
      hist.Valid() && hist.min < TWO64
    }

    constructor (c: Params, interval: nat, hist: H.RttHistogram)
      requires hist.Valid() && hist.min < TWO64 && hist.samples == []
      ensures this.c == c && this.interval == interval && this.hist == hist
      ensures Valid() && View() == Run(c, interval, [])
    {
      this.c, this.interval, this.hist := c, interval, hist;
      global, period, globalLog, periodLog := EMPTY, EMPTY, EMPTY, EMPTY;
      lastTs := 0;
      published := [];
    }

    method SentBatch(count: nat)
      modifies this
      ensures View() == Step(c, interval, old(View()), Happens(FramesSent(count)))
    {
      for i := 0 to count
        invariant View() == old(View()).(period := old(period).(framesSent := old(period).framesSent + i))
      {
        period := period.(framesSent := period.framesSent + 1);
      }
      global := global.(framesSent := global.framesSent + count);
    }

    /** stat_frame_received: the histogram first, then both records. */
    method ReceivedFrame(f: Frame)
      requires Valid()
      modifies this, hist, hist.data
      ensures Valid() && View() == Step(c, interval, old(View()), Happens(FrameReceived(f)))
    {
      if c.reference && c.histogram {
        hist.Update(RoundTrip(c, f));
      }
      global := ReceivedCommon(c, global, f);
      period := ReceivedCommon(c, period, f);
    }

    /** stat_update: publish and clear the interval when it is over, then serve a requested reset. */
    method Update(now: nat, reset: bool)
      modifies this
      ensures View() == Step(c, interval, old(View()), Tick(now, reset))
    {
      var proceed := false;
      if lastTs == 0 {
        lastTs := now;
      }
      var elapsed := U64(now - lastTs);
      if elapsed >= interval {
        proceed := true;
        lastTs := now;
      }
      if !proceed {
        return;
      }
      globalLog := global;
      periodLog := period;
      published := published + [period];
      period := EMPTY;
      if reset {
        global := EMPTY;
        published := [];
      }
    }
  }
}
