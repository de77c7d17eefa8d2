/**
 The send-time backlog: an array indexed modulo 1024 cycles that stands in for an unbounded map
 from frame number to the time the frame was sent.
 */
module Backlog {
  import opened Words
  import MetaData

  const MAX_BACKLOG: nat := 1024

  datatype Entry = Entry(sw: nat, hw: nat, rxHw: nat)

  /** Frames per cycle, and whether hardware Tx timestamps are enabled for the class. */
  datatype ClassParams = ClassParams(n: nat, hwStamps: bool)

  function Length(p: ClassParams): nat
  {
    MAX_BACKLOG * p.n
  }

  /** With hardware timestamps only the first frame of a cycle has a send time, otherwise each frame. */
  predicate Recorded(p: ClassParams, c: nat)
    requires 0 < p.n
  {
    p.hwStamps ==> c % p.n == 0
  }

  /** The first frame of the cycle of frame `f`. */
  function CycleStart(p: ClassParams, f: nat): nat
    requires 0 < p.n
  {
    (f / p.n) * p.n
  }

  /** The frame whose send time is looked up for frame `f`. */
  function Key(p: ClassParams, f: nat): nat
    requires 0 < p.n
  {
    if p.hwStamps then CycleStart(p, f) else f
  }

  // ---------- one batch ----------

  datatype Batch = Batch(first: nat, count: nat, now: nat)

  predicate Covers(b: Batch, c: nat)
  {
    b.first <= c < b.first + b.count
  }

  ghost predicate Hits(p: ClassParams, b: Batch, slot: nat)
    requires 0 < p.n
  {
    exists c: nat :: Covers(b, c) && Recorded(p, c) && c % Length(p) == slot
  }

  /** Every slot that a recorded frame of the batch maps to gets the time of the batch. */
  ghost predicate Stamped(p: ClassParams, s: seq<Entry>, b: Batch, t: seq<Entry>)
    requires 0 < p.n
  {
    && |t| == |s|
    && forall k :: 0 <= k < |s| ==> t[k] == if Hits(p, b, k) then s[k].(sw := b.now) else s[k]
  }

  // ---------- modular arithmetic ----------

  lemma CycleStartFacts(p: ClassParams, f: nat)
    requires 0 < p.n
    ensures CycleStart(p, f) <= f < CycleStart(p, f) + p.n
    ensures CycleStart(p, f) % p.n == 0
    ensures f % p.n == 0 <==> CycleStart(p, f) == f
  {
    DivModFacts(f, p.n);
    DivModUnique(CycleStart(p, f), p.n, f / p.n, 0);
  }

  /** Two frames that share a slot are at least 1024 cycles apart. */
  lemma SameSlotFarApart(c: nat, d: nat, len: nat)
    requires 0 < len && c < d && c % len == d % len
    ensures c + len <= d
  {
    SameRemainder(d, c, len);
    if d < c + len {
      DivModUnique(d - c, len, 0, d - c);
    }
  }

  /**
   The send time of frame `g` stands for frame `f`: with hardware timestamps `g` is the first frame of the cycle of
   `f`, without them it is `f` itself.
   */
  predicate StandsFor(p: ClassParams, g: nat, f: nat)
    requires 0 < p.n
  {
    if p.hwStamps then g % p.n == 0 && g <= f < g + p.n else g == f
  }

  lemma StandsExactly(p: ClassParams, g: nat, f: nat)
    requires 0 < p.n
    ensures StandsFor(p, g, f) <==> g == Key(p, f)
  {
    CycleStartFacts(p, f);
    if p.hwStamps && StandsFor(p, g, f) {
      DivModFacts(g, p.n);
      DivModUnique(f, p.n, g / p.n, f - g);
    }
  }

  lemma KeyIsRecorded(p: ClassParams, f: nat)
    requires 0 < p.n
    ensures Recorded(p, Key(p, f))
  {
    CycleStartFacts(p, f);
  }

  // ---------- every run of batches ----------

  /** Later batches carry higher numbers; gaps are allowed and cycles may be split in any way. */
  predicate Increasing(log: seq<Batch>)
  {
    forall i, j :: 0 <= i < j < |log| ==> log[i].first + log[i].count <= log[j].first
  }

  /** No frame numbered `end` or higher has been sent. */
  predicate SentBelow(log: seq<Batch>, end: nat)
  {
    forall i :: 0 <= i < |log| ==> log[i].first + log[i].count <= end
  }

  /** A history of the backlog: its contents before and after each batch. */
  ghost predicate History(p: ClassParams, log: seq<Batch>, states: seq<seq<Entry>>)
    requires 0 < p.n
  {
    && |states| == |log| + 1
    && |states[0]| == Length(p)
    && forall i {:trigger log[i]} :: 0 <= i < |log| ==> Stamped(p, states[i], log[i], states[i + 1])
  }

  lemma {:induction false} HistoryLength(p: ClassParams, log: seq<Batch>, states: seq<seq<Entry>>, k: nat)
    requires 0 < p.n && History(p, log, states) && k <= |log|
    ensures |states[k]| == Length(p)
  {
    if k > 0 {
      HistoryLength(p, log, states, k - 1);
      assert Stamped(p, states[k - 1], log[k - 1], states[k]);
    }
  }

  lemma SlotInRange(p: ClassParams, c: nat)
    requires 0 < p.n
    ensures 0 < Length(p) && 0 <= c % Length(p) < Length(p)
  {
  }

  /**
   The backlog refines the map: as long as no frame 1024 cycles later has been sent, the slot of a
   recorded frame holds the time of the batch that sent it.
   */
  lemma {:induction false} SlotHoldsSendTime(p: ClassParams, log: seq<Batch>, states: seq<seq<Entry>>,
                                             j: nat, c: nat, k: nat)
    requires 0 < p.n && History(p, log, states) && Increasing(log) && j < k <= |log|
    requires Covers(log[j], c) && Recorded(p, c) && SentBelow(log[..k], c + Length(p))
    ensures |states[k]| == Length(p) && 0 <= c % Length(p) < Length(p)
    ensures states[k][c % Length(p)].sw == log[j].now
  {
    var len := Length(p);
    SlotInRange(p, c);
    HistoryLength(p, log, states, k - 1);
    HistoryLength(p, log, states, k);
    var b := log[k - 1];
    assert Stamped(p, states[k - 1], b, states[k]);
    if j == k - 1 {
      assert Covers(b, c) && Recorded(p, c) && c % len == c % len;
      assert Hits(p, b, c % len);
    } else {
      assert SentBelow(log[..k - 1], c + len) by {
        assert forall i :: 0 <= i < k - 1 ==> log[..k - 1][i] == log[..k][i];
      }
      SlotHoldsSendTime(p, log, states, j, c, k - 1);
      assert log[..k][k - 1] == b && b.first + b.count <= c + len;
      if Hits(p, b, c % len) {
        var d: nat :| Covers(b, d) && Recorded(p, d) && d % len == c % len;
        assert log[j].first + log[j].count <= log[k - 1].first;
        SameSlotFarApart(c, d, len);
        assert false;
      }
    }
  }

  /**
   Any frame of a cycle among the last 1024: the lookup finds the time of the batch that sent the
   cycle's first frame (with hardware timestamps) or the frame itself (without).
   */
  lemma LookupWithinBacklog(p: ClassParams, log: seq<Batch>, states: seq<seq<Entry>>, j: nat, g: nat, f: nat,
                            lastSent: nat)
    requires 0 < p.n && History(p, log, states) && Increasing(log) && j < |log|
    requires StandsFor(p, g, f) && Covers(log[j], g) && SentBelow(log, lastSent + 1)
    requires lastSent / p.n < f / p.n + 1024
    ensures |states[|log|]| == Length(p) && 0 <= Key(p, f) % Length(p) < Length(p)
    ensures states[|log|][Key(p, f) % Length(p)].sw == log[j].now
  {
    StandsExactly(p, g, f);
    KeyIsRecorded(p, f);
    CycleStartFacts(p, f);
    WithinBacklog(p, f, lastSent);
    assert log[..|log|] == log;
    assert SentBelow(log, Key(p, f) + Length(p));
    SlotHoldsSendTime(p, log, states, j, Key(p, f), |log|);
  }

  lemma WithinBacklog(p: ClassParams, f: nat, lastSent: nat)
    requires 0 < p.n && lastSent / p.n < f / p.n + MAX_BACKLOG
    ensures lastSent < CycleStart(p, f) + Length(p)
  {
    var a, b := lastSent / p.n, f / p.n;
    DivModFacts(lastSent, p.n);
    MulNonNegative(b + MAX_BACKLOG - 1 - a, p.n);
    assert (b + MAX_BACKLOG - 1 - a) * p.n == b * p.n + MAX_BACKLOG * p.n - p.n - a * p.n;
  }

  /** Once the frame exactly 1024 cycles later is sent, the slot belongs to that frame. */
  lemma OldFrameOverwritten(p: ClassParams, log: seq<Batch>, states: seq<seq<Entry>>, j: nat, c: nat)
    requires 0 < p.n && History(p, log, states) && Increasing(log) && j < |log|
    requires Recorded(p, c) && Covers(log[j], c + 1024 * p.n) && SentBelow(log, c + 2048 * p.n)
    ensures |states[|log|]| == Length(p) && 0 <= c % Length(p) < Length(p)
    ensures states[|log|][c % Length(p)].sw == log[j].now
  {
    var len := Length(p);
    SlotInRange(p, c);
    assert log[..|log|] == log;
    NextRound(p, c);
    SlotHoldsSendTime(p, log, states, j, c + len, |log|);
  }

  lemma NextRound(p: ClassParams, c: nat)
    requires 0 < p.n
    ensures 0 < Length(p) && (c + Length(p)) % Length(p) == c % Length(p)
    ensures Recorded(p, c) ==> Recorded(p, c + Length(p))
  {
    SameRemainder(c + Length(p), c, Length(p));
    DivModUnique(Length(p), Length(p), 1, 0);
    SameRemainder(c + Length(p), c, p.n);
    DivModUnique(Length(p), p.n, MAX_BACKLOG, 0);
  }

  // ---------- three ways to compute the slot ----------

  /** get_first_frame_backlog_idx: from the frame number itself. */
  function ReceiveSlot(p: ClassParams, f: nat): nat
    requires 0 < p.n
  {
    CycleStart(p, f) % Length(p)
  }

  /** The completion paths: from the counter echoed in the frame, which wraps after 2^32 cycles. */
  function CompletionSlot(p: ClassParams, f: nat): nat
    requires 0 < p.n
  {
    var seqNo := MetaData.DecodeCounter(MetaData.EncodeCounter(f, p.n), p.n);
    CycleStart(p, seqNo) % Length(p)
  }

  lemma CycleSlot(p: ClassParams, f: nat)
    requires 0 < p.n
    ensures ReceiveSlot(p, f) == (f / p.n % MAX_BACKLOG) * p.n
  {
    var q := f / p.n;
    DivModFacts(q, MAX_BACKLOG);
    var a, r := q / MAX_BACKLOG, q % MAX_BACKLOG;
    MulNonNegative(r, p.n);
    MulNonNegative(MAX_BACKLOG - 1 - r, p.n);
    assert q * p.n == a * (MAX_BACKLOG * p.n) + r * p.n;
    DivModUnique(q * p.n, MAX_BACKLOG * p.n, a, r * p.n);
  }

  /** The decoded counter sits at the same place in a cycle whose number agrees modulo 2^32. */
  lemma DecodedCycle(f: nat, n: nat)
    requires 0 < n <= TWO32
    ensures var seqNo := MetaData.DecodeCounter(MetaData.EncodeCounter(f, n), n);
      seqNo / n == f / n % TWO32 && seqNo % n == f % n
  {
    MetaData.CounterRoundTrip(f, n);
    SplitModulo(f, n, TWO32);
    DivModFacts(f, n);
    var seqNo := MetaData.DecodeCounter(MetaData.EncodeCounter(f, n), n);
    DivModUnique(seqNo, n, f / n % TWO32, f % n);
  }

  /**
   Receive path and both completion paths agree on the slot of every frame ever sent, also after the
   cycle counter in the frame has wrapped around, on the slot of a frame of its own where each frame has
   one, and on its position within the cycle.
   */
  lemma SlotsAgree(p: ClassParams, f: nat)
    requires 0 < p.n <= TWO32
    ensures CompletionSlot(p, f) == ReceiveSlot(p, f)
    ensures var seqNo := MetaData.DecodeCounter(MetaData.EncodeCounter(f, p.n), p.n);
      seqNo % p.n == f % p.n && Key(p, seqNo) % Length(p) == Key(p, f) % Length(p)
  {
    var seqNo := MetaData.DecodeCounter(MetaData.EncodeCounter(f, p.n), p.n);
    DecodedCycle(f, p.n);
    SameSlotModulo(p, f, seqNo);
    FrameSlot(p, f);
    FrameSlot(p, seqNo);
    LowBits(f / p.n);
  }

  /** Without hardware timestamps each frame has its own slot. */
  lemma FrameSlot(p: ClassParams, f: nat)
    requires 0 < p.n
    ensures f % Length(p) == (f / p.n % MAX_BACKLOG) * p.n + f % p.n
  {
    var q, o := f / p.n, f % p.n;
    DivModFacts(f, p.n);
    DivModFacts(q, MAX_BACKLOG);
    var a, r := q / MAX_BACKLOG, q % MAX_BACKLOG;
    MulNonNegative(r, p.n);
    MulNonNegative(MAX_BACKLOG - 1 - r, p.n);
    assert q * p.n == a * (MAX_BACKLOG * p.n) + r * p.n;
    DivModUnique(f, MAX_BACKLOG * p.n, a, r * p.n + o);
  }

  lemma SameSlotModulo(p: ClassParams, f: nat, g: nat)
    requires 0 < p.n && g / p.n == f / p.n % TWO32
    ensures ReceiveSlot(p, g) == ReceiveSlot(p, f)
  {
    CycleSlot(p, f);
    CycleSlot(p, g);
    LowBits(f / p.n);
  }

  lemma LowBits(q: nat)
    ensures q % TWO32 % MAX_BACKLOG == q % MAX_BACKLOG
  {
  }

  /** A completion processed after its cycle was recorded finds the send time of the cycle's first frame. */
  lemma CompletionFindsSendTime(p: ClassParams, log: seq<Batch>, states: seq<seq<Entry>>, j: nat, f: nat, lastSent: nat)
    requires 0 < p.n <= TWO32 && p.hwStamps && History(p, log, states) && Increasing(log) && j < |log|
    requires Covers(log[j], CycleStart(p, f)) && SentBelow(log, lastSent + 1)
    requires lastSent / p.n < f / p.n + MAX_BACKLOG
    ensures CompletionSlot(p, f) < |states[|log|]|
    ensures states[|log|][CompletionSlot(p, f)].sw == log[j].now
  {
    SlotsAgree(p, f);
    StandsExactly(p, CycleStart(p, f), f);
    LookupWithinBacklog(p, log, states, j, CycleStart(p, f), f, lastSent);
  }

  // ---------- round trip time ----------

  /** Round trip time in microseconds; zero if no send time is known. */
  function RoundTripTime(now: nat, sw: nat): nat
  {
    if sw != 0 then U64(now - sw) / 1000 else 0
  }

  /** The lookup of the receive path, as the code does it. */
  method SendTimeOf(p: ClassParams, backlog: array<Entry>, f: nat) returns (sw: nat)
    requires 0 < p.n && backlog.Length == Length(p)
    ensures 0 <= Key(p, f) % Length(p) < Length(p) && sw == backlog[Key(p, f) % Length(p)].sw
  {
    SlotInRange(p, Key(p, f));
    var idx;
    if p.hwStamps {
      var first := (f / p.n) * p.n;
      idx := first % Length(p);
    } else {
      idx := f % Length(p);
    }
    sw := backlog[idx].sw;
  }

  /**
   The round trip reported for a frame within the backlog, in whole microseconds, is measured from the batch that
   sent the first frame of its cycle (with hardware timestamps) or the frame itself (without).
   */
  lemma RoundTripMeasured(p: ClassParams, log: seq<Batch>, states: seq<seq<Entry>>, j: nat, g: nat, f: nat,
                          lastSent: nat, now: nat)
    requires 0 < p.n && History(p, log, states) && Increasing(log) && j < |log|
    requires StandsFor(p, g, f) && Covers(log[j], g) && SentBelow(log, lastSent + 1)
    requires lastSent / p.n < f / p.n + MAX_BACKLOG
    requires 0 < log[j].now <= now < TWO64
    ensures |states[|log|]| == Length(p) && 0 <= Key(p, f) % Length(p) < Length(p)
    ensures RoundTripTime(now, states[|log|][Key(p, f) % Length(p)].sw) == (now - log[j].now) / 1000
  {
    LookupWithinBacklog(p, log, states, j, g, f, lastSent);
  }

  /** A frame none of whose slot's batches was ever recorded has a round trip of zero. */
  lemma RoundTripUnknown(p: ClassParams, log: seq<Batch>, states: seq<seq<Entry>>, f: nat, now: nat)
    requires 0 < p.n && History(p, log, states) && Zeroed(states[0])
    requires forall i :: 0 <= i < |log| ==> !Hits(p, log[i], Key(p, f) % Length(p))
    ensures |states[|log|]| == Length(p) && 0 <= Key(p, f) % Length(p) < Length(p)
    ensures RoundTripTime(now, states[|log|][Key(p, f) % Length(p)].sw) == 0
  {
    SlotInRange(p, Key(p, f));
    var slot := Key(p, f) % Length(p);
    SlotIsLatest(p, log, states, |log|, slot);
    assert log[..|log|] == log;
    NeverHit(p, log, slot);
  }

  lemma {:induction false} NeverHit(p: ClassParams, log: seq<Batch>, slot: nat)
    requires 0 < p.n && forall i :: 0 <= i < |log| ==> !Hits(p, log[i], slot)
    ensures LatestTime(p, log, slot) == 0
  {
    if log != [] {
      NeverHit(p, log[..|log| - 1], slot);
    }
  }

  /** With hardware timestamps only the slots of first frames are ever written. */
  lemma OnlyFirstFrames(p: ClassParams, log: seq<Batch>, states: seq<seq<Entry>>, slot: nat)
    requires 0 < p.n && p.hwStamps && History(p, log, states) && Zeroed(states[0])
    requires slot < Length(p) && slot % p.n != 0
    ensures |states[|log|]| == Length(p) && states[|log|][slot].sw == 0
  {
    SlotIsLatest(p, log, states, |log|, slot);
    assert log[..|log|] == log;
    forall i | 0 <= i < |log|
      ensures !Hits(p, log[i], slot)
    {
      if Hits(p, log[i], slot) {
        var c: nat :| Covers(log[i], c) && Recorded(p, c) && c % Length(p) == slot;
        SlotPosition(p, c);
      }
    }
    NeverHit(p, log, slot);
  }

  /** A frame and its slot have the same position in their cycles. */
  lemma SlotPosition(p: ClassParams, c: nat)
    requires 0 < p.n
    ensures 0 < Length(p) && c % Length(p) % p.n == c % p.n
  {
    SlotInRange(p, c);
    FrameSlot(p, c);
    DivModFacts(c, p.n);
    DivModUnique(c % Length(p), p.n, c / p.n % MAX_BACKLOG, c % p.n);
  }

  // ---------- completions that are read too early ----------

  predicate Zeroed(s: seq<Entry>)
  {
    forall k :: 0 <= k < |s| ==> s[k].sw == 0
  }

  /** Batches are recorded at different times, none of them zero. */
  predicate ClockRuns(log: seq<Batch>)
  {
    && (forall i :: 0 <= i < |log| ==> 0 < log[i].now)
    && (forall i, j :: 0 <= i < j < |log| ==> log[i].now < log[j].now)
  }

  /** The time of the latest batch that wrote a slot, zero if none did. */
  ghost function LatestTime(p: ClassParams, log: seq<Batch>, slot: nat): (t: nat)
    requires 0 < p.n
  {
    if log == [] then 0
    else if Hits(p, log[|log| - 1], slot) then log[|log| - 1].now
    else LatestTime(p, log[..|log| - 1], slot)
  }

  /** From a zeroed backlog, every slot holds the time of the latest batch that wrote it. */
  lemma {:induction false} SlotIsLatest(p: ClassParams, log: seq<Batch>, states: seq<seq<Entry>>, k: nat, slot: nat)
    requires 0 < p.n && History(p, log, states) && Zeroed(states[0]) && k <= |log| && slot < Length(p)
    ensures |states[k]| == Length(p) && states[k][slot].sw == LatestTime(p, log[..k], slot)
  {
    HistoryLength(p, log, states, k);
    if k > 0 {
      SlotIsLatest(p, log, states, k - 1, slot);
      assert Stamped(p, states[k - 1], log[k - 1], states[k]);
      assert log[..k][..k - 1] == log[..k - 1];
    }
  }

  /** Batch `o` is the last of the first `k` batches that wrote the slot. */
  ghost predicate LastToHit(p: ClassParams, log: seq<Batch>, slot: nat, o: nat, k: nat)
    requires 0 < p.n && k <= |log|
  {
    o < k && forall i :: o < i < k ==> !Hits(p, log[i], slot)
  }

  lemma {:induction false} LatestTimeExactly(p: ClassParams, log: seq<Batch>, slot: nat, o: nat, k: nat)
    requires 0 < p.n && ClockRuns(log) && o < |log| && Hits(p, log[o], slot) && k <= |log|
    ensures LatestTime(p, log[..k], slot) == log[o].now <==> LastToHit(p, log, slot, o, k)
  {
    if k > 0 {
      LatestTimeExactly(p, log, slot, o, k - 1);
      assert log[..k][..k - 1] == log[..k - 1] && log[..k][k - 1] == log[k - 1];
      if k - 1 > o {
        assert log[o].now < log[k - 1].now;
      } else if k - 1 < o {
        assert log[k - 1].now < log[o].now;
      }
    }
  }

  /** A later batch can write the slot of `c` only with a frame 1024 cycles on or more. */
  lemma NotHitAgain(p: ClassParams, log: seq<Batch>, o: nat, c: nat, i: nat)
    requires 0 < p.n && Increasing(log) && o < i < |log| && Covers(log[o], c)
    requires log[i].first + log[i].count <= c + Length(p)
    ensures !Hits(p, log[i], c % Length(p))
  {
    if Hits(p, log[i], c % Length(p)) {
      var d: nat :| Covers(log[i], d) && Recorded(p, d) && d % Length(p) == c % Length(p);
      assert log[o].first + log[o].count <= log[i].first;
      SlotInRange(p, c);
      SameSlotFarApart(c, d, Length(p));
    }
  }

  /**
   What a lookup reads, at any point of any history that starts zeroed: the time of the latest batch that wrote
   the slot, zero if none did. It is the time of the frame's own batch if and only if that batch has been
   recorded by then and has not been overwritten.
   */
  lemma ReadExactly(p: ClassParams, log: seq<Batch>, states: seq<seq<Entry>>, k: nat, o: nat, g: nat, f: nat)
    requires 0 < p.n && History(p, log, states) && Zeroed(states[0]) && ClockRuns(log)
    requires k <= |log| && o < |log| && StandsFor(p, g, f) && Covers(log[o], g)
    ensures var slot := Key(p, f) % Length(p);
      && |states[k]| == Length(p) && 0 <= slot < Length(p)
      && states[k][slot].sw == LatestTime(p, log[..k], slot)
      && (states[k][slot].sw == log[o].now <==> LastToHit(p, log, slot, o, k))
  {
    StandsExactly(p, g, f);
    KeyIsRecorded(p, f);
    SlotInRange(p, Key(p, f));
    var slot := Key(p, f) % Length(p);
    assert Hits(p, log[o], slot);
    SlotIsLatest(p, log, states, k, slot);
    LatestTimeExactly(p, log, slot, o, k);
  }

  /**
   A completion of a frame within the last 1024 cycles reads the time of its own batch if and only if that batch
   has been recorded before the completion is processed, which the AF_XDP generator does not guarantee.
   */
  lemma CompletionExactly(p: ClassParams, log: seq<Batch>, states: seq<seq<Entry>>, k: nat, o: nat, f: nat)
    requires 0 < p.n <= TWO32 && p.hwStamps
    requires History(p, log, states) && Zeroed(states[0]) && ClockRuns(log) && Increasing(log)
    requires k <= |log| && o < |log| && Covers(log[o], CycleStart(p, f))
    requires SentBelow(log[..k], CycleStart(p, f) + Length(p))
    ensures CompletionSlot(p, f) < |states[k]|
    ensures states[k][CompletionSlot(p, f)].sw == LatestTime(p, log[..k], CompletionSlot(p, f))
    ensures states[k][CompletionSlot(p, f)].sw == log[o].now <==> o < k
  {
    SlotsAgree(p, f);
    StandsExactly(p, CycleStart(p, f), f);
    ReadExactly(p, log, states, k, o, CycleStart(p, f), f);
    forall i | o < i < k
      ensures !Hits(p, log[i], CompletionSlot(p, f))
    {
      assert log[..k][i] == log[i];
      NotHitAgain(p, log, o, CycleStart(p, f), i);
    }
  }

  /**
   In particular a completion that is processed before its own batch is recorded finds the send time of the
   frame 1024 cycles earlier, if that one was sent.
   */
  lemma DrainBeforeRecord(p: ClassParams, log: seq<Batch>, states: seq<seq<Entry>>, j: nat, c: nat)
    requires 0 < p.n && History(p, log, states) && Increasing(log) && j < |log|
    requires Length(p) <= c && Recorded(p, c) && SentBelow(log, c) && Covers(log[j], c - Length(p))
    ensures |states[|log|]| == Length(p) && 0 <= c % Length(p) < Length(p)
    ensures states[|log|][c % Length(p)].sw == log[j].now
  {
    var d := c - Length(p);
    EarlierRound(p, d);
    SlotInRange(p, c);
    assert log[..|log|] == log;
    SlotHoldsSendTime(p, log, states, j, d, |log|);
  }

  /** And within the first 1024 cycles it finds nothing, so the completion is ignored. */
  lemma DrainInFirstRound(p: ClassParams, log: seq<Batch>, states: seq<seq<Entry>>, c: nat)
    requires 0 < p.n && History(p, log, states) && Zeroed(states[0])
    requires Recorded(p, c) && c < Length(p) && SentBelow(log, c)
    ensures |states[|log|]| == Length(p) && 0 <= c % Length(p) < Length(p)
    ensures states[|log|][c % Length(p)].sw == 0
  {
    SlotInRange(p, c);
    SlotIsLatest(p, log, states, |log|, c % Length(p));
    assert log[..|log|] == log;
    NothingBelow(p, log, c);
  }

  lemma {:induction false} NothingBelow(p: ClassParams, log: seq<Batch>, c: nat)
    requires 0 < p.n && c < Length(p) && SentBelow(log, c)
    ensures LatestTime(p, log, c % Length(p)) == 0
  {
    if log != [] {
      var b := log[|log| - 1];
      assert SentBelow(log[..|log| - 1], c);
      NothingBelow(p, log[..|log| - 1], c);
      if Hits(p, b, c % Length(p)) {
        var d: nat :| Covers(b, d) && Recorded(p, d) && d % Length(p) == c % Length(p);
        SlotInRange(p, c);
        SameSlotFarApart(d, c, Length(p));
      }
    }
  }

  lemma EarlierRound(p: ClassParams, d: nat)
    requires 0 < p.n
    ensures 0 < Length(p) && (d + Length(p)) % Length(p) == d % Length(p)
    ensures Recorded(p, d + Length(p)) ==> Recorded(p, d)
  {
    NextRound(p, d);
    SameRemainder(d + Length(p), d, p.n);
    DivModUnique(Length(p), p.n, MAX_BACKLOG, 0);
  }

  // ---------- the code that records a batch ----------

  ghost predicate HitsBelow(p: ClassParams, b: Batch, slot: nat, limit: nat)
    requires 0 < p.n
  {
    exists c: nat :: c < limit && Covers(b, c) && Recorded(p, c) && c % Length(p) == slot
  }

  ghost predicate StampedBelow(p: ClassParams, s: seq<Entry>, b: Batch, t: seq<Entry>, limit: nat)
    requires 0 < p.n
  {
    && |t| == |s|
    && forall k :: 0 <= k < |s| ==> t[k] == if HitsBelow(p, b, k, limit) then s[k].(sw := b.now) else s[k]
  }

  /** Advancing the loop from `c` to `next`, with no recorded frame in between, adds at most the slot of `c`. */
  lemma HitsStep(p: ClassParams, b: Batch, slot: nat, c: nat, next: nat)
    requires 0 < p.n && c < next && Recorded(p, c)
    requires forall d: nat :: c < d < next ==> !(Covers(b, d) && Recorded(p, d))
    ensures HitsBelow(p, b, slot, next) <==> HitsBelow(p, b, slot, c) || (Covers(b, c) && c % Length(p) == slot)
  {
    if HitsBelow(p, b, slot, next) {
      var d: nat :| d < next && Covers(b, d) && Recorded(p, d) && d % Length(p) == slot;
      assert d <= c;
    }
    if Covers(b, c) && c % Length(p) == slot {
      assert c < next && Covers(b, c) && Recorded(p, c) && c % Length(p) == slot;
    }
    if HitsBelow(p, b, slot, c) {
      var d: nat :| d < c && Covers(b, d) && Recorded(p, d) && d % Length(p) == slot;
      assert d < next;
    }
  }

  lemma StampStep(p: ClassParams, s: seq<Entry>, b: Batch, t: seq<Entry>, c: nat, next: nat, u: seq<Entry>)
    requires 0 < p.n && c < next && Recorded(p, c) && |s| == Length(p) && StampedBelow(p, s, b, t, c)
    requires forall d: nat :: c < d < next ==> !(Covers(b, d) && Recorded(p, d))
    requires 0 <= c % Length(p) < Length(p)
    requires u == if Covers(b, c) then t[c % Length(p) := t[c % Length(p)].(sw := b.now)] else t
    ensures StampedBelow(p, s, b, u, next)
  {
    forall k | 0 <= k < |s|
      ensures u[k] == if HitsBelow(p, b, k, next) then s[k].(sw := b.now) else s[k]
    {
      HitsStep(p, b, k, c, next);
    }
  }

  lemma NoMultipleBetween(n: nat, c: nat, d: nat)
    requires 0 < n && c % n == 0 && c < d < c + n
    ensures d % n != 0
  {
    DivModFacts(c, n);
    DivModUnique(d, n, c / n, d - c);
  }

  lemma NextMultiple(n: nat, c: nat)
    requires 0 < n && c % n == 0
    ensures (c + n) % n == 0
  {
    SameRemainder(c + n, c, n);
    DivModUnique(n, n, 1, 0);
  }

  /** stat_frames_sent_batch, the part that writes the backlog. */
  method RecordBatch(p: ClassParams, backlog: array<Entry>, first: nat, count: nat, now: nat)
    requires 0 < p.n && backlog.Length == Length(p)
    modifies backlog
    ensures Stamped(p, old(backlog[..]), Batch(first, count, now), backlog[..])
  {
    ghost var b := Batch(first, count, now);
    var end := first + count;
    var c;
    if p.hwStamps {
      c := (first / p.n) * p.n;
      CycleStartFacts(p, first);
      assert c == CycleStart(p, first);
      while c < end
        invariant c % p.n == 0 && StampedBelow(p, old(backlog[..]), b, backlog[..], c)
        decreases end - c
      {
        ghost var t := backlog[..];
        SlotInRange(p, c);
        if c >= first {
          backlog[c % Length(p)] := backlog[c % Length(p)].(sw := now);
        }
        forall d: nat | c < d < c + p.n
          ensures !(Covers(b, d) && Recorded(p, d))
        {
          NoMultipleBetween(p.n, c, d);
        }
        StampStep(p, old(backlog[..]), b, t, c, c + p.n, backlog[..]);
        NextMultiple(p.n, c);
        c := c + p.n;
      }
    } else {
      c := first;
      while c < end
        invariant first <= c && StampedBelow(p, old(backlog[..]), b, backlog[..], c)
      {
        ghost var t := backlog[..];
        SlotInRange(p, c);
        backlog[c % Length(p)] := backlog[c % Length(p)].(sw := now);
        StampStep(p, old(backlog[..]), b, t, c, c + 1, backlog[..]);
        c := c + 1;
      }
    }
    AllBelow(p, old(backlog[..]), b, backlog[..], c);
  }

  lemma AllBelow(p: ClassParams, s: seq<Entry>, b: Batch, t: seq<Entry>, limit: nat)
    requires 0 < p.n && b.first + b.count <= limit && StampedBelow(p, s, b, t, limit)
    ensures Stamped(p, s, b, t)
  {
    forall k | 0 <= k < |s|
      ensures Hits(p, b, k) <==> HitsBelow(p, b, k, limit)
    {
      if Hits(p, b, k) {
        var c: nat :| Covers(b, c) && Recorded(p, c) && c % Length(p) == k;
        assert c < limit;
      }
    }
  }
}
