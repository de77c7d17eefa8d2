/**
 The AF_XDP frame generator: the Tx thread hands out the chunks of the second half of the shared memory
 area in a circle, without asking whether a chunk has come back. Completions arrive in the order
 of submission.
 */
module UmemGenerator {
  import opened Umem
  import opened Words

  /** The chunk used for the a-th frame generated since start. */
  function Chunk(a: nat): (c: nat)
    ensures RING_SIZE <= c < 2 * RING_SIZE
  {
    RING_SIZE + a % RING_SIZE
  }

  function Chunks(from: nat, n: nat): (s: seq<nat>)
    ensures |s| == n
  {
    if n == 0 then [] else Chunks(from, n - 1) + [Chunk(from + n - 1)]
  }

  lemma {:induction false} ChunksAt(from: nat, n: nat, i: nat)
    requires i < n
    ensures Chunks(from, n)[i] == Chunk(from + i)
  {
    if i < n - 1 {
      ChunksAt(from, n - 1, i);
    }
  }

  lemma {:induction false} ChunksAppend(from: nat, m: nat, n: nat)
    ensures Chunks(from, m + n) == Chunks(from, m) + Chunks(from + m, n)
  {
    if n > 0 {
      ChunksAppend(from, m, n - 1);
    }
  }

  lemma ChunksDrop(from: nat, n: nat, k: nat)
    requires k <= n
    ensures Chunks(from, n)[k..] == Chunks(from + k, n - k)
  {
    ChunksAppend(from, k, n - k);
    assert (Chunks(from, k) + Chunks(from + k, n - k))[k..] == Chunks(from + k, n - k);
  }

  lemma NextChunk(a: nat)
    ensures NextFrame(Chunk(a)) == Chunk(a + 1)
  {
  }

  lemma ChunkWraps(a: nat)
    ensures Chunk(a + RING_SIZE) == Chunk(a)
  {
  }

  lemma ChunkDiffers(a: nat, b: nat)
    requires a < b < a + RING_SIZE
    ensures Chunk(a) != Chunk(b)
  {
  }

  lemma {:induction false} AllocationIsChunks(a: nat, n: nat)
    ensures Allocation(Chunk(a), n) == Chunks(a, n) && Advance(Chunk(a), n) == Chunk(a + n)
  {
    if n > 0 {
      AllocationIsChunks(a, n - 1);
      NextChunk(a + n - 1);
    }
  }

  /** Chunks on their way to the wire, oldest first. */
  function Flying(s: Socket): (f: seq<nat>)
    ensures |f| == InFlight(s)
  {
    s.cq + (s.txKernel + s.tx)
  }

  /**
   After `a` frames: the chunks in flight are those of the newest frames, in order, and all frames were or will be
   taken by the kernel in the order they were generated.
   */
  predicate GeneratorInvariant(s: Socket, a: nat)
  {
    && s.frameNumber == Chunk(a)
    && s.reserved == []
    && s.outstanding == InFlight(s) <= a
    && Flying(s) == Chunks(a - InFlight(s), InFlight(s))
    && Submissions(s) == Chunks(0, a)
  }

  // ---------- steps ----------

  predicate InOrder(k: KernelAction)
  {
    k.Complete? ==> k.i == 0
  }

  predicate AllInOrder(ks: seq<KernelAction>)
  {
    forall i :: 0 <= i < |ks| ==> InOrder(ks[i])
  }

  predicate BurstsInOrder(b: Bursts)
  {
    AllInOrder(b.first) && AllInOrder(b.second) && AllInOrder(b.retry)
  }

  lemma ShiftHead(a: seq<nat>, b: seq<nat>)
    requires b != []
    ensures (a + [b[0]]) + b[1..] == a + b
  {
    assert b == [b[0]] + b[1..];
  }

  lemma KernelKeepsOrder(s: Socket, k: KernelAction)
    requires InOrder(k)
    ensures Flying(KernelStep(s, k)) == Flying(s)
  {
    if k.TakeTx? && s.tx != [] {
      ShiftHead(s.txKernel, s.tx);
    }
    if k.Complete? && s.txKernel != [] {
      var b := s.txKernel + s.tx;
      ShiftHead(s.cq, b);
      assert b[1..] == s.txKernel[1..] + s.tx;
      assert Without(s.txKernel, 0) == s.txKernel[1..];
    }
  }

  lemma {:induction false} BurstKeepsOrder(s: Socket, ks: seq<KernelAction>)
    requires AllInOrder(ks)
    ensures Flying(Burst(s, ks)) == Flying(s)
  {
    if ks != [] {
      BurstKeepsOrder(s, ks[..|ks| - 1]);
      KernelKeepsOrder(Burst(s, ks[..|ks| - 1]), ks[|ks| - 1]);
    }
  }

  lemma BurstKeepsInvariant(s: Socket, ks: seq<KernelAction>, a: nat)
    requires GeneratorInvariant(s, a) && AllInOrder(ks)
    ensures GeneratorInvariant(Burst(s, ks), a)
  {
    BurstKeepsOrder(s, ks);
    BurstConserves(s, ks, 0);
    BurstKeepsSubmissions(s, ks);
  }

  lemma KernelKeepsInvariant(s: Socket, k: KernelAction, a: nat)
    requires GeneratorInvariant(s, a) && InOrder(k)
    ensures GeneratorInvariant(KernelStep(s, k), a)
  {
    KernelKeepsOrder(s, k);
    KernelStepConserves(s, k, 0);
    KernelKeepsSubmissions(s, k);
  }

  lemma DropFront(a: seq<nat>, b: seq<nat>, n: nat)
    requires n <= |a|
    ensures (a + b)[n..] == a[n..] + b
  {
  }

  lemma ForgetKeepsInvariant(s: Socket, n: nat, a: nat)
    requires GeneratorInvariant(s, a) && n <= |s.cq|
    ensures GeneratorInvariant(s.(cq := s.cq[n..], outstanding := s.outstanding - n), a)
  {
    DropFront(s.cq, s.txKernel + s.tx, n);
    ChunksDrop(a - InFlight(s), InFlight(s), n);
  }

  lemma CompleteOnlyKeepsInvariant(s: Socket, b: Bursts, a: nat)
    requires GeneratorInvariant(s, a) && BurstsInOrder(b)
    ensures GeneratorInvariant(CompleteOnlyBody(s, b), a)
    ensures CompleteOnlyBody(s, b).outstanding <= s.outstanding
  {
    if s.outstanding > 0 {
      var peeked := Burst(s, b.first);
      BurstKeepsInvariant(s, b.first, a);
      ForgetKeepsInvariant(peeked, Min(s.outstanding, |peeked.cq|), a);
    }
  }

  lemma SubmitKeepsInvariant(s: Socket, n: nat, a: nat)
    requires GeneratorInvariant(s, a)
    ensures GeneratorInvariant(WithBatch(s, n), a + n)
  {
    AllocationIsChunks(a, n);
    ChunksAppend(a - InFlight(s), InFlight(s), n);
    var batch := Allocation(s.frameNumber, n);
    assert s.cq + (s.txKernel + (s.tx + batch)) == (s.cq + (s.txKernel + s.tx)) + batch;
    ChunksAppend(0, a, n);
    AssociateChunks(s.wire, s.tx, batch);
  }

  lemma GenKeepsInvariant(s: Socket, n: nat, b: Bursts, a: nat)
    requires GeneratorInvariant(s, a) && BurstsInOrder(b)
    ensures GeneratorInvariant(GenBody(s, n, b), a + if n <= TxFree(s) then n else 0)
  {
    if n <= TxFree(s) {
      SubmitKeepsInvariant(s, n, a);
      CompleteOnlyKeepsInvariant(WithBatch(s, n), b, a + n);
    } else {
      CompleteOnlyKeepsInvariant(s, b, a);
    }
  }

  lemma DispatchKeepsInvariant(s: Socket, n: nat, retry: seq<KernelAction>, a: nat)
    requires GeneratorInvariant(s, a) && AllInOrder(retry) && n <= |s.rx|
    ensures GeneratorInvariant(Dispatch(s, false, n, retry), a)
  {
    BurstKeepsInvariant(s, retry, a);
  }

  /** Receiving without mirroring recycles Rx chunks and leaves the generator alone. */
  lemma RxKeepsInvariant(s: Socket, b: Bursts, a: nat)
    requires GeneratorInvariant(s, a) && BurstsInOrder(b)
    ensures GeneratorInvariant(RxBody(s, false, b), a)
  {
    var peeked := Burst(s, b.first);
    BurstKeepsInvariant(s, b.first, a);
    BurstKeepsInvariant(peeked, b.second, a);
    DispatchKeepsInvariant(Burst(peeked, b.second), Min(BATCH_SIZE, |peeked.rx|), b.retry, a);
  }

  // ---------- every run ----------

  datatype Action = Generate(n: nat, b: Bursts) | Receive(b: Bursts) | Kernel(k: KernelAction)

  predicate ActionInOrder(a: Action)
  {
    match a
    case Generate(_, b) => BurstsInOrder(b)
    case Receive(b) => BurstsInOrder(b)
    case Kernel(k) => InOrder(k)
  }

  function Step(s: Socket, a: Action): (r: Socket)
  {
    match a
    case Generate(n, b) => GenBody(s, n, b)
    case Receive(b) => RxBody(s, false, b)
    case Kernel(k) => KernelStep(s, k)
  }

  function Run(actions: seq<Action>): (s: Socket)
  {
    if actions == [] then Opened() else Step(Run(actions[..|actions| - 1]), actions[|actions| - 1])
  }

  /** Frames generated: a batch counts if the Tx ring had room for it. */
  function Generated(actions: seq<Action>): (a: nat)
  {
    if actions == [] then 0 else
    var before := actions[..|actions| - 1];
    var last := actions[|actions| - 1];
    Generated(before) + if last.Generate? && last.n <= TxFree(Run(before)) then last.n else 0
  }

  lemma StepKeepsInvariant(s: Socket, act: Action, a: nat)
    requires GeneratorInvariant(s, a) && ActionInOrder(act)
    ensures GeneratorInvariant(Step(s, act), a + if act.Generate? && act.n <= TxFree(s) then act.n else 0)
  {
    match act
    case Generate(n, b) => GenKeepsInvariant(s, n, b, a);
    case Receive(b) => RxKeepsInvariant(s, b, a);
    case Kernel(k) => KernelKeepsInvariant(s, k, a);
  }

  lemma InitialInvariant()
    ensures GeneratorInvariant(Opened(), 0)
  {
    assert Flying(Opened()) == Chunks(0, 0);
  }

  /** In every run the chunks in flight are those of the newest frames generated. */
  lemma {:induction false} EveryRunKeepsInvariant(actions: seq<Action>)
    requires forall i :: 0 <= i < |actions| ==> ActionInOrder(actions[i])
    ensures GeneratorInvariant(Run(actions), Generated(actions))
  {
    if actions == [] {
      InitialInvariant();
    } else {
      var before, last := actions[..|actions| - 1], actions[|actions| - 1];
      EveryRunKeepsInvariant(before);
      assert ActionInOrder(last);
      StepKeepsInvariant(Run(before), last, Generated(before));
    }
  }

  /** The generator's drain after a batch forgets every completion it sees, so outstanding_tx shrinks by as many. */
  lemma {:induction false} DrainForgetsAll(actions: seq<Action>, n: nat, b: Bursts)
    requires forall i :: 0 <= i < |actions| ==> ActionInOrder(actions[i])
    requires n > 0 && BurstsInOrder(b)
    ensures var s := Run(actions);
      var t := if n <= TxFree(s) then WithBatch(s, n) else s;
      var seen := Burst(t, b.first).cq;
      t.outstanding > 0 ==> GenBody(s, n, b).cq == [] && GenBody(s, n, b).outstanding == t.outstanding - |seen|
  {
    EveryRunKeepsInvariant(actions);
    var s, a := Run(actions), Generated(actions);
    if n <= TxFree(s) {
      SubmitKeepsInvariant(s, n, a);
      BurstKeepsInvariant(WithBatch(s, n), b.first, a + n);
    } else {
      BurstKeepsInvariant(s, b.first, a);
    }
  }

  // ---------- reuse ----------

  predicate Distinct(s: seq<nat>)
  {
    forall i, j :: 0 <= i < j < |s| ==> s[i] != s[j]
  }

  /** Consecutive frames use different chunks exactly as long as there are no more than 4096 of them. */
  lemma ChunksDistinct(from: nat, n: nat)
    ensures Distinct(Chunks(from, n)) <==> n <= RING_SIZE
  {
    var s := Chunks(from, n);
    if n > RING_SIZE {
      ChunksAt(from, n, 0);
      ChunksAt(from, n, RING_SIZE);
      ChunkWraps(from);
      assert s[0] == s[RING_SIZE];
    } else {
      forall i, j | 0 <= i < j < |s|
        ensures s[i] != s[j]
      {
        ChunksAt(from, n, i);
        ChunksAt(from, n, j);
        ChunkDiffers(from + i, from + j);
      }
    }
  }

  /** Writing the next `n` frames would overwrite a chunk that is still in flight. */
  ghost predicate Overwrites(s: Socket, n: nat)
  {
    exists i :: 0 <= i < n && Allocation(s.frameNumber, n)[i] in Flying(s)
  }

  /**
   A batch overwrites a chunk in flight if and only if there are more than 4096 frames outstanding
   together with the batch.
   */
  lemma OverwriteExactly(s: Socket, a: nat, n: nat)
    requires GeneratorInvariant(s, a) && 0 < n <= RING_SIZE
    ensures Overwrites(s, n) <==> s.outstanding + n > RING_SIZE
  {
    AllocationIsChunks(a, n);
    var k := InFlight(s);
    var batch, flying := Chunks(a, n), Flying(s);
    if k >= RING_SIZE {
      ChunksAt(a - k, k, k - RING_SIZE);
      ChunksAt(a, n, 0);
      ChunkWraps(a - RING_SIZE);
      assert flying[k - RING_SIZE] == batch[0];
      assert Allocation(s.frameNumber, n)[0] in flying;
    } else if k + n > RING_SIZE {
      var i := RING_SIZE - k;
      ChunksAt(a - k, k, 0);
      ChunksAt(a, n, i);
      ChunkWraps(a - k);
      assert flying[0] == batch[i];
      assert Allocation(s.frameNumber, n)[i] in flying;
    } else {
      forall i | 0 <= i < n
        ensures batch[i] !in flying
      {
        NotFlying(a, k, n, i);
      }
    }
  }

  lemma NotFlying(a: nat, k: nat, n: nat, i: nat)
    requires i < n && k <= a && k + n <= RING_SIZE
    ensures Chunks(a, n)[i] !in Chunks(a - k, k)
  {
    ChunksAt(a, n, i);
    var older := Chunks(a - k, k);
    forall j | 0 <= j < k
      ensures older[j] != Chunks(a, n)[i]
    {
      ChunksAt(a - k, k, j);
      ChunkDiffers(a - k + j, a + i);
    }
  }

  lemma InvariantDistinct(s: Socket, a: nat)
    requires GeneratorInvariant(s, a)
    ensures Distinct(Flying(s)) <==> s.outstanding <= RING_SIZE
    ensures forall c :: c in Flying(s) ==> RING_SIZE <= c < 2 * RING_SIZE
  {
    var from, k, flying := a - InFlight(s), InFlight(s), Flying(s);
    ChunksDistinct(from, k);
    forall c | c in flying
      ensures RING_SIZE <= c < 2 * RING_SIZE
    {
      var i :| 0 <= i < k && flying[i] == c;
      ChunksAt(from, k, i);
    }
  }

  /** In every run the chunks in flight are outside the Rx half, and distinct while outstanding_tx is at most 4096. */
  lemma EveryRunDistinct(actions: seq<Action>)
    requires forall i :: 0 <= i < |actions| ==> ActionInOrder(actions[i])
    ensures Distinct(Flying(Run(actions))) <==> Run(actions).outstanding <= RING_SIZE
    ensures forall c :: c in Flying(Run(actions)) ==> RING_SIZE <= c < 2 * RING_SIZE
    ensures RING_SIZE <= Run(actions).frameNumber < 2 * RING_SIZE
  {
    EveryRunKeepsInvariant(actions);
    InvariantDistinct(Run(actions), Generated(actions));
  }

  /** In every run the next batch overwrites a chunk in flight exactly when it and outstanding_tx exceed 4096. */
  lemma EveryRunOverwrites(actions: seq<Action>, n: nat)
    requires forall i :: 0 <= i < |actions| ==> ActionInOrder(actions[i])
    requires 0 < n <= RING_SIZE
    ensures Overwrites(Run(actions), n) <==> Run(actions).outstanding + n > RING_SIZE
  {
    EveryRunKeepsInvariant(actions);
    OverwriteExactly(Run(actions), Generated(actions), n);
  }

  const QUIET: Bursts := Bursts([], [], [])

  lemma AfterBatch(n: nat)
    requires 0 < n <= RING_SIZE
    ensures var s := Run([Generate(n, QUIET)]);
      |s.tx| == n && s.reserved == [] && s.outstanding == n
  {
    var a := Generate(n, QUIET);
    assert [a][..0] == [] && Run([a]) == GenBody(Opened(), n, QUIET);
    var s := WithBatch(Opened(), n);
    assert Burst(s, QUIET.first) == s && s.cq == [];
  }

  /**
   A granted reservation does not protect a chunk: after a batch of which the kernel has taken one frame, there is
   room in the Tx ring for as many frames as overwrite one that is still to be sent.
   */
  lemma ReservationIsNotEnough(n: nat)
    requires 0 < n <= RING_SIZE
    ensures var s := Run([Generate(n, QUIET), Action.Kernel(TakeTx)]);
      var m := RING_SIZE - n + 1;
      m <= TxFree(s) && Overwrites(s, m)
  {
    var a, k := Generate(n, QUIET), Action.Kernel(TakeTx);
    assert [a, k][..1] == [a];
    AfterBatch(n);
    var before := Run([a]);
    assert Run([a, k]) == KernelStep(before, TakeTx);
    EveryRunOverwrites([a, k], RING_SIZE - n + 1);
  }

  // ---------- the Rx half ----------

  function RxOwned(s: Socket, c: nat): (k: nat)
  {
    Count(s.fill, c) + Count(s.rxKernel, c) + Count(s.rx, c)
  }

  /** The Rx half is partitioned between fill ring, kernel and Rx ring. */
  ghost predicate RxPartitioned(s: Socket)
  {
    && |s.fill| + |s.rxKernel| + |s.rx| == RING_SIZE
    && forall c: nat :: RxOwned(s, c) == if c < RING_SIZE then 1 else 0
  }

  lemma KernelKeepsRx(s: Socket, k: KernelAction)
    requires RxPartitioned(s)
    ensures RxPartitioned(KernelStep(s, k))
  {
    var r := KernelStep(s, k);
    forall c: nat
      ensures RxOwned(r, c) == if c < RING_SIZE then 1 else 0
    {
      assert RxOwned(s, c) == if c < RING_SIZE then 1 else 0;
      match k
      case TakeFill => if s.fill != [] { MoveFirst(s.fill, s.rxKernel, c); }
      case Deliver(i) => if i < |s.rxKernel| { MoveAny(s.rxKernel, i, s.rx, c); }
      case TakeTx =>
      case Complete(i) =>
    }
  }

  lemma {:induction false} BurstKeepsRx(s: Socket, ks: seq<KernelAction>)
    requires RxPartitioned(s)
    ensures RxPartitioned(Burst(s, ks))
  {
    if ks != [] {
      BurstKeepsRx(s, ks[..|ks| - 1]);
      KernelKeepsRx(Burst(s, ks[..|ks| - 1]), ks[|ks| - 1]);
    }
  }

  /** Recycling always finds room in the fill ring, and keeps the partition. */
  lemma ReceiveKeepsRx(s: Socket, b: Bursts)
    requires RxPartitioned(s)
    ensures RxPartitioned(RxBody(s, false, b))
    ensures var peeked := Burst(s, b.first);
      var r, now, n := RxBody(s, false, b), Burst(peeked, b.second), Min(BATCH_SIZE, |peeked.rx|);
      r.received == n && r.rx == now.rx[n..] && r.fill == now.fill + peeked.rx[..n]
  {
    var peeked := Burst(s, b.first);
    var now := Burst(peeked, b.second);
    var n := Min(BATCH_SIZE, |peeked.rx|);
    BurstKeepsRx(s, b.first);
    BurstKeepsRx(peeked, b.second);
    assert RoomFor(now, false, n);
    assert now.rx[..n] == peeked.rx[..n];
    var r := RxBody(s, false, b);
    if n == 0 {
      assert now.fill + peeked.rx[..0] == now.fill;
    }
    forall c: nat
      ensures RxOwned(r, c) == if c < RING_SIZE then 1 else 0
    {
      assert RxOwned(now, c) == if c < RING_SIZE then 1 else 0;
      MoveFront(now.rx, n, now.fill, c);
    }
  }

  lemma GenKeepsRx(s: Socket, n: nat, b: Bursts)
    requires RxPartitioned(s)
    ensures RxPartitioned(GenBody(s, n, b))
  {
    if n > 0 {
      var t := if TxFree(s) < n then s else WithBatch(s, n);
      assert RxPartitioned(t) by {
        assert forall c: nat :: RxOwned(t, c) == RxOwned(s, c);
      }
      CompleteOnlyKeepsRx(t, b);
    }
  }

  lemma CompleteOnlyKeepsRx(s: Socket, b: Bursts)
    requires RxPartitioned(s)
    ensures RxPartitioned(CompleteOnlyBody(s, b))
  {
    if s.outstanding > 0 {
      var peeked := Burst(s, b.first);
      BurstKeepsRx(s, b.first);
      var r := CompleteOnlyBody(s, b);
      assert forall c: nat :: RxOwned(r, c) == RxOwned(peeked, c);
    }
  }

  /** Whatever the generator and the kernel do, the Rx half stays complete and apart from the Tx half. */
  lemma {:induction false} EveryRunKeepsRx(actions: seq<Action>)
    ensures RxPartitioned(Run(actions))
  {
    if actions == [] {
      var s := Opened();
      forall c: nat
        ensures RxOwned(s, c) == if c < RING_SIZE then 1 else 0
      {
        CountIota(RING_SIZE, c);
      }
    } else {
      var before, last := actions[..|actions| - 1], actions[|actions| - 1];
      EveryRunKeepsRx(before);
      match last
      case Generate(n, b) => GenKeepsRx(Run(before), n, b);
      case Receive(b) => ReceiveKeepsRx(Run(before), b);
      case Kernel(k) => KernelKeepsRx(Run(before), k);
    }
  }
}
