/**
 Ownership of AF_XDP buffers. A chunk of the shared memory area travels between the fill, Rx, Tx and
 completion rings; an Rx thread and a Tx thread work on the rings under a mutex while the kernel
 works on them at any time.

 Assumed of a ring: it is a first-in first-out queue of 4096 entries, a reservation is granted
 completely or not at all, reserved entries become visible to the kernel in order when they are
 submitted, and peeked entries stay occupied until they are released.
 */
module Umem {
  import opened Words

  const RING_SIZE: nat := 4096
  const BATCH_SIZE: nat := 512

  /**
   Chunk numbers by place: the fill ring, inside the kernel on the way in, the Rx ring, reserved and
   submitted Tx entries, inside the kernel on the way out, the completion ring; then outstanding_tx,
   received_frames and the generator's frame_number. `wire` records every chunk the kernel ever took from
   the Tx ring, in order.
   */
  datatype Socket = Socket(
    fill: seq<nat>, rxKernel: seq<nat>, rx: seq<nat>, reserved: seq<nat>, tx: seq<nat>,
    txKernel: seq<nat>, cq: seq<nat>, outstanding: nat, received: nat, frameNumber: nat, wire: seq<nat>)

  function TxFree(s: Socket): int
  {
    RING_SIZE - |s.reserved| - |s.tx|
  }

  function FillFree(s: Socket): int
  {
    RING_SIZE - |s.fill|
  }

  // ---------- the kernel ----------

  datatype KernelAction = TakeFill | Deliver(i: nat) | TakeTx | Complete(i: nat)

  function Without(s: seq<nat>, i: nat): seq<nat>
    requires i < |s|
  {
    s[..i] + s[i + 1..]
  }

  function KernelStep(s: Socket, k: KernelAction): (r: Socket)
    ensures s.rx <= r.rx && s.cq <= r.cq && r.reserved == s.reserved
    ensures r.outstanding == s.outstanding && r.received == s.received && r.frameNumber == s.frameNumber
  {
    match k
    case TakeFill =>
      if s.fill == [] then s else s.(fill := s.fill[1..], rxKernel := s.rxKernel + [s.fill[0]])
    case Deliver(i) =>
      if i >= |s.rxKernel| || |s.rx| >= RING_SIZE then s
      else s.(rxKernel := Without(s.rxKernel, i), rx := s.rx + [s.rxKernel[i]])
    case TakeTx =>
      if s.tx == [] then s
      else s.(tx := s.tx[1..], txKernel := s.txKernel + [s.tx[0]], wire := s.wire + [s.tx[0]])
    case Complete(i) =>
      if i >= |s.txKernel| || |s.cq| >= RING_SIZE then s
      else s.(txKernel := Without(s.txKernel, i), cq := s.cq + [s.txKernel[i]])
  }

  /** Any number of kernel steps in any order. */
  function Burst(s: Socket, ks: seq<KernelAction>): (r: Socket)
    ensures s.rx <= r.rx && s.cq <= r.cq && r.reserved == s.reserved
    ensures r.outstanding == s.outstanding && r.received == s.received && r.frameNumber == s.frameNumber
  {
    if ks == [] then s else KernelStep(Burst(s, ks[..|ks| - 1]), ks[|ks| - 1])
  }

  /** Kernel activity at the points of a critical section where the kernel can be noticed. */
  datatype Bursts = Bursts(first: seq<KernelAction>, second: seq<KernelAction>, retry: seq<KernelAction>)

  // ---------- the critical sections, as functions ----------

  predicate RoomFor(s: Socket, mirror: bool, n: nat)
  {
    n <= if mirror then TxFree(s) else FillFree(s)
  }

  /** `n` frames leave the Rx ring, towards the Tx ring in mirror mode, otherwise back to the fill ring. */
  function Forwarded(s: Socket, mirror: bool, n: nat): (r: Socket)
    requires n <= |s.rx|
  {
    if mirror then s.(rx := s.rx[n..], reserved := s.reserved + s.rx[..n], received := n)
    else s.(rx := s.rx[n..], fill := s.fill + s.rx[..n], received := n)
  }

  /** `n` frames have been peeked: reserve, retry once after waking the kernel, forward or give up. */
  function Dispatch(s: Socket, mirror: bool, n: nat, retry: seq<KernelAction>): (r: Socket)
    requires n <= |s.rx|
  {
    var again := if RoomFor(s, mirror, n) then s else Burst(s, retry);
    if RoomFor(again, mirror, n) then Forwarded(again, mirror, n) else again.(received := 0)
  }

  /** xdp_receive_frames and the store to received_frames. */
  function RxBody(s: Socket, mirror: bool, b: Bursts): (r: Socket)
  {
    var peeked := Burst(s, b.first);
    var n := Min(BATCH_SIZE, |peeked.rx|);
    var now := Burst(peeked, b.second);
    if n == 0 then now.(received := 0) else Dispatch(now, mirror, n, b.retry)
  }

  function Recycled(s: Socket, n: nat): (r: Socket)
    requires n <= |s.cq| && n <= s.outstanding
  {
    s.(fill := s.fill + s.cq[..n], cq := s.cq[n..], outstanding := s.outstanding - n)
  }

  /** `n` completions have been peeked: reserve, retry once, recycle or give up. */
  function Reclaim(s: Socket, n: nat, retry: seq<KernelAction>): (r: Socket)
    requires n <= |s.cq| && n <= s.outstanding
  {
    var again := if n <= FillFree(s) then s else Burst(s, retry);
    if n <= FillFree(again) then Recycled(again, n) else again
  }

  /** xdp_complete_tx: completed frames go back to the fill ring. */
  function CompleteBody(s: Socket, b: Bursts): (r: Socket)
  {
    if s.outstanding == 0 then s else
    var peeked := Burst(s, b.first);
    var n := Min(s.outstanding, |peeked.cq|);
    if n == 0 then peeked else Reclaim(Burst(peeked, b.second), n, b.retry)
  }

  function Submitted(s: Socket): (r: Socket)
    requires s.received <= |s.reserved|
  {
    var n := s.received;
    s.(tx := s.tx + s.reserved[..n], reserved := s.reserved[n..], outstanding := s.outstanding + n, received := 0)
  }

  /** The mirror's Tx critical section: submit what the Rx thread announced, then recycle. */
  function TxBody(s: Socket, b: Bursts): (r: Socket)
    requires s.received <= |s.reserved|
  {
    CompleteBody(Submitted(s), b)
  }

  /** xdp_complete_tx_only: generated frames are simply forgotten once they are sent. */
  function CompleteOnlyBody(s: Socket, b: Bursts): (r: Socket)
  {
    if s.outstanding == 0 then s else
    var peeked := Burst(s, b.first);
    var n := Min(s.outstanding, |peeked.cq|);
    peeked.(cq := peeked.cq[n..], outstanding := s.outstanding - n)
  }

  function NextFrame(f: nat): nat
  {
    (f + 1) % RING_SIZE + RING_SIZE
  }

  /** The frame numbers handed out for `n` frames, starting at `f`, and the number after them. */
  function Allocation(f: nat, n: nat): (a: seq<nat>)
    ensures |a| == n
  {
    if n == 0 then [] else Allocation(f, n - 1) + [Advance(f, n - 1)]
  }

  function Advance(f: nat, n: nat): nat
  {
    if n == 0 then f else NextFrame(Advance(f, n - 1))
  }

  /** `n` generated frames submitted to the Tx ring. */
  function WithBatch(s: Socket, n: nat): (r: Socket)
  {
    s.(tx := s.tx + Allocation(s.frameNumber, n), frameNumber := Advance(s.frameNumber, n),
       outstanding := s.outstanding + n)
  }

  /** xdp_gen_and_send_frames for `n` frames. */
  function GenBody(s: Socket, n: nat, b: Bursts): (r: Socket)
  {
    if n == 0 then s
    else if TxFree(s) < n then CompleteOnlyBody(s, b)
    else CompleteOnlyBody(WithBatch(s, n), b)
  }

  // ---------- conservation in one step ----------

  /** How often chunk `c` occurs in a ring. */
  function Count(s: seq<nat>, c: nat): (k: nat)
  {
    if s == [] then 0 else Count(s[..|s| - 1], c) + if s[|s| - 1] == c then 1 else 0
  }

  lemma {:induction false} CountMember(s: seq<nat>, c: nat)
    ensures Count(s, c) > 0 <==> c in s
  {
    if s != [] {
      CountMember(s[..|s| - 1], c);
      assert s == s[..|s| - 1] + [s[|s| - 1]];
    }
  }

  lemma {:induction false} CountAppend(a: seq<nat>, b: seq<nat>, c: nat)
    ensures Count(a + b, c) == Count(a, c) + Count(b, c)
  {
    if b == [] {
      assert a + b == a;
    } else {
      CountAppend(a, b[..|b| - 1], c);
      assert (a + b)[..|a + b| - 1] == a + b[..|b| - 1];
    }
  }

  lemma CountSplit(s: seq<nat>, k: nat, c: nat)
    requires k <= |s|
    ensures Count(s, c) == Count(s[..k], c) + Count(s[k..], c)
  {
    CountAppend(s[..k], s[k..], c);
    assert s == s[..k] + s[k..];
  }

  lemma CountWithout(s: seq<nat>, i: nat, c: nat)
    requires i < |s|
    ensures Count(s, c) == Count(Without(s, i), c) + Count([s[i]], c)
  {
    CountSplit(s, i, c);
    CountSplit(s[i..], 1, c);
    assert s[i..][..1] == [s[i]] && s[i..][1..] == s[i + 1..];
    CountAppend(s[..i], s[i + 1..], c);
  }

  /** How many owners chunk `c` has, over all places it can be in. */
  function Owned(s: Socket, c: nat): (k: nat)
  {
    Count(s.fill, c) + Count(s.rxKernel, c) + Count(s.rx, c) + Count(s.reserved, c)
    + Count(s.tx, c) + Count(s.txKernel, c) + Count(s.cq, c)
  }

  function Total(s: Socket): (k: nat)
  {
    |s.fill| + |s.rxKernel| + |s.rx| + |s.reserved| + |s.tx| + |s.txKernel| + |s.cq|
  }

  function InFlight(s: Socket): (k: nat)
  {
    |s.tx| + |s.txKernel| + |s.cq|
  }

  /** Moving the oldest entry of one queue to the end of another. */
  lemma MoveFirst(from: seq<nat>, to: seq<nat>, c: nat)
    requires from != []
    ensures Count(from[1..], c) + Count(to + [from[0]], c) == Count(from, c) + Count(to, c)
  {
    CountSplit(from, 1, c);
    assert from[..1] == [from[0]];
    CountAppend(to, [from[0]], c);
  }

  /** Moving any entry of one queue to the end of another. */
  lemma MoveAny(from: seq<nat>, i: nat, to: seq<nat>, c: nat)
    requires i < |from|
    ensures Count(Without(from, i), c) + Count(to + [from[i]], c) == Count(from, c) + Count(to, c)
  {
    CountWithout(from, i, c);
    CountAppend(to, [from[i]], c);
  }

  /** Moving the `n` oldest entries of one queue to the end of another. */
  lemma MoveFront(from: seq<nat>, n: nat, to: seq<nat>, c: nat)
    requires n <= |from|
    ensures Count(from[n..], c) + Count(to + from[..n], c) == Count(from, c) + Count(to, c)
  {
    CountSplit(from, n, c);
    CountAppend(to, from[..n], c);
  }

  lemma KernelRxConserves(s: Socket, k: KernelAction, c: nat)
    requires k.TakeFill? || k.Deliver?
    ensures Owned(KernelStep(s, k), c) == Owned(s, c)
  {
    match k
    case TakeFill => if s.fill != [] { MoveFirst(s.fill, s.rxKernel, c); }
    case Deliver(i) => if i < |s.rxKernel| { MoveAny(s.rxKernel, i, s.rx, c); }
  }

  lemma KernelTxConserves(s: Socket, k: KernelAction, c: nat)
    requires k.TakeTx? || k.Complete?
    ensures Owned(KernelStep(s, k), c) == Owned(s, c)
  {
    match k
    case TakeTx => if s.tx != [] { MoveFirst(s.tx, s.txKernel, c); }
    case Complete(i) => if i < |s.txKernel| { MoveAny(s.txKernel, i, s.cq, c); }
  }

  lemma KernelStepConserves(s: Socket, k: KernelAction, c: nat)
    ensures Owned(KernelStep(s, k), c) == Owned(s, c)
    ensures Total(KernelStep(s, k)) == Total(s) && InFlight(KernelStep(s, k)) == InFlight(s)
  {
    if k.TakeFill? || k.Deliver? {
      KernelRxConserves(s, k, c);
    } else {
      KernelTxConserves(s, k, c);
    }
  }

  lemma {:induction false} BurstConserves(s: Socket, ks: seq<KernelAction>, c: nat)
    ensures Owned(Burst(s, ks), c) == Owned(s, c)
    ensures Total(Burst(s, ks)) == Total(s) && InFlight(Burst(s, ks)) == InFlight(s)
  {
    if ks != [] {
      BurstConserves(s, ks[..|ks| - 1], c);
      KernelStepConserves(Burst(s, ks[..|ks| - 1]), ks[|ks| - 1], c);
    }
  }

  lemma ForwardedConserves(s: Socket, mirror: bool, n: nat, c: nat)
    requires n <= |s.rx|
    ensures Owned(Forwarded(s, mirror, n), c) == Owned(s, c) && Total(Forwarded(s, mirror, n)) == Total(s)
  {
    MoveFront(s.rx, n, if mirror then s.reserved else s.fill, c);
  }

  lemma DispatchConserves(s: Socket, mirror: bool, n: nat, retry: seq<KernelAction>, c: nat)
    requires n <= |s.rx|
    ensures var r := Dispatch(s, mirror, n, retry);
      Owned(r, c) == Owned(s, c) && Total(r) == Total(s) && InFlight(r) == InFlight(s)
  {
    BurstConserves(s, retry, c);
    var again := if RoomFor(s, mirror, n) then s else Burst(s, retry);
    ForwardedConserves(again, mirror, n, c);
  }

  /**
   Frames are passed on if and only if there is room at the first attempt or after waking the kernel; otherwise they
   stay in the Rx ring and none is announced.
   */
  lemma DispatchExactly(s: Socket, mirror: bool, n: nat, retry: seq<KernelAction>)
    requires 0 < n <= |s.rx|
    ensures var r := Dispatch(s, mirror, n, retry);
      var woken := Burst(s, retry);
      if RoomFor(s, mirror, n) then r.received == n && r.rx == s.rx[n..]
      else if RoomFor(woken, mirror, n) then r.received == n && r.rx == woken.rx[n..]
      else r.received == 0 && r.rx == woken.rx && s.rx <= r.rx
  {
  }

  /** The same for completions and the fill ring. */
  lemma ReclaimExactly(s: Socket, n: nat, retry: seq<KernelAction>)
    requires 0 < n <= |s.cq| && n <= s.outstanding
    ensures var r := Reclaim(s, n, retry);
      var woken := Burst(s, retry);
      if |s.fill| + n <= RING_SIZE then r.fill == s.fill + s.cq[..n] && r.outstanding == s.outstanding - n
      else if |woken.fill| + n <= RING_SIZE then
        r.fill == woken.fill + s.cq[..n] && r.outstanding == s.outstanding - n
      else r.fill == woken.fill && r.cq == woken.cq && r.outstanding == s.outstanding
  {
    assert Burst(s, retry).cq[..n] == s.cq[..n];
  }

  /** Receiving neither loses nor duplicates a chunk, whatever the kernel does and also when a reservation fails. */
  lemma RxConserves(s: Socket, mirror: bool, b: Bursts, c: nat)
    ensures var r := RxBody(s, mirror, b);
      Owned(r, c) == Owned(s, c) && Total(r) == Total(s) && InFlight(r) == InFlight(s)
  {
    var peeked := Burst(s, b.first);
    var n := Min(BATCH_SIZE, |peeked.rx|);
    var now := Burst(peeked, b.second);
    BurstConserves(s, b.first, c);
    BurstConserves(peeked, b.second, c);
    DispatchConserves(now, mirror, n, b.retry, c);
  }

  lemma RecycledConserves(s: Socket, n: nat, c: nat)
    requires n <= |s.cq| && n <= s.outstanding
    ensures Owned(Recycled(s, n), c) == Owned(s, c) && Total(Recycled(s, n)) == Total(s)
    ensures InFlight(Recycled(s, n)) == InFlight(s) - n
  {
    MoveFront(s.cq, n, s.fill, c);
  }

  lemma ReclaimConserves(s: Socket, n: nat, retry: seq<KernelAction>, c: nat)
    requires n <= |s.cq| && n <= s.outstanding
    ensures var r := Reclaim(s, n, retry);
      && Owned(r, c) == Owned(s, c) && Total(r) == Total(s)
      && InFlight(r) - r.outstanding == InFlight(s) - s.outstanding
  {
    BurstConserves(s, retry, c);
    var again := if n <= FillFree(s) then s else Burst(s, retry);
    RecycledConserves(again, n, c);
  }

  lemma CompleteConserves(s: Socket, b: Bursts, c: nat)
    ensures var r := CompleteBody(s, b);
      && Owned(r, c) == Owned(s, c) && Total(r) == Total(s)
      && InFlight(r) - r.outstanding == InFlight(s) - s.outstanding
  {
    if s.outstanding > 0 {
      var peeked := Burst(s, b.first);
      BurstConserves(s, b.first, c);
      BurstConserves(peeked, b.second, c);
      ReclaimConserves(Burst(peeked, b.second), Min(s.outstanding, |peeked.cq|), b.retry, c);
    }
  }

  lemma TxConserves(s: Socket, b: Bursts, c: nat)
    requires s.received <= |s.reserved|
    ensures var r := TxBody(s, b);
      && Owned(r, c) == Owned(s, c) && Total(r) == Total(s)
      && InFlight(r) - r.outstanding == InFlight(s) - s.outstanding
  {
    MoveFront(s.reserved, s.received, s.tx, c);
    CompleteConserves(Submitted(s), b, c);
  }

  // ---------- every interleaving of the mirror ----------

  datatype Action = Rx(b: Bursts) | Tx(b: Bursts) | Kernel(k: KernelAction)

  /** xdp_open_socket: every chunk of the Rx half starts in the fill ring. */
  function Opened(): (s: Socket)
  {
    Socket(seq(RING_SIZE, i => i), [], [], [], [], [], [], 0, 0, RING_SIZE, [])
  }

  /** The chunks of the Rx half each have exactly one owner; no other chunk is around. */
  ghost predicate Partitioned(s: Socket)
  {
    && Total(s) == RING_SIZE
    && forall c: nat :: Owned(s, c) == if c < RING_SIZE then 1 else 0
  }

  ghost predicate MirrorInvariant(s: Socket)
  {
    && Partitioned(s)
    && s.received <= |s.reserved|
    && s.outstanding == InFlight(s)
  }

  function MirrorStep(s: Socket, a: Action): (r: Socket)
    requires s.received <= |s.reserved|
  {
    match a
    case Rx(b) => RxBody(s, true, b)
    case Tx(b) => TxBody(s, b)
    case Kernel(k) => KernelStep(s, k)
  }

  lemma StepKeepsAnnouncement(s: Socket, a: Action)
    requires s.received <= |s.reserved|
    ensures MirrorStep(s, a).received <= |MirrorStep(s, a).reserved|
  {
    match a
    case Rx(b) =>
    case Tx(b) =>
    case Kernel(k) =>
  }

  /** The state after any sequence of critical sections and kernel steps. */
  function MirrorRun(actions: seq<Action>): (s: Socket)
    ensures s.received <= |s.reserved|
  {
    if actions == [] then Opened() else
    var before := MirrorRun(actions[..|actions| - 1]);
    StepKeepsAnnouncement(before, actions[|actions| - 1]);
    MirrorStep(before, actions[|actions| - 1])
  }

  lemma StepConserves(s: Socket, a: Action, c: nat)
    requires s.received <= |s.reserved|
    ensures var r := MirrorStep(s, a);
      && Owned(r, c) == Owned(s, c) && Total(r) == Total(s)
      && InFlight(r) - r.outstanding == InFlight(s) - s.outstanding
  {
    match a
    case Rx(b) => RxConserves(s, true, b, c);
    case Tx(b) => TxConserves(s, b, c);
    case Kernel(k) => KernelStepConserves(s, k, c);
  }

  lemma StepKeepsInvariant(s: Socket, a: Action)
    requires MirrorInvariant(s)
    ensures MirrorInvariant(MirrorStep(s, a))
  {
    var r := MirrorStep(s, a);
    forall c: nat
      ensures Owned(r, c) == if c < RING_SIZE then 1 else 0
    {
      StepConserves(s, a, c);
    }
    StepConserves(s, a, 0);
    StepKeepsAnnouncement(s, a);
  }

  lemma {:induction false} CountIota(n: nat, c: nat)
    ensures Count(seq(n, i => i), c) == if c < n then 1 else 0
  {
    var s := seq(n, i => i);
    if n == 0 {
      assert s == [];
    } else {
      CountIota(n - 1, c);
      var before := seq(n - 1, i => i);
      assert s == before + [n - 1];
      CountAppend(before, [n - 1], c);
    }
  }

  /**
   In every state that any interleaving of Rx thread, Tx thread and kernel can reach, each chunk of the
   Rx half is in exactly one place, no other chunk is in any, and outstanding_tx is the number of
   chunks submitted and not yet recycled.
   */
  lemma {:induction false} EveryRunKeepsInvariant(actions: seq<Action>)
    ensures MirrorInvariant(MirrorRun(actions))
  {
    if actions == [] {
      var s := Opened();
      forall c: nat
        ensures Owned(s, c) == if c < RING_SIZE then 1 else 0
      {
        CountIota(RING_SIZE, c);
      }
    } else {
      EveryRunKeepsInvariant(actions[..|actions| - 1]);
      StepKeepsInvariant(MirrorRun(actions[..|actions| - 1]), actions[|actions| - 1]);
    }
  }

  /** In how many of the seven places chunk `c` is. */
  function Places(s: Socket, c: nat): nat
  {
    Bit(c in s.fill) + Bit(c in s.rxKernel) + Bit(c in s.rx) + Bit(c in s.reserved)
    + Bit(c in s.tx) + Bit(c in s.txKernel) + Bit(c in s.cq)
  }

  /** Each of the 4096 Rx chunks is in exactly one place in every reachable state; other chunks are nowhere. */
  lemma OnePlace(actions: seq<Action>, c: nat)
    ensures Places(MirrorRun(actions), c) == if c < 4096 then 1 else 0
  {
    EveryRunKeepsInvariant(actions);
    var s := MirrorRun(actions);
    assert Owned(s, c) == if c < RING_SIZE then 1 else 0;
    OwnersAndPlaces(s, c);
  }

  lemma OwnersAndPlaces(s: Socket, c: nat)
    requires Owned(s, c) <= 1
    ensures Places(s, c) == Owned(s, c)
  {
    CountMember(s.fill, c);
    CountMember(s.rxKernel, c);
    CountMember(s.rx, c);
    CountMember(s.reserved, c);
    CountMember(s.tx, c);
    CountMember(s.txKernel, c);
    CountMember(s.cq, c);
  }

  // ---------- reservations ----------

  lemma {:induction false} BurstKeepsInvariant(s: Socket, ks: seq<KernelAction>)
    requires MirrorInvariant(s)
    ensures MirrorInvariant(Burst(s, ks))
  {
    if ks != [] {
      BurstKeepsInvariant(s, ks[..|ks| - 1]);
      StepKeepsInvariant(Burst(s, ks[..|ks| - 1]), Kernel(ks[|ks| - 1]));
    }
  }

  /**
   There are as many chunks as ring entries, so whoever holds a chunk finds room for it: in every
   reachable state both threads get the reservations they ask for at the first attempt, and the
   branches that give frames back are never taken.
   */
  lemma ReservationsSucceed(actions: seq<Action>, b: Bursts)
    ensures var s := MirrorRun(actions);
      var peeked := Burst(s, b.first);
      RoomFor(Burst(peeked, b.second), true, Min(BATCH_SIZE, |peeked.rx|))
    ensures var s := Submitted(MirrorRun(actions));
      var peeked := Burst(s, b.first);
      Min(s.outstanding, |peeked.cq|) <= FillFree(Burst(peeked, b.second))
  {
    EveryRunKeepsInvariant(actions);
    var s := MirrorRun(actions);
    BurstKeepsInvariant(s, b.first);
    BurstKeepsInvariant(Burst(s, b.first), b.second);
    SubmittedKeepsInvariant(s);
    BurstKeepsInvariant(Submitted(s), b.first);
    BurstKeepsInvariant(Burst(Submitted(s), b.first), b.second);
  }

  lemma SubmittedKeepsInvariant(s: Socket)
    requires MirrorInvariant(s)
    ensures MirrorInvariant(Submitted(s))
  {
    var r := Submitted(s);
    forall c: nat
      ensures Owned(r, c) == if c < RING_SIZE then 1 else 0
    {
      MoveFront(s.reserved, s.received, s.tx, c);
      assert Owned(r, c) == Owned(s, c);
    }
  }

  /** Hence every Rx step forwards exactly the frames it peeked. */
  lemma RxForwardsAll(actions: seq<Action>, b: Bursts)
    ensures var s := MirrorRun(actions);
      var n := Min(512, |Burst(s, b.first).rx|);
      var r := RxBody(s, true, b);
      r.received == n && r.reserved == s.reserved + Burst(s, b.first).rx[..n]
  {
    ReservationsSucceed(actions, b);
    var s := MirrorRun(actions);
    var peeked := Burst(s, b.first);
    var now := Burst(peeked, b.second);
    var n := Min(BATCH_SIZE, |peeked.rx|);
    assert now.rx[..n] == peeked.rx[..n];
    if n == 0 {
      assert s.reserved + peeked.rx[..n] == s.reserved;
    }
  }

  /** And every Tx step returns all completions it sees to the fill ring, in order. */
  lemma TxRecyclesAll(actions: seq<Action>, b: Bursts)
    ensures var s := Submitted(MirrorRun(actions));
      var peeked := Burst(s, b.first);
      var now := Burst(peeked, b.second);
      var r := TxBody(MirrorRun(actions), b);
      s.outstanding > 0 && peeked.cq != [] ==>
        && r.fill == now.fill + peeked.cq
        && r.cq == now.cq[|peeked.cq|..]
        && r.outstanding == s.outstanding - |peeked.cq|
  {
    ReservationsSucceed(actions, b);
    EveryRunKeepsInvariant(actions);
    var s := Submitted(MirrorRun(actions));
    SubmittedKeepsInvariant(MirrorRun(actions));
    var peeked := Burst(s, b.first);
    BurstKeepsInvariant(s, b.first);
    var now := Burst(peeked, b.second);
    assert now.cq[..|peeked.cq|] == peeked.cq;
  }

  // ---------- announced and forgotten frames ----------

  /** Reserved Tx entries that no later submit will announce. */
  function Stranded(s: Socket): (k: nat)
    requires s.received <= |s.reserved|
  {
    |s.reserved| - s.received
  }

  /** received_frames values that an Rx step overwrote before the Tx thread could use them. */
  function Overwritten(actions: seq<Action>): (k: nat)
  {
    if actions == [] then 0 else
    var before := actions[..|actions| - 1];
    Overwritten(before) + if actions[|actions| - 1].Rx? then MirrorRun(before).received else 0
  }

  lemma StepStrands(s: Socket, a: Action)
    requires s.received <= |s.reserved|
    ensures MirrorStep(s, a).received <= |MirrorStep(s, a).reserved|
    ensures Stranded(MirrorStep(s, a)) == Stranded(s) + if a.Rx? then s.received else 0
  {
    StepKeepsAnnouncement(s, a);
  }

  /** In every run the entries that stay behind in the Tx ring are exactly the overwritten announcements. */
  lemma {:induction false} StrandedIsOverwritten(actions: seq<Action>)
    ensures Stranded(MirrorRun(actions)) == Overwritten(actions)
  {
    if actions != [] {
      StrandedIsOverwritten(actions[..|actions| - 1]);
      StepStrands(MirrorRun(actions[..|actions| - 1]), actions[|actions| - 1]);
    }
  }

  /** No Rx step starts while an announcement is pending. */
  predicate NothingPending(actions: seq<Action>)
  {
    forall i :: 0 <= i < |actions| && actions[i].Rx? ==> MirrorRun(actions[..i]).received == 0
  }

  lemma PendingAtEnd(actions: seq<Action>)
    requires actions != []
    ensures var before := actions[..|actions| - 1];
      NothingPending(actions)
      <==> NothingPending(before) && (actions[|actions| - 1].Rx? ==> MirrorRun(before).received == 0)
  {
    var before := actions[..|actions| - 1];
    assert actions[..|before|] == before;
    forall i | 0 <= i < |before|
      ensures before[i] == actions[i] && before[..i] == actions[..i]
    {
    }
  }

  lemma {:induction false} OverwrittenNothing(actions: seq<Action>)
    ensures Overwritten(actions) == 0 <==> NothingPending(actions)
  {
    if actions != [] {
      OverwrittenNothing(actions[..|actions| - 1]);
      PendingAtEnd(actions);
    }
  }

  /**
   received_frames describes the Tx ring exactly if and only if no Rx step ever found an announcement
   that the Tx thread had not yet used.
   */
  lemma AnnouncementExact(actions: seq<Action>)
    ensures |MirrorRun(actions).reserved| == MirrorRun(actions).received <==> NothingPending(actions)
  {
    StrandedIsOverwritten(actions);
    OverwrittenNothing(actions);
  }

  /** A frame arrives while nothing else is going on. */
  lemma FrameDelivered(s: Socket)
    requires s.fill != [] && s.rxKernel == [] && s.rx == []
    ensures Burst(s, [TakeFill, Deliver(0)]) == s.(fill := s.fill[1..], rx := [s.fill[0]])
  {
    var taken := KernelStep(s, TakeFill);
    assert taken.rxKernel == [s.fill[0]] && Without(taken.rxKernel, 0) == [];
    assert [TakeFill, Deliver(0)][..1] == [TakeFill] && [TakeFill][..0] == [];
    assert Burst(s, []) == s && Burst(s, [TakeFill]) == taken;
    assert Burst(s, [TakeFill, Deliver(0)]) == KernelStep(taken, Deliver(0));
  }

  /** The Rx thread puts it into the Tx ring. */
  lemma OneFrameArrives(s: Socket, b: Bursts)
    requires b.first == [TakeFill, Deliver(0)] && b.second == []
    requires s.fill != [] && s.rxKernel == [] && s.rx == [] && TxFree(s) > 0
    ensures RxBody(s, true, b)
         == s.(fill := s.fill[1..], reserved := s.reserved + [s.fill[0]], received := 1)
  {
    FrameDelivered(s);
    var peeked := Burst(s, b.first);
    assert peeked.rx[..1] == [s.fill[0]] && peeked.rx[1..] == [];
    assert Burst(peeked, b.second) == peeked;
  }

  lemma TwoFramesArrive(s: Socket, b: Bursts)
    requires b.first == [TakeFill, Deliver(0)] && b.second == []
    requires |s.fill| > 1 && s.rxKernel == [] && s.rx == [] && TxFree(s) > 1
    ensures var r := RxBody(RxBody(s, true, b), true, b);
      |r.reserved| == |s.reserved| + 2 && r.received == 1
  {
    OneFrameArrives(s, b);
    OneFrameArrives(RxBody(s, true, b), b);
  }

  /** Two frames in two Rx sections without a Tx section in between: both are reserved, one is announced. */
  lemma FirstFrameForgotten(b: Bursts)
    requires b.first == [TakeFill, Deliver(0)] && b.second == []
    ensures |MirrorRun([Rx(b), Rx(b)]).reserved| == 2 && MirrorRun([Rx(b), Rx(b)]).received == 1
  {
    assert [Rx(b), Rx(b)][..1] == [Rx(b)] && [Rx(b)][..0] == [];
    var s := MirrorRun([]);
    assert MirrorRun([Rx(b)]) == RxBody(s, true, b);
    assert MirrorRun([Rx(b), Rx(b)]) == RxBody(RxBody(s, true, b), true, b);
    TwoFramesArrive(s, b);
  }

  // ---------- which frames are sent ----------

  /** The chunks the Rx thread took over, in order of arrival. */
  function Arrived(actions: seq<Action>): (chunks: seq<nat>)
  {
    if actions == [] then [] else
    var before, last := actions[..|actions| - 1], actions[|actions| - 1];
    if last.Rx? then
      var rx := Burst(MirrorRun(before), last.b.first).rx;
      Arrived(before) + rx[..Min(BATCH_SIZE, |rx|)]
    else Arrived(before)
  }

  /** Everything that was ever submitted: already on the wire, or still in the Tx ring. */
  function Submissions(s: Socket): (chunks: seq<nat>)
  {
    s.wire + s.tx
  }

  lemma KernelKeepsSubmissions(s: Socket, k: KernelAction)
    ensures Submissions(KernelStep(s, k)) == Submissions(s)
  {
    if k.TakeTx? && s.tx != [] {
      assert s.tx == [s.tx[0]] + s.tx[1..];
    }
  }

  lemma {:induction false} BurstKeepsSubmissions(s: Socket, ks: seq<KernelAction>)
    ensures Submissions(Burst(s, ks)) == Submissions(s)
  {
    if ks != [] {
      BurstKeepsSubmissions(s, ks[..|ks| - 1]);
      KernelKeepsSubmissions(Burst(s, ks[..|ks| - 1]), ks[|ks| - 1]);
    }
  }

  lemma RxKeepsSubmissions(s: Socket, mirror: bool, b: Bursts)
    ensures Submissions(RxBody(s, mirror, b)) == Submissions(s)
  {
    var peeked := Burst(s, b.first);
    var now := Burst(peeked, b.second);
    BurstKeepsSubmissions(s, b.first);
    BurstKeepsSubmissions(peeked, b.second);
    BurstKeepsSubmissions(now, b.retry);
  }

  lemma CompleteKeepsSubmissions(s: Socket, b: Bursts)
    ensures Submissions(CompleteBody(s, b)) == Submissions(s) && CompleteBody(s, b).reserved == s.reserved
  {
    var peeked := Burst(s, b.first);
    var now := Burst(peeked, b.second);
    BurstKeepsSubmissions(s, b.first);
    BurstKeepsSubmissions(peeked, b.second);
    BurstKeepsSubmissions(now, b.retry);
  }

  /** The Tx section moves the announced entries behind everything submitted before. */
  lemma TxSubmits(s: Socket, b: Bursts)
    requires s.received <= |s.reserved|
    ensures Submissions(TxBody(s, b)) == Submissions(s) + s.reserved[..s.received]
    ensures TxBody(s, b).reserved == s.reserved[s.received..]
  {
    CompleteKeepsSubmissions(Submitted(s), b);
    AssociateChunks(s.wire, s.tx, s.reserved[..s.received]);
  }

  lemma AssociateChunks(a: seq<nat>, b: seq<nat>, c: seq<nat>)
    ensures (a + b) + c == a + (b + c)
  {
  }

  /**
   In every run, whenever the kernel takes frames from the Tx ring, they go out in the order they arrived in and
   none is left out: what is on the wire, then the Tx ring, then the entries reserved and not yet submitted are
   together the frames that arrived.
   */
  lemma {:induction false} DepartInOrder(actions: seq<Action>)
    ensures var s := MirrorRun(actions); Arrived(actions) == s.wire + s.tx + s.reserved
  {
    if actions != [] {
      var before, last := actions[..|actions| - 1], actions[|actions| - 1];
      var s := MirrorRun(before);
      DepartInOrder(before);
      match last
      case Rx(b) =>
        RxForwardsAll(before, b);
        RxKeepsSubmissions(s, true, b);
        var rx := Burst(s, b.first).rx;
        AssociateChunks(Submissions(s), s.reserved, rx[..Min(BATCH_SIZE, |rx|)]);
      case Tx(b) =>
        TxSubmits(s, b);
        AssociateChunks(Submissions(s), s.reserved[..s.received], s.reserved[s.received..]);
        assert s.reserved == s.reserved[..s.received] + s.reserved[s.received..];
      case Kernel(k) =>
        KernelKeepsSubmissions(s, k);
        assert MirrorRun(actions).reserved == s.reserved;
    }
  }

  // ---------- alternating threads ----------

  /** The last critical section was one of the Rx thread. */
  predicate AwaitsTx(actions: seq<Action>)
  {
    actions != [] &&
    match actions[|actions| - 1]
    case Rx(_) => true
    case Tx(_) => false
    case Kernel(_) => AwaitsTx(actions[..|actions| - 1])
  }

  /** Between two Rx sections there is a Tx section; the kernel is not restricted. */
  predicate Alternating(actions: seq<Action>)
  {
    actions == [] ||
    (Alternating(actions[..|actions| - 1]) && (actions[|actions| - 1].Rx? ==> !AwaitsTx(actions[..|actions| - 1])))
  }

  /**
   If the threads alternate, then after each Rx section the reserved entries are exactly the frames it
   announced, and after each Tx section nothing is reserved.
   */
  lemma {:induction false} AlternatingIsExact(actions: seq<Action>)
    requires Alternating(actions)
    ensures var s := MirrorRun(actions);
      |s.reserved| == s.received && (!AwaitsTx(actions) ==> s.received == 0)
  {
    if actions != [] {
      AlternatingIsExact(actions[..|actions| - 1]);
      StepStrands(MirrorRun(actions[..|actions| - 1]), actions[|actions| - 1]);
    }
  }
}
