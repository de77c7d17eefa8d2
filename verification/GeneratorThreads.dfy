/**
 The generator takes no lock: its Tx thread and the Rx thread of the same socket run at the same time. They work on
 different rings, so only the order within each of the two directions matters.
 */
module GeneratorThreads {
  import opened Umem
  import opened Words
  import G = UmemGenerator

  /** What either thread or the kernel does to the rings, piece by piece. */
  datatype Piece = Submit(n: nat) | Collect(n: nat) | Recycle(n: nat) | ByKernel(k: KernelAction)

  /** Pieces that work on the fill and Rx rings; all others work on the Tx and completion rings. */
  predicate Inbound(m: Piece)
  {
    m.Recycle? || (m.ByKernel? && (m.k.TakeFill? || m.k.Deliver?))
  }

  /** Submit and collect belong to xdp_gen_and_send_frames, recycle to xdp_receive_frames. */
  function Apply(s: Socket, m: Piece): (r: Socket)
  {
    match m
    case Submit(n) => if n <= TxFree(s) then WithBatch(s, n) else s
    case Collect(n) =>
      if n <= |s.cq| && n <= s.outstanding then s.(cq := s.cq[n..], outstanding := s.outstanding - n) else s
    case Recycle(n) =>
      if n <= |s.rx| && RoomFor(s, false, n) then Forwarded(s, false, n) else s.(received := 0)
    case ByKernel(k) => KernelStep(s, k)
  }

  function ApplyAll(s: Socket, ms: seq<Piece>): (r: Socket)
  {
    if ms == [] then s else Apply(ApplyAll(s, ms[..|ms| - 1]), ms[|ms| - 1])
  }

  // ---------- the critical sections in pieces ----------

  function KernelPieces(ks: seq<KernelAction>): (ms: seq<Piece>)
  {
    if ks == [] then [] else KernelPieces(ks[..|ks| - 1]) + [ByKernel(ks[|ks| - 1])]
  }

  lemma {:induction false} ApplyOneMore(s: Socket, ms: seq<Piece>, m: Piece)
    ensures ApplyAll(s, ms + [m]) == Apply(ApplyAll(s, ms), m)
  {
    assert (ms + [m])[..|ms|] == ms;
  }

  lemma {:induction false} ApplyKernel(s: Socket, ms: seq<Piece>, ks: seq<KernelAction>)
    ensures ApplyAll(s, ms + KernelPieces(ks)) == Burst(ApplyAll(s, ms), ks)
  {
    if ks == [] {
      assert ms + KernelPieces(ks) == ms;
    } else {
      var before, last := ks[..|ks| - 1], ByKernel(ks[|ks| - 1]);
      ApplyKernel(s, ms, before);
      ApplyOneMore(s, ms + KernelPieces(before), last);
      assert ms + KernelPieces(ks) == (ms + KernelPieces(before)) + [last];
    }
  }

  /** The generator's section is a submit, kernel activity, and a collect. */
  lemma GenerateInPieces(s: Socket, n: nat, b: Bursts) returns (k: nat)
    requires n > 0
    ensures GenBody(s, n, b) == ApplyAll(s, [Submit(n)] + (if s.outstanding > 0 || n <= TxFree(s)
      then KernelPieces(b.first) + [Collect(k)] else []))
  {
    var t := Apply(s, Submit(n));
    assert [Submit(n)][..0] == [] && ApplyAll(s, [Submit(n)]) == t;
    if t.outstanding == 0 {
      k := 0;
      assert [Submit(n)] + [] == [Submit(n)];
    } else {
      var peeked := Burst(t, b.first);
      k := Min(t.outstanding, |peeked.cq|);
      ApplyKernel(s, [Submit(n)], b.first);
      ApplyOneMore(s, [Submit(n)] + KernelPieces(b.first), Collect(k));
      assert [Submit(n)] + (KernelPieces(b.first) + [Collect(k)]) == [Submit(n)] + KernelPieces(b.first) + [Collect(k)];
    }
  }

  /** The kernel activity in a receive section: the retry only counts if there was no room at first. */
  function Noticed(s: Socket, b: Bursts): (ms: seq<Piece>)
  {
    var peeked := Burst(s, b.first);
    var n := Min(BATCH_SIZE, |peeked.rx|);
    KernelPieces(b.first) + KernelPieces(b.second)
    + if n == 0 || RoomFor(Burst(peeked, b.second), false, n) then [] else KernelPieces(b.retry)
  }

  lemma RecycleNothing(s: Socket)
    ensures Apply(s, Recycle(0)) == s.(received := 0)
  {
    assert s.rx[0..] == s.rx && s.fill + s.rx[..0] == s.fill;
  }

  lemma NoticedApplied(s: Socket, b: Bursts)
    ensures var peeked := Burst(s, b.first);
      var now, n := Burst(peeked, b.second), Min(BATCH_SIZE, |peeked.rx|);
      ApplyAll(s, Noticed(s, b)) == if n == 0 || RoomFor(now, false, n) then now else Burst(now, b.retry)
  {
    var first, second := KernelPieces(b.first), KernelPieces(b.second);
    ApplyKernel(s, [], b.first);
    assert [] + first == first;
    ApplyKernel(s, first, b.second);
    ApplyKernel(s, first + second, b.retry);
    assert first + second + [] == first + second;
  }

  /** The receiver's section is kernel activity and a recycle. */
  lemma ReceiveInPieces(s: Socket, b: Bursts)
    ensures RxBody(s, false, b)
         == ApplyAll(s, Noticed(s, b) + [Recycle(Min(BATCH_SIZE, |Burst(s, b.first).rx|))])
  {
    var n := Min(BATCH_SIZE, |Burst(s, b.first).rx|);
    NoticedApplied(s, b);
    ApplyOneMore(s, Noticed(s, b), Recycle(n));
    RecycleNothing(ApplyAll(s, Noticed(s, b)));
  }

  // ---------- independence ----------

  predicate SameInbound(s: Socket, t: Socket)
  {
    s.fill == t.fill && s.rxKernel == t.rxKernel && s.rx == t.rx && s.received == t.received
  }

  predicate SameOutbound(s: Socket, t: Socket)
  {
    && s.reserved == t.reserved && s.tx == t.tx && s.txKernel == t.txKernel && s.cq == t.cq
    && s.outstanding == t.outstanding && s.frameNumber == t.frameNumber && s.wire == t.wire
  }

  lemma InboundPiece(s: Socket, t: Socket, m: Piece)
    requires Inbound(m)
    ensures SameOutbound(Apply(s, m), s)
    ensures SameInbound(s, t) ==> SameInbound(Apply(s, m), Apply(t, m))
  {
  }

  lemma OutboundPiece(s: Socket, t: Socket, m: Piece)
    requires !Inbound(m)
    ensures SameInbound(Apply(s, m), s)
    ensures SameOutbound(s, t) ==> SameOutbound(Apply(s, m), Apply(t, m))
  {
  }

  function Select(ms: seq<Piece>, inbound: bool): (r: seq<Piece>)
  {
    if ms == [] then [] else
    Select(ms[..|ms| - 1], inbound) + if Inbound(ms[|ms| - 1]) == inbound then [ms[|ms| - 1]] else []
  }

  /** Each direction ends up as if only its own pieces had been executed. */
  lemma {:induction false} DirectionsIndependent(s: Socket, ms: seq<Piece>)
    ensures SameInbound(ApplyAll(s, ms), ApplyAll(s, Select(ms, true)))
    ensures SameOutbound(ApplyAll(s, ms), ApplyAll(s, Select(ms, false)))
  {
    if ms != [] {
      var before, last := ms[..|ms| - 1], ms[|ms| - 1];
      DirectionsIndependent(s, before);
      var t, u := ApplyAll(s, before), ApplyAll(s, Select(before, Inbound(last)));
      ApplyOneMore(s, Select(before, Inbound(last)), last);
      assert Select(before, !Inbound(last)) + [] == Select(before, !Inbound(last));
      if Inbound(last) {
        InboundPiece(t, u, last);
      } else {
        OutboundPiece(t, u, last);
      }
    }
  }

  /**
   However the pieces of the two threads and of the kernel interleave, the rings end up in the same state as in any
   other order that keeps the two directions as they are, in particular as if each critical section had run at once.
   */
  lemma InterleavingIrrelevant(s: Socket, ms: seq<Piece>, ns: seq<Piece>)
    requires Select(ms, true) == Select(ns, true) && Select(ms, false) == Select(ns, false)
    ensures ApplyAll(s, ms) == ApplyAll(s, ns)
  {
    DirectionsIndependent(s, ms);
    DirectionsIndependent(s, ns);
  }

  // ---------- what every interleaving keeps ----------

  /** Completions arrive in submission order. */
  predicate InOrder(m: Piece)
  {
    m.ByKernel? ==> G.InOrder(m.k)
  }

  function Granted(s: Socket, m: Piece): nat
  {
    if m.Submit? && m.n <= TxFree(s) then m.n else 0
  }

  /** Frames generated by the pieces executed so far. */
  function Generated(s: Socket, ms: seq<Piece>): (k: nat)
  {
    if ms == [] then 0 else
    var before := ms[..|ms| - 1];
    Generated(s, before) + Granted(ApplyAll(s, before), ms[|ms| - 1])
  }

  lemma PieceKeepsInvariant(s: Socket, m: Piece, a: nat)
    requires G.GeneratorInvariant(s, a) && InOrder(m)
    ensures G.GeneratorInvariant(Apply(s, m), a + Granted(s, m))
  {
    match m
    case Submit(n) => if n <= TxFree(s) { G.SubmitKeepsInvariant(s, n, a); }
    case Collect(n) => if n <= |s.cq| && n <= s.outstanding { G.ForgetKeepsInvariant(s, n, a); }
    case Recycle(n) =>
    case ByKernel(k) => G.KernelKeepsInvariant(s, k, a);
  }

  lemma RecycleKeepsRx(s: Socket, n: nat)
    requires G.RxPartitioned(s) && n <= |s.rx|
    ensures RoomFor(s, false, n) && G.RxPartitioned(Forwarded(s, false, n))
  {
    var r := Forwarded(s, false, n);
    forall c: nat
      ensures G.RxOwned(r, c) == if c < RING_SIZE then 1 else 0
    {
      assert G.RxOwned(s, c) == if c < RING_SIZE then 1 else 0;
      MoveFront(s.rx, n, s.fill, c);
    }
  }

  lemma OutboundKeepsRx(s: Socket, r: Socket)
    requires G.RxPartitioned(s) && s.fill == r.fill && s.rxKernel == r.rxKernel && s.rx == r.rx
    ensures G.RxPartitioned(r)
  {
    assert forall c: nat :: G.RxOwned(r, c) == G.RxOwned(s, c);
  }

  lemma PieceKeepsRx(s: Socket, m: Piece)
    requires G.RxPartitioned(s)
    ensures G.RxPartitioned(Apply(s, m))
  {
    match m
    case Submit(n) => OutboundKeepsRx(s, Apply(s, m));
    case Collect(n) => OutboundKeepsRx(s, Apply(s, m));
    case Recycle(n) =>
      if n <= |s.rx| {
        RecycleKeepsRx(s, n);
      } else {
        OutboundKeepsRx(s, Apply(s, m));
      }
    case ByKernel(k) => G.KernelKeepsRx(s, k);
  }

  /**
   In every state that any interleaving of the pieces of both threads and of the kernel reaches, also in the middle of
   a section: the chunks in flight are those of the newest frames generated, in order, and the Rx half is complete
   and in one place each.
   */
  lemma {:induction false} EveryInterleaving(ms: seq<Piece>)
    requires forall i :: 0 <= i < |ms| ==> InOrder(ms[i])
    ensures var s := ApplyAll(Opened(), ms);
      G.GeneratorInvariant(s, Generated(Opened(), ms)) && G.RxPartitioned(s)
  {
    if ms == [] {
      G.EveryRunKeepsInvariant([]);
      G.EveryRunKeepsRx([]);
    } else {
      var before, last := ms[..|ms| - 1], ms[|ms| - 1];
      EveryInterleaving(before);
      assert InOrder(last);
      PieceKeepsInvariant(ApplyAll(Opened(), before), last, Generated(Opened(), before));
      PieceKeepsRx(ApplyAll(Opened(), before), last);
    }
  }

  /** Hence in every such state a batch overwrites a chunk in flight exactly when more than 4096 are outstanding. */
  lemma {:induction false} InterleavingOverwrites(ms: seq<Piece>, n: nat)
    requires forall i :: 0 <= i < |ms| ==> InOrder(ms[i])
    requires 0 < n <= RING_SIZE
    ensures var s := ApplyAll(Opened(), ms); G.Overwrites(s, n) <==> s.outstanding + n > RING_SIZE
  {
    EveryInterleaving(ms);
    G.OverwriteExactly(ApplyAll(Opened(), ms), Generated(Opened(), ms), n);
  }

  lemma {:induction false} ApplyAppend(s: Socket, ms: seq<Piece>, ns: seq<Piece>)
    ensures ApplyAll(s, ms + ns) == ApplyAll(ApplyAll(s, ms), ns)
  {
    if ns == [] {
      assert ms + ns == ms;
    } else {
      var before, last := ns[..|ns| - 1], ns[|ns| - 1];
      ApplyAppend(s, ms, before);
      SplitLast(ms, ns);
      ApplyOneMore(s, ms + before, last);
      ApplyOneMore(ApplyAll(s, ms), before, last);
    }
  }

  lemma SplitLast(ms: seq<Piece>, ns: seq<Piece>)
    requires ns != []
    ensures var before, last := ns[..|ns| - 1], ns[|ns| - 1];
      ms + ns == (ms + before) + [last] && ns == before + [last]
  {
  }

  lemma StepInPieces(s: Socket, a: G.Action) returns (ms: seq<Piece>)
    ensures G.Step(s, a) == ApplyAll(s, ms)
  {
    match a
    case Generate(n, b) =>
      if n == 0 {
        ms := [];
      } else {
        var k := GenerateInPieces(s, n, b);
        ms := [Submit(n)] +
          (if s.outstanding > 0 || n <= TxFree(s) then KernelPieces(b.first) + [Collect(k)] else []);
      }
    case Receive(b) =>
      ReceiveInPieces(s, b);
      ms := Noticed(s, b) + [Recycle(Min(BATCH_SIZE, |Burst(s, b.first).rx|))];
    case Kernel(k) =>
      ms := [ByKernel(k)];
      assert [ByKernel(k)][..0] == [];
  }

  /** The runs with whole sections are interleavings like any other. */
  lemma {:induction false} RunInPieces(actions: seq<G.Action>) returns (ms: seq<Piece>)
    ensures G.Run(actions) == ApplyAll(Opened(), ms)
  {
    if actions == [] {
      ms := [];
    } else {
      var before := RunInPieces(actions[..|actions| - 1]);
      var more := StepInPieces(G.Run(actions[..|actions| - 1]), actions[|actions| - 1]);
      ApplyAppend(Opened(), before, more);
      ms := before + more;
    }
  }
}
