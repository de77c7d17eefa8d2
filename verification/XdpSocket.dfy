/** The AF_XDP socket code, step by step, proved against the transition functions of module Umem. */
module XdpSocket {
  import opened Umem
  import opened Words

  /** xsk_ring_prod__reserve: all or nothing. */
  function Reserve(free: int, n: nat): (slots: nat)
    ensures slots == n || (slots == 0 && n > free)
  {
    if n <= free then n else 0
  }

  class Xsk {
    var fill: seq<nat>
    var rxKernel: seq<nat>
    var rx: seq<nat>
    var reserved: seq<nat>
    var tx: seq<nat>
    var txKernel: seq<nat>
    var cq: seq<nat>
    var outstandingTx: nat
    var receivedFrames: nat
    var frameNumber: nat
    /** What the kernel has taken from the Tx ring since start. */
    var wire: seq<nat>

    ghost function View(): (s: Socket)
      reads this
    {
      Socket(fill, rxKernel, rx, reserved, tx, txKernel, cq, outstandingTx, receivedFrames, frameNumber,
             wire)
    }

    /** xdp_open_socket: hand every Rx chunk to the fill ring. */
    constructor ()
      ensures View() == Opened()
    {
      rxKernel, rx, reserved, tx, txKernel, cq := [], [], [], [], [], [];
      outstandingTx, receivedFrames, frameNumber := 0, 0, RING_SIZE;
      fill, wire := [], [];
      new;
      var i := 0;
      while i < RING_SIZE
        invariant 0 <= i <= RING_SIZE && fill == seq(i, k => k)
        invariant View() == Opened().(fill := fill)
      {
        fill := fill + [i];
        i := i + 1;
        assert fill == seq(i, k => k);
      }
    }

    method KernelRunsOnce(k: KernelAction)
      modifies this
      ensures View() == KernelStep(old(View()), k)
    {
      match k {
        case TakeFill =>
          if fill != [] {
            rxKernel, fill := rxKernel + [fill[0]], fill[1..];
          }
        case Deliver(j) =>
          if j < |rxKernel| && |rx| < RING_SIZE {
            rx, rxKernel := rx + [rxKernel[j]], Without(rxKernel, j);
          }
        case TakeTx =>
          if tx != [] {
            txKernel, wire, tx := txKernel + [tx[0]], wire + [tx[0]], tx[1..];
          }
        case Complete(j) =>
          if j < |txKernel| && |cq| < RING_SIZE {
            cq, txKernel := cq + [txKernel[j]], Without(txKernel, j);
          }
      }
    }

    /** The environment: kernel steps that happen while a thread is running or sleeping. */
    method KernelRuns(ks: seq<KernelAction>)
      modifies this
      ensures View() == Burst(old(View()), ks)
    {
      for i := 0 to |ks|
        invariant View() == Burst(old(View()), ks[..i])
      {
        KernelRunsOnce(ks[i]);
        assert ks[..i + 1][..i] == ks[..i];
      }
      assert ks[..|ks|] == ks;
    }

    /** Copy the first `n` descriptors of a ring, one by one. */
    method CopyDescriptors(ring: seq<nat>, n: nat) returns (descs: seq<nat>)
      requires n <= |ring|
      ensures descs == ring[..n]
    {
      descs := [];
      for i := 0 to n
        invariant descs == ring[..i]
      {
        descs := descs + [ring[i]];
      }
    }

    /** The Rx thread's critical section. */
    method ReceiveFrames(mirrorEnabled: bool, b: Bursts)
      modifies this
      ensures View() == RxBody(old(View()), mirrorEnabled, b)
    {
      KernelRuns(b.first);
      var received := Min(BATCH_SIZE, |rx|);
      KernelRuns(b.second);
      if received == 0 {
        receivedFrames := 0;
        return;
      }
      Forward(mirrorEnabled, received, b.retry);
    }

    method Forward(mirrorEnabled: bool, received: nat, retry: seq<KernelAction>)
      requires 0 < received <= |rx|
      modifies this
      ensures View() == Dispatch(old(View()), mirrorEnabled, received, retry)
    {
      var slots := Reserve(if mirrorEnabled then RING_SIZE - |reserved| - |tx| else RING_SIZE - |fill|, received);
      if slots != received {
        KernelRuns(retry);
        slots := Reserve(if mirrorEnabled then RING_SIZE - |reserved| - |tx| else RING_SIZE - |fill|, received);
      }
      if slots != received {
        receivedFrames := 0;
        return;
      }
      var descs := CopyDescriptors(rx, received);
      if mirrorEnabled {
        reserved := reserved + descs;
      } else {
        fill := fill + descs;
      }
      rx := rx[received..];
      receivedFrames := received;
    }

    /** xdp_complete_tx: recycle transmitted frames for Rx. */
    method CompleteTx(b: Bursts)
      modifies this
      ensures View() == CompleteBody(old(View()), b)
    {
      var ndescs := outstandingTx;
      if outstandingTx == 0 {
        return;
      }
      KernelRuns(b.first);
      var received := Min(ndescs, |cq|);
      if received == 0 {
        return;
      }
      KernelRuns(b.second);
      ReclaimCompleted(received, b.retry);
    }

    method ReclaimCompleted(received: nat, retry: seq<KernelAction>)
      requires 0 < received <= |cq| && received <= outstandingTx
      modifies this
      ensures View() == Reclaim(old(View()), received, retry)
    {
      var slots := Reserve(RING_SIZE - |fill|, received);
      if slots != received {
        KernelRuns(retry);
        slots := Reserve(RING_SIZE - |fill|, received);
      }
      if slots != received {
        return;
      }
      var addrs := CopyDescriptors(cq, received);
      fill := fill + addrs;
      cq := cq[received..];
      outstandingTx := outstandingTx - received;
    }

    method SubmitAnnounced()
      requires receivedFrames <= |reserved|
      modifies this
      ensures View() == Submitted(old(View()))
    {
      var received := receivedFrames;
      tx := tx + reserved[..received];
      reserved := reserved[received..];
      outstandingTx := outstandingTx + received;
      receivedFrames := 0;
    }

    /** The mirror branch of the Tx thread's critical section. */
    method SubmitReceived(b: Bursts)
      requires receivedFrames <= |reserved|
      modifies this
      ensures View() == TxBody(old(View()), b)
    {
      SubmitAnnounced();
      CompleteTx(b);
    }

    /** xdp_complete_tx_only: forget transmitted frames. */
    method CompleteTxOnly(b: Bursts)
      modifies this
      ensures View() == CompleteOnlyBody(old(View()), b)
    {
      var ndescs := outstandingTx;
      if outstandingTx == 0 {
        return;
      }
      KernelRuns(b.first);
      var received := Min(ndescs, |cq|);
      if received == 0 {
        return;
      }
      cq := cq[received..];
      outstandingTx := outstandingTx - received;
    }

    /** xdp_gen_and_send_frames: take the next chunks in the circle and submit them. */
    method GenerateAndSend(n: nat, b: Bursts)
      modifies this
      ensures View() == GenBody(old(View()), n, b)
    {
      if n == 0 {
        return;
      }
      if Reserve(RING_SIZE - |reserved| - |tx|, n) < n {
        CompleteTxOnly(b);
        return;
      }
      var descs := [];
      for i := 0 to n
        invariant descs == Allocation(old(frameNumber), i)
        invariant frameNumber == Advance(old(frameNumber), i)
        invariant View() == old(View()).(frameNumber := frameNumber)
      {
        descs := descs + [frameNumber];
        frameNumber := frameNumber + 1;
        frameNumber := frameNumber % RING_SIZE + RING_SIZE;
      }
      tx := tx + descs;
      outstandingTx := outstandingTx + n;
      CompleteTxOnly(b);
    }
  }
}
