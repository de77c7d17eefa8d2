/** Handing a cycle's frames to the kernel with sendmmsg, which may accept fewer than offered. */
module PacketSend {
  import opened Words

  /** A prepared message: which frame it carries, and whether a hardware Tx timestamp is requested. */
  datatype Message = Message(frame: nat, stamp: bool)

  datatype Result = Sent(count: nat) | Failed

  /**
   What is to be sent: `numFrames` frames with their sequence counters, at most `perCycle` of them per
   batch of messages.
   */
  datatype Request = Request(numFrames: nat, perCycle: nat, counters: seq<nat>, hwStamps: bool)

  predicate Valid(r: Request)
  {
    |r.counters| == r.numFrames && (r.numFrames > 0 ==> r.perCycle > 0)
  }

  /** First and last frame of a cycle, by the frame's own sequence counter. */
  predicate WantsStamp(r: Request, i: nat)
    requires Valid(r) && i < r.numFrames
  {
    r.hwStamps && (r.counters[i] % r.perCycle == 0 || r.counters[i] % r.perCycle == r.perCycle - 1)
  }

  /** Frames 0 .. k-1, each once, in order, with exactly the requested timestamps. */
  function InOrder(r: Request, k: nat): (m: seq<Message>)
    requires Valid(r) && k <= r.numFrames
    ensures |m| == k
  {
    if k == 0 then [] else InOrder(r, k - 1) + [Message(k - 1, WantsStamp(r, k - 1))]
  }

  lemma {:induction false} InOrderAt(r: Request, k: nat, i: nat)
    requires Valid(r) && i < k <= r.numFrames
    ensures InOrder(r, k)[i] == Message(i, WantsStamp(r, i))
  {
    if i < k - 1 {
      InOrderAt(r, k - 1, i);
    }
  }

  /** sendmmsg fails, or accepts at least one and at most all of the messages offered. */
  predicate Accepts(result: Result, offered: nat)
  {
    result.Failed? || 1 <= result.count <= offered
  }

  ghost predicate WellBehaved(reply: (nat, seq<Message>) -> Result)
  {
    forall call: nat, offered: seq<Message> :: offered != [] ==> Accepts(reply(call, offered), |offered|)
  }

  /** The kernel side of the socket: how it replies to each call, and every message it has taken over. */
  class Socket {
    const reply: (nat, seq<Message>) -> Result
    var calls: nat
    var log: seq<Message>

    constructor (reply: (nat, seq<Message>) -> Result)
      ensures this.reply == reply && calls == 0 && log == []
    {
      this.reply, calls, log := reply, 0, [];
    }

    /** The kernel takes the front of what it is offered. */
    method Sendmmsg(offered: seq<Message>) returns (len: Result)
      requires offered != [] && WellBehaved(reply)
      modifies this
      ensures len == reply(old(calls), offered) && Accepts(len, |offered|)
      ensures log == old(log) + if len.Sent? then offered[..len.count] else []
    {
      len := reply(calls, offered);
      assert Accepts(len, |offered|);
      calls := calls + 1;
      if len.Sent? {
        log := log + offered[..len.count];
      }
    }
  }

  /** Fill the message array for the next `toBeSent` frames. */
  method FillMessages(r: Request, msgs: array<Message>, sent: nat, toBeSent: nat)
    requires Valid(r) && sent + toBeSent <= r.numFrames && toBeSent <= msgs.Length
    modifies msgs
    ensures forall i :: 0 <= i < toBeSent ==> msgs[i] == Message(sent + i, WantsStamp(r, sent + i))
  {
    for i := 0 to toBeSent
      invariant forall j :: 0 <= j < i ==> msgs[j] == Message(sent + j, WantsStamp(r, sent + j))
    {
      var stamp := false;
      if r.hwStamps {
        var frameInCycle := r.counters[sent + i] % r.perCycle;
        if frameInCycle == 0 || frameInCycle == r.perCycle - 1 {
          stamp := true;
        }
      }
      msgs[i] := Message(sent + i, stamp);
    }
  }

  /** Taking the front of the next messages extends what was taken in order. */
  lemma {:induction false} TakenInOrder(r: Request, base: seq<Message>, from: nat, offered: seq<Message>, count: nat)
    requires Valid(r) && count <= |offered| && from + |offered| <= r.numFrames
    requires forall i :: 0 <= i < |offered| ==> offered[i] == Message(from + i, WantsStamp(r, from + i))
    ensures base + InOrder(r, from) + offered[..count] == base + InOrder(r, from + count)
    decreases count
  {
    if count == 0 {
      assert offered[..0] == [];
    } else {
      TakenInOrder(r, base, from, offered, count - 1);
      assert offered[..count] == offered[..count - 1] + [offered[count - 1]];
      assert base + InOrder(r, from) + offered[..count]
          == (base + InOrder(r, from) + offered[..count - 1]) + [offered[count - 1]];
      assert InOrder(r, from + count) == InOrder(r, from + count - 1) + [offered[count - 1]];
    }
  }

  /** The inner loop: offer what the kernel has not taken yet until it has taken everything. */
  method SendBatch(r: Request, msgs: array<Message>, socket: Socket, sent: nat, toBeSent: nat, ghost base: seq<Message>)
    returns (ok: bool, innerSent: nat)
    requires Valid(r) && WellBehaved(socket.reply)
    requires toBeSent <= msgs.Length && sent + toBeSent <= r.numFrames
    requires forall i :: 0 <= i < toBeSent ==> msgs[i] == Message(sent + i, WantsStamp(r, sent + i))
    requires socket.log == base + InOrder(r, sent)
    modifies socket
    ensures innerSent <= toBeSent && (ok <==> innerSent == toBeSent)
    ensures socket.log == base + InOrder(r, sent + innerSent)
    ensures (forall call: nat, offered: seq<Message> :: socket.reply(call, offered).Sent?) ==> ok
  {
    innerSent := 0;
    while innerSent < toBeSent
      invariant innerSent <= toBeSent
      invariant socket.log == base + InOrder(r, sent + innerSent)
    {
      var offered := msgs[innerSent..toBeSent];
      var len := socket.Sendmmsg(offered);
      if len.Failed? {
        return false, innerSent;
      }
      TakenInOrder(r, base, sent + innerSent, offered, len.count);
      innerSent := innerSent + len.count;
    }
    return true, innerSent;
  }

  /**
   packet_send_messages. What the kernel has taken over in addition is always the first frames of the
   request, each exactly once and in order, and all of them unless a call fails.
   */
  method SendMessages(r: Request, msgs: array<Message>, socket: Socket) returns (result: Result, ghost taken: nat)
    requires Valid(r) && msgs.Length == r.perCycle && WellBehaved(socket.reply)
    modifies msgs, socket
    ensures taken <= r.numFrames && socket.log == old(socket.log) + InOrder(r, taken)
    ensures result.Sent? ==> result.count == taken == r.numFrames
    ensures result.Failed? ==> taken < r.numFrames
    ensures (forall call: nat, offered: seq<Message> :: socket.reply(call, offered).Sent?) ==> result.Sent?
  {
    var sent := 0;
    while sent < r.numFrames
      invariant sent <= r.numFrames && socket.log == old(socket.log) + InOrder(r, sent)
    {
      var toBeSent := r.numFrames - sent;
      if toBeSent > r.perCycle {
        toBeSent := r.perCycle;
      }
      FillMessages(r, msgs, sent, toBeSent);
      var ok, innerSent := SendBatch(r, msgs, socket, sent, toBeSent, old(socket.log));
      if !ok {
        return Failed, sent + innerSent;
      }
      sent := sent + innerSent;
    }
    result, taken := Sent(sent), sent;
  }

  // ---------- which frames get a timestamp ----------

  /** Frame number `f` is the first or the last frame of cycle `q`. */
  predicate EndsCycle(f: nat, n: nat, q: nat)
  {
    f == q * n || f + 1 == (q + 1) * n
  }

  /**
   A timestamp is requested exactly for the frames whose own number is the first or the last of some cycle, and for
   none if the class has no hardware timestamps. The position in the batch does not matter.
   */
  lemma StampsExactly(r: Request, i: nat)
    requires Valid(r) && i < r.numFrames
    ensures InOrder(r, r.numFrames)[i].frame == i
    ensures InOrder(r, r.numFrames)[i].stamp
       <==> r.hwStamps && exists q: nat :: EndsCycle(r.counters[i], r.perCycle, q)
  {
    InOrderAt(r, r.numFrames, i);
    var f, n := r.counters[i], r.perCycle;
    DivModFacts(f, n);
    if WantsStamp(r, i) {
      assert (f / n + 1) * n == f / n * n + n;
      assert EndsCycle(f, n, f / n);
    }
    if r.hwStamps && exists q: nat :: EndsCycle(f, n, q) {
      var q: nat :| EndsCycle(f, n, q);
      EndRemainder(f, n, q);
    }
  }

  lemma EndRemainder(f: nat, n: nat, q: nat)
    requires 0 < n && EndsCycle(f, n, q)
    ensures f % n == 0 || f % n == n - 1
  {
    if f == q * n {
      DivModUnique(f, n, q, 0);
    } else {
      assert (q + 1) * n == q * n + n;
      DivModUnique(f, n, q, n - 1);
    }
  }

  /** Frames of a gap-free batch that starts a cycle: the requests go to positions 0 and n-1 of each cycle. */
  lemma StampPositions(r: Request, first: nat, i: nat)
    requires Valid(r) && i < r.numFrames
    requires first % r.perCycle == 0 && forall k :: 0 <= k < r.numFrames ==> r.counters[k] == first + k
    ensures InOrder(r, r.numFrames)[i].stamp
       <==> r.hwStamps && (i % r.perCycle == 0 || i % r.perCycle == r.perCycle - 1)
  {
    InOrderAt(r, r.numFrames, i);
    SamePosition(first, i, r.perCycle);
  }

  lemma SamePosition(first: nat, i: nat, n: nat)
    requires 0 < n && first % n == 0
    ensures (first + i) % n == i % n
  {
    DivModFacts(first, n);
    DivModFacts(i, n);
    Regroup(first / n, i / n, n);
    DivModUnique(first + i, n, first / n + i / n, i % n);
  }

  lemma Regroup(a: nat, b: nat, n: nat)
    ensures a * n + b * n == (a + b) * n
  {
  }
}
