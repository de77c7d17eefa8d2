/**
 The AF_PACKET mirror: the Rx thread stores rewritten frames back to back in the ring buffer, the Tx
 thread drains the buffer once per cycle and cuts the bytes at the configured frame length.
 */
module MirrorPipeline {
  import opened Words
  import opened MetaData
  import opened Frames
  import opened Profinet
  import ProfinetCode
  import RB = RingBuffer

  // ---------- cutting a byte string into frames ----------

  function Concat(blocks: seq<seq<byte>>): (s: seq<byte>)
  {
    if blocks == [] then [] else Concat(blocks[..|blocks| - 1]) + blocks[|blocks| - 1]
  }

  /** len / frame_length pieces; a remainder is ignored. */
  function Cut(s: seq<byte>, l: nat): (frames: seq<seq<byte>>)
    requires 0 < l
    ensures forall i :: 0 <= i < |frames| ==> |frames[i]| == l
  {
    if |s| < l then [] else [s[..l]] + Cut(s[l..], l)
  }

  lemma {:induction false} CutLength(s: seq<byte>, l: nat)
    requires 0 < l
    ensures |Cut(s, l)| == |s| / l
  {
    if |s| >= l {
      CutLength(s[l..], l);
      DivModFacts(|s| - l, l);
      var q, r := (|s| - l) / l, (|s| - l) % l;
      assert |s| == (q + 1) * l + r;
      DivModUnique(|s|, l, q + 1, r);
    } else {
      DivModUnique(|s|, l, 0, |s|);
    }
  }

  lemma {:induction false} CutAppend(s: seq<byte>, t: seq<byte>, l: nat)
    requires 0 < l && |s| % l == 0
    ensures Cut(s + t, l) == Cut(s, l) + Cut(t, l)
  {
    if |s| < l {
      DivModUnique(|s|, l, 0, |s|);
      assert s == [] && s + t == t;
    } else {
      SameRemainder(|s|, |s| - l, l);
      DivModUnique(l, l, 1, 0);
      CutAppend(s[l..], t, l);
      assert (s + t)[..l] == s[..l] && (s + t)[l..] == s[l..] + t;
    }
  }

  predicate AllOfLength(blocks: seq<seq<byte>>, l: nat)
  {
    forall i :: 0 <= i < |blocks| ==> |blocks[i]| == l
  }

  lemma {:induction false} ConcatLength(blocks: seq<seq<byte>>, l: nat)
    requires AllOfLength(blocks, l)
    ensures |Concat(blocks)| == |blocks| * l
  {
    if blocks != [] {
      ConcatLength(blocks[..|blocks| - 1], l);
      assert |blocks| * l == (|blocks| - 1) * l + l;
    }
  }

  lemma MultipleHasNoRemainder(k: nat, l: nat)
    requires 0 < l
    ensures (k * l) % l == 0 && (k * l) / l == k
  {
    DivModUnique(k * l, l, k, 0);
  }

  /** Cutting undoes concatenation of equally long blocks. */
  lemma {:induction false} CutConcat(blocks: seq<seq<byte>>, l: nat)
    requires 0 < l && AllOfLength(blocks, l)
    ensures Cut(Concat(blocks), l) == blocks
  {
    if blocks != [] {
      var before, last := blocks[..|blocks| - 1], blocks[|blocks| - 1];
      CutConcat(before, l);
      ConcatLength(before, l);
      MultipleHasNoRemainder(|before|, l);
      CutAppend(Concat(before), last, l);
      assert Cut(last, l) == [last] by {
        assert last[..l] == last && last[l..] == [];
      }
      assert blocks == before + [last];
    }
  }

  // ---------- one cycle ----------

  /** The buffer after a cycle's blocks were added to `q`. */
  function Filled(size: nat, q: seq<byte>, blocks: seq<seq<byte>>): (r: seq<byte>)
  {
    if blocks == [] then q
    else RB.Added(size, Filled(size, q, blocks[..|blocks| - 1]), blocks[|blocks| - 1])
  }

  predicate NoneTooLarge(blocks: seq<seq<byte>>, size: nat)
  {
    forall i :: 0 <= i < |blocks| ==> |blocks[i]| <= size
  }

  lemma {:induction false} FilledKeepsNewest(size: nat, blocks: seq<seq<byte>>)
    requires NoneTooLarge(blocks, size)
    ensures Filled(size, [], blocks) == RB.Newest(Concat(blocks), size)
  {
    if blocks != [] {
      FilledKeepsNewest(size, blocks[..|blocks| - 1]);
      RB.NewestAppend(Concat(blocks[..|blocks| - 1]), blocks[|blocks| - 1], size);
    }
  }

  /**
   The frames sent are exactly the blocks stored, in order, if and only if every block has the
   configured frame length and together they fit into the buffer.
   */
  lemma FramingExact(size: nat, blocks: seq<seq<byte>>, l: nat)
    requires 0 < l && NoneTooLarge(blocks, size)
    ensures Cut(Filled(size, [], blocks), l) == blocks
       <==> AllOfLength(blocks, l) && |Concat(blocks)| <= size
  {
    var held := Filled(size, [], blocks);
    FilledKeepsNewest(size, blocks);
    if AllOfLength(blocks, l) && |Concat(blocks)| <= size {
      CutConcat(blocks, l);
    }
    if Cut(held, l) == blocks {
      assert AllOfLength(blocks, l);
      if |Concat(blocks)| > size {
        TooFewFrames(blocks, held, size, l);
      }
    }
  }

  lemma TooFewFrames(blocks: seq<seq<byte>>, held: seq<byte>, size: nat, l: nat)
    requires 0 < l && AllOfLength(blocks, l) && |Concat(blocks)| > size == |held|
    ensures Cut(held, l) != blocks
  {
    ConcatLength(blocks, l);
    CutLength(held, l);
    DivModFacts(size, l);
    FewerByQuotient(size, l, |blocks|);
  }

  /**
   If a cycle overflows, the first byte sent lies inside a frame unless the buffer size is a
   multiple of the frame length, in which case exactly the oldest frames are missing.
   */
  lemma FramingAfterOverflow(size: nat, blocks: seq<seq<byte>>, l: nat)
    requires 0 < l <= size && AllOfLength(blocks, l) && |Concat(blocks)| > size
    ensures (|Concat(blocks)| - size) % l == 0 <==> size % l == 0
    ensures size % l == 0 ==>
      size / l <= |blocks| && Cut(Filled(size, [], blocks), l) == blocks[|blocks| - size / l..]
  {
    ConcatLength(blocks, l);
    FilledKeepsNewest(size, blocks);
    MultipleHasNoRemainder(|blocks|, l);
    SameRemainder(|blocks| * l, size, l);
    if size % l == 0 {
      LastBlocks(size, blocks, l);
    }
  }

  lemma LastBlocks(size: nat, blocks: seq<seq<byte>>, l: nat)
    requires 0 < l <= size && AllOfLength(blocks, l) && |Concat(blocks)| > size && size % l == 0
    ensures size / l <= |blocks|
    ensures Cut(RB.Newest(Concat(blocks), size), l) == blocks[|blocks| - size / l..]
  {
    var k := size / l;
    DivModFacts(size, l);
    ConcatLength(blocks, l);
    FewerByProduct(k, |blocks|, l);
    var first, last := blocks[..|blocks| - k], blocks[|blocks| - k..];
    assert blocks == first + last;
    ConcatAppend(first, last);
    ConcatLength(last, l);
    assert RB.Newest(Concat(blocks), size) == Concat(last);
    CutConcat(last, l);
  }

  lemma FewerByQuotient(size: nat, l: nat, m: nat)
    requires 0 < l && size < m * l
    ensures size / l < m
  {
    DivModFacts(size, l);
    FewerByProduct(size / l, m, l);
  }

  lemma FewerByProduct(k: nat, m: nat, l: nat)
    requires k * l < m * l
    ensures k < m
  {
    var d := k - m;
    assert d * l == k * l - m * l;
    if d >= 0 {
      MulNonNegative(d, l);
    }
  }

  lemma {:induction false} ConcatAppend(a: seq<seq<byte>>, b: seq<seq<byte>>)
    ensures Concat(a + b) == Concat(a) + Concat(b)
  {
    if b == [] {
      assert a + b == a;
    } else {
      ConcatAppend(a, b[..|b| - 1]);
      assert (a + b)[..|a + b| - 1] == a + b[..|b| - 1];
    }
  }

  /** How a frame reaches the mirror: tag stripped or not, and the timestamp written on receive. */
  datatype Arrival = Arrival(strip: bool, restamp: nat)

  predicate AllStripped(arrivals: seq<Arrival>)
  {
    forall i :: 0 <= i < |arrivals| ==> arrivals[i].strip
  }

  /** If the frame is accepted, the block built from it does not exceed the frame buffer. */
  predicate BlockFits(c: ClassConfig, f: seq<byte>, arrival: Arrival)
    requires Checked(c)
  {
    |f| >= VLAN_ETH_HEADER && Classify(c, OnWire(f, arrival.strip)).None? ==>
      |OnWire(f, arrival.strip)| + VLAN_HEADER <= FRAME_SIZE
  }

  predicate AllFit(c: ClassConfig, frames: seq<seq<byte>>, arrivals: seq<Arrival>)
    requires Checked(c)
  {
    |frames| == |arrivals| && forall i :: 0 <= i < |frames| ==> BlockFits(c, frames[i], arrivals[i])
  }

  /** What the mirror stores for one frame: nothing if it is rejected. */
  function Stored(c: ClassConfig, a: Aead, f: seq<byte>, arrival: Arrival, pattern: seq<byte>): (b: seq<seq<byte>>)
    requires Checked(c) && Contract(a) && BlockFits(c, f, arrival)
    requires c.mode.AuthEncrypt? ==> |pattern| == TailSize(c) - SECURE_HEADER - CHECKSUM
    ensures |b| <= 1
  {
    if |f| < VLAN_ETH_HEADER then [] else
    var r := Receive(c, a, OnWire(f, arrival.strip), pattern, arrival.restamp);
    if r.Rejected? then [] else [Reflected(c, Copying, r)]
  }

  /** What the mirror stores for the frames that reach it. */
  function StoredBlocks(c: ClassConfig, a: Aead, frames: seq<seq<byte>>, arrivals: seq<Arrival>, pattern: seq<byte>)
    : (b: seq<seq<byte>>)
    requires Checked(c) && Contract(a) && AllFit(c, frames, arrivals)
    requires c.mode.AuthEncrypt? ==> |pattern| == TailSize(c) - SECURE_HEADER - CHECKSUM
  {
    if frames == [] then [] else
    var k := |frames| - 1;
    StoredBlocks(c, a, frames[..k], arrivals[..k], pattern) + Stored(c, a, frames[k], arrivals[k], pattern)
  }

  ghost predicate AllHealthy(c: ClassConfig, a: Aead, frames: seq<seq<byte>>, seqNos: seq<nat>, pattern: seq<byte>)
    requires Checked(c) && Contract(a)
  {
    |frames| == |seqNos| && forall i :: 0 <= i < |frames| ==> Healthy(c, a, frames[i], seqNos[i], c.expected, pattern)
  }

  /** Of a healthy frame only a second tag can make a block that is too long. */
  lemma HealthyFits(c: ClassConfig, a: Aead, f: seq<byte>, seqNo: nat, want: seq<byte>, pattern: seq<byte>,
                    arrival: Arrival)
    requires Checked(c) && Contract(a) && Healthy(c, a, f, seqNo, want, pattern)
    ensures BlockFits(c, f, arrival) <==> Fits(c, Copying, arrival.strip)
  {
    OnWireParses(c, f, arrival.strip);
  }

  lemma StrippedFit(c: ClassConfig, a: Aead, frames: seq<seq<byte>>, seqNos: seq<nat>, arrivals: seq<Arrival>,
                    pattern: seq<byte>)
    requires Checked(c) && Contract(a) && AllHealthy(c, a, frames, seqNos, pattern) && |arrivals| == |frames|
    requires AllStripped(arrivals) || c.frameLength + VLAN_HEADER <= FRAME_SIZE
    ensures AllFit(c, frames, arrivals)
  {
    forall i | 0 <= i < |frames|
      ensures BlockFits(c, frames[i], arrivals[i])
    {
      assert Healthy(c, a, frames[i], seqNos[i], c.expected, pattern);
      HealthyFits(c, a, frames[i], seqNos[i], c.expected, pattern, arrivals[i]);
    }
  }

  lemma {:induction false} StoredHealthy(c: ClassConfig, a: Aead, frames: seq<seq<byte>>, seqNos: seq<nat>,
                                         arrivals: seq<Arrival>, pattern: seq<byte>)
    requires Checked(c) && Contract(a) && AllHealthy(c, a, frames, seqNos, pattern)
    requires c.mode.AuthEncrypt? ==> |pattern| == TailSize(c) - SECURE_HEADER - CHECKSUM
    requires AllFit(c, frames, arrivals) && AllStripped(arrivals)
    ensures AllHealthy(c, a, StoredBlocks(c, a, frames, arrivals, pattern), seqNos, pattern)
  {
    if frames != [] {
      var k := |frames| - 1;
      StoredHealthy(c, a, frames[..k], seqNos[..k], arrivals[..k], pattern);
      assert Healthy(c, a, frames[k], seqNos[k], c.expected, pattern);
      var before := StoredBlocks(c, a, frames[..k], arrivals[..k], pattern);
      var last := StoreHealthy(c, a, frames, seqNos[k], arrivals, pattern);
      assert arrivals[k].strip;
      AppendHealthy(c, a, before, seqNos, last, pattern);
    }
  }

  /** A healthy frame is stored whatever its arrival; only if it came stripped is the block a healthy frame. */
  lemma StoreHealthy(c: ClassConfig, a: Aead, frames: seq<seq<byte>>, seqNo: nat, arrivals: seq<Arrival>,
                     pattern: seq<byte>)
    returns (last: seq<byte>)
    requires Checked(c) && Contract(a) && frames != [] && AllFit(c, frames, arrivals)
    requires Healthy(c, a, frames[|frames| - 1], seqNo, c.expected, pattern)
    requires c.mode.AuthEncrypt? ==> |pattern| == TailSize(c) - SECURE_HEADER - CHECKSUM
    ensures StoredBlocks(c, a, frames, arrivals, pattern)
         == StoredBlocks(c, a, frames[..|frames| - 1], arrivals[..|frames| - 1], pattern) + [last]
    ensures arrivals[|frames| - 1].strip ==> Healthy(c, a, last, seqNo, c.expected, pattern)
    ensures |last| == c.frameLength + if arrivals[|frames| - 1].strip then 0 else VLAN_HEADER
  {
    var f, arrival := frames[|frames| - 1], arrivals[|frames| - 1];
    HealthyFits(c, a, f, seqNo, c.expected, pattern, arrival);
    MirrorKeepsGood(c, a, Copying, f, seqNo, c.expected, arrival.strip, pattern, arrival.restamp);
    last := Reflected(c, Copying, Receive(c, a, OnWire(f, arrival.strip), pattern, arrival.restamp));
  }

  lemma AppendHealthy(c: ClassConfig, a: Aead, frames: seq<seq<byte>>, seqNos: seq<nat>, last: seq<byte>,
                      pattern: seq<byte>)
    requires Checked(c) && Contract(a) && |seqNos| > 0
    requires AllHealthy(c, a, frames, seqNos[..|seqNos| - 1], pattern)
    requires Healthy(c, a, last, seqNos[|seqNos| - 1], c.expected, pattern)
    ensures AllHealthy(c, a, frames + [last], seqNos, pattern)
  {
    forall i | 0 <= i < |seqNos|
      ensures Healthy(c, a, (frames + [last])[i], seqNos[i], c.expected, pattern)
    {
      if i < |frames| {
        assert Healthy(c, a, frames[i], seqNos[..|seqNos| - 1][i], c.expected, pattern);
      }
    }
  }

  lemma HealthyLengths(c: ClassConfig, a: Aead, blocks: seq<seq<byte>>, seqNos: seq<nat>, pattern: seq<byte>)
    requires Checked(c) && Contract(a) && AllHealthy(c, a, blocks, seqNos, pattern)
    ensures AllOfLength(blocks, c.frameLength)
  {
    forall i | 0 <= i < |blocks|
      ensures |blocks[i]| == c.frameLength
    {
      assert Healthy(c, a, blocks[i], seqNos[i], c.expected, pattern);
    }
  }

  /** set_mirror_tx_timestamp on one frame: only frames without security are stamped on Tx. */
  function Stamped(mode: Mode, f: seq<byte>, metaAt: nat, ts: nat): (r: seq<byte>)
    requires metaAt + META_SIZE <= |f|
    ensures |r| == |f|
  {
    if mode.NoSecurity? then Splice(f, metaAt + COUNTERS_SIZE, EncodeTimestamp(ts)) else f
  }

  /** Tx side of a cycle: everything that was held, cut at the frame length and stamped. */
  function Drained(mode: Mode, l: nat, metaAt: nat, ts: nat, held: seq<byte>): (frames: seq<seq<byte>>)
    requires 0 < l && metaAt + META_SIZE <= l
  {
    var cut := Cut(held, l);
    seq(|cut|, i requires 0 <= i < |cut| => Stamped(mode, cut[i], metaAt, ts))
  }

  lemma StampedHealthy(c: ClassConfig, a: Aead, f: seq<byte>, seqNo: nat, want: seq<byte>, pattern: seq<byte>, ts: nat)
    requires Checked(c) && Contract(a) && Healthy(c, a, f, seqNo, want, pattern)
    requires c.mode.AuthEncrypt? ==> |pattern| == TailSize(c) - SECURE_HEADER - CHECKSUM
    ensures Healthy(c, a, Stamped(c.mode, f, VLAN_ETH_HEADER + MetaAt(c.mode), ts), seqNo, want, pattern)
  {
    if c.mode.NoSecurity? {
      var tail := f[VLAN_ETH_HEADER..];
      RestampKeepsGood(c, a, tail, seqNo, want, pattern, ts);
      var g := Stamped(c.mode, f, VLAN_ETH_HEADER + MetaAt(c.mode), ts);
      assert g[VLAN_ETH_HEADER..] == Restamped(c, tail, ts);
      assert g[12..VLAN_ETH_HEADER] == f[12..VLAN_ETH_HEADER];
    }
  }

  /**
   One cycle of the mirror, from the wire to the wire: frames that authenticate and arrive with their
   tag stripped, and that fit into the buffer, leave again one for one, in order, cut at the right
   places, and authenticate again with the same sequence numbers and payload, whatever timestamps are
   written on receive and on Tx.
   */
  lemma MirrorCycle(c: ClassConfig, a: Aead, frames: seq<seq<byte>>, seqNos: seq<nat>, arrivals: seq<Arrival>,
                    pattern: seq<byte>, size: nat, ts: nat)
    requires Checked(c) && Contract(a) && AllHealthy(c, a, frames, seqNos, pattern)
    requires c.mode.AuthEncrypt? ==> |pattern| == TailSize(c) - SECURE_HEADER - CHECKSUM
    requires |arrivals| == |frames| && AllStripped(arrivals)
    requires |frames| * c.frameLength <= size && c.frameLength <= size
    ensures AllFit(c, frames, arrivals)
    ensures var held := Filled(size, [], StoredBlocks(c, a, frames, arrivals, pattern));
      var sent := Drained(c.mode, c.frameLength, VLAN_ETH_HEADER + MetaAt(c.mode), ts, held);
      AllHealthy(c, a, sent, seqNos, pattern)
  {
    StrippedFit(c, a, frames, seqNos, arrivals, pattern);
    var blocks := StoredBlocks(c, a, frames, arrivals, pattern);
    StoredHealthy(c, a, frames, seqNos, arrivals, pattern);
    HealthyLengths(c, a, blocks, seqNos, pattern);
    ConcatLength(blocks, c.frameLength);
    FramingExact(size, blocks, c.frameLength);
    DrainHealthy(c, a, blocks, Filled(size, [], blocks), seqNos, pattern, ts);
  }

  lemma DrainHealthy(c: ClassConfig, a: Aead, blocks: seq<seq<byte>>, held: seq<byte>, seqNos: seq<nat>,
                     pattern: seq<byte>, ts: nat)
    requires Checked(c) && Contract(a) && AllHealthy(c, a, blocks, seqNos, pattern)
    requires c.mode.AuthEncrypt? ==> |pattern| == TailSize(c) - SECURE_HEADER - CHECKSUM
    requires Cut(held, c.frameLength) == blocks
    ensures var sent := Drained(c.mode, c.frameLength, VLAN_ETH_HEADER + MetaAt(c.mode), ts, held);
      AllHealthy(c, a, sent, seqNos, pattern)
  {
    var sent := Drained(c.mode, c.frameLength, VLAN_ETH_HEADER + MetaAt(c.mode), ts, held);
    forall i | 0 <= i < |sent|
      ensures Healthy(c, a, sent[i], seqNos[i], c.expected, pattern)
    {
      assert Healthy(c, a, blocks[i], seqNos[i], c.expected, pattern);
      StampedHealthy(c, a, blocks[i], seqNos[i], c.expected, pattern, ts);
    }
  }

  /** Every block has the frame length, four bytes more if the frame came with its tag. */
  predicate LengthsFit(c: ClassConfig, blocks: seq<seq<byte>>, arrivals: seq<Arrival>)
  {
    |blocks| == |arrivals| &&
    forall i :: 0 <= i < |blocks| ==> |blocks[i]| == c.frameLength + if arrivals[i].strip then 0 else VLAN_HEADER
  }

  lemma AppendLength(c: ClassConfig, blocks: seq<seq<byte>>, arrivals: seq<Arrival>, last: seq<byte>)
    requires |arrivals| > 0 && LengthsFit(c, blocks, arrivals[..|arrivals| - 1])
    requires |last| == c.frameLength + if arrivals[|arrivals| - 1].strip then 0 else VLAN_HEADER
    ensures LengthsFit(c, blocks + [last], arrivals)
  {
    forall i | 0 <= i < |arrivals|
      ensures |(blocks + [last])[i]| == c.frameLength + if arrivals[i].strip then 0 else VLAN_HEADER
    {
      if i < |blocks| {
        assert arrivals[i] == arrivals[..|arrivals| - 1][i];
      }
    }
  }

  lemma {:induction false} StoredLengths(c: ClassConfig, a: Aead, frames: seq<seq<byte>>, seqNos: seq<nat>,
                                         arrivals: seq<Arrival>, pattern: seq<byte>)
    requires Checked(c) && Contract(a) && AllHealthy(c, a, frames, seqNos, pattern)
    requires c.mode.AuthEncrypt? ==> |pattern| == TailSize(c) - SECURE_HEADER - CHECKSUM
    requires AllFit(c, frames, arrivals)
    ensures LengthsFit(c, StoredBlocks(c, a, frames, arrivals, pattern), arrivals)
  {
    if frames != [] {
      var k := |frames| - 1;
      StoredLengths(c, a, frames[..k], seqNos[..k], arrivals[..k], pattern);
      assert Healthy(c, a, frames[k], seqNos[k], c.expected, pattern);
      var last := StoreHealthy(c, a, frames, seqNos[k], arrivals, pattern);
      AppendLength(c, StoredBlocks(c, a, frames[..k], arrivals[..k], pattern), arrivals, last);
    }
  }

  lemma {:induction false} ConcatAtMost(blocks: seq<seq<byte>>, m: nat)
    requires NoneTooLarge(blocks, m)
    ensures |Concat(blocks)| <= |blocks| * m
  {
    if blocks != [] {
      ConcatAtMost(blocks[..|blocks| - 1], m);
      assert |blocks| * m == (|blocks| - 1) * m + m;
    }
  }

  /** With room for all of them, healthy frames are cut at the right places if and only if all came stripped. */
  lemma CycleExactly(c: ClassConfig, a: Aead, frames: seq<seq<byte>>, seqNos: seq<nat>, arrivals: seq<Arrival>,
                     pattern: seq<byte>, size: nat)
    requires Checked(c) && Contract(a) && AllHealthy(c, a, frames, seqNos, pattern)
    requires c.mode.AuthEncrypt? ==> |pattern| == TailSize(c) - SECURE_HEADER - CHECKSUM
    requires AllFit(c, frames, arrivals)
    requires |frames| * (c.frameLength + VLAN_HEADER) <= size && c.frameLength + VLAN_HEADER <= size
    ensures var blocks := StoredBlocks(c, a, frames, arrivals, pattern);
      && |blocks| == |frames|
      && (Cut(Filled(size, [], blocks), c.frameLength) == blocks <==> AllStripped(arrivals))
  {
    var blocks := StoredBlocks(c, a, frames, arrivals, pattern);
    StoredLengths(c, a, frames, seqNos, arrivals, pattern);
    LengthsFrame(c, blocks, arrivals, size);
  }

  lemma LengthsFrame(c: ClassConfig, blocks: seq<seq<byte>>, arrivals: seq<Arrival>, size: nat)
    requires 0 < c.frameLength && LengthsFit(c, blocks, arrivals)
    requires |blocks| * (c.frameLength + VLAN_HEADER) <= size && c.frameLength + VLAN_HEADER <= size
    ensures Cut(Filled(size, [], blocks), c.frameLength) == blocks <==> AllStripped(arrivals)
  {
    LengthsDecide(c, blocks, arrivals, size);
    ConcatAtMost(blocks, c.frameLength + VLAN_HEADER);
    FramingExact(size, blocks, c.frameLength);
  }

  lemma LengthsDecide(c: ClassConfig, blocks: seq<seq<byte>>, arrivals: seq<Arrival>, size: nat)
    requires LengthsFit(c, blocks, arrivals) && c.frameLength + VLAN_HEADER <= size
    ensures NoneTooLarge(blocks, c.frameLength + VLAN_HEADER) && NoneTooLarge(blocks, size)
    ensures AllOfLength(blocks, c.frameLength) <==> AllStripped(arrivals)
  {
    if !AllStripped(arrivals) {
      var i :| 0 <= i < |arrivals| && !arrivals[i].strip;
      assert |blocks[i]| != c.frameLength;
    }
    if AllStripped(arrivals) {
      forall i | 0 <= i < |blocks|
        ensures |blocks[i]| == c.frameLength
      {
        assert arrivals[i].strip;
      }
    }
  }

  // ---------- every run of cycles ----------

  /** What each cycle drains, and what is left in the buffer after the last one. */
  datatype Output = Output(held: seq<byte>, drains: seq<seq<byte>>)

  function Cycles(size: nat, cycles: seq<seq<seq<byte>>>): (o: Output)
  {
    if cycles == [] then Output([], []) else
    var o := Cycles(size, cycles[..|cycles| - 1]);
    var q := Filled(size, o.held, cycles[|cycles| - 1]);
    var k := RB.FetchCount(size, q, size);
    Output(q[k..], o.drains + [q[..k]])
  }

  lemma {:induction false} FilledBounded(size: nat, q: seq<byte>, blocks: seq<seq<byte>>)
    requires |q| <= size
    ensures |Filled(size, q, blocks)| <= size
  {
    if blocks != [] {
      FilledBounded(size, q, blocks[..|blocks| - 1]);
    }
  }

  /** A cycle that starts with an empty buffer drains all it holds. */
  lemma CycleDrains(size: nat, blocks: seq<seq<byte>>)
    requires NoneTooLarge(blocks, size)
    ensures var q := Filled(size, [], blocks);
      var k := RB.FetchCount(size, q, size);
      q[k..] == [] && q[..k] == RB.Newest(Concat(blocks), size)
  {
    FilledKeepsNewest(size, blocks);
    FilledBounded(size, [], blocks);
  }

  /** Each drain is the newest bytes of the blocks of its cycle. */
  predicate DrainsFit(size: nat, cycles: seq<seq<seq<byte>>>, drains: seq<seq<byte>>)
  {
    |drains| == |cycles| && forall j :: 0 <= j < |cycles| ==> drains[j] == RB.Newest(Concat(cycles[j]), size)
  }

  lemma AppendDrain(size: nat, cycles: seq<seq<seq<byte>>>, drains: seq<seq<byte>>, last: seq<seq<byte>>)
    requires DrainsFit(size, cycles, drains)
    ensures DrainsFit(size, cycles + [last], drains + [RB.Newest(Concat(last), size)])
  {
  }

  /**
   Every drain empties the buffer, so cycles do not influence each other: each one sends the newest
   bytes of its own blocks, also right after a cycle that overflowed.
   */
  lemma {:induction false} CyclesIndependent(size: nat, cycles: seq<seq<seq<byte>>>)
    requires forall j :: 0 <= j < |cycles| ==> NoneTooLarge(cycles[j], size)
    ensures Cycles(size, cycles).held == [] && DrainsFit(size, cycles, Cycles(size, cycles).drains)
  {
    if cycles != [] {
      var before, last := cycles[..|cycles| - 1], cycles[|cycles| - 1];
      CyclesIndependent(size, before);
      CycleDrains(size, last);
      AppendDrain(size, before, Cycles(size, before).drains, last);
      assert cycles == before + [last];
    }
  }

  // ---------- the code ----------

  lemma SwappedPrefix(f: seq<byte>, len: nat)
    requires 12 <= len <= |f|
    ensures Swapped(f[..len]) == Swapped(f)[..len]
  {
  }

  /** One received frame with AF_XDP: parse, protect again, rewrite in place. */
  method ReceiveAndReflect(c: ClassConfig, a: Aead, frame: array<byte>, len: nat, pattern: seq<byte>, restamp: nat)
    returns (r: Received)
    requires Checked(c) && Contract(a) && len <= frame.Length == FRAME_SIZE
    requires c.mode.AuthEncrypt? ==> |pattern| == TailSize(c) - SECURE_HEADER - CHECKSUM
    modifies frame
    ensures r == Receive(c, a, old(frame[..len]), pattern, restamp)
    ensures r.Rejected? ==> frame[..] == old(frame[..])
    ensures r.Accepted? ==> |r.frame| >= ETH_HEADER && Reflected(c, InPlace, r) <= frame[..]
  {
    r := ProfinetCode.ReceiveProfinetFrame(c, a, frame, len, pattern, restamp);
    if r.Rejected? {
      return;
    }
    SwappedPrefix(frame[..], len);
    assert len <= c.frameLength && (r.tagMissing ==> len + VLAN_HEADER == c.frameLength);
    MirrorInPlace(frame, len, r.tagMissing, ETH_P_PROFINET_RT, c.tci);
    if r.tagMissing {
      assert frame[..len + 4] == Reflected(c, InPlace, r);
    } else {
      assert frame[..len] == Reflected(c, InPlace, r);
    }
  }

  /** One received frame with AF_PACKET: parse, protect again, assemble, store. */
  method ReceiveAndStore(c: ClassConfig, a: Aead, frame: array<byte>, len: nat, pattern: seq<byte>, restamp: nat,
                         newFrame: array<byte>, ring: RB.Ring)
    returns (r: Received)
    requires Checked(c) && Contract(a)
    requires len <= frame.Length && newFrame.Length == FRAME_SIZE
    requires Classify(c, frame[..len]).None? ==> len + VLAN_HEADER <= FRAME_SIZE
    requires c.mode.AuthEncrypt? ==> |pattern| == TailSize(c) - SECURE_HEADER - CHECKSUM
    requires ring.Valid() && frame != newFrame && ring.data != frame && ring.data != newFrame
    modifies frame, newFrame, ring, ring.data
    ensures ring.Valid() && ring.data == old(ring.data)
    ensures r == Receive(c, a, old(frame[..len]), pattern, restamp)
    ensures r.Rejected? ==> ring.Contents() == old(ring.Contents())
    ensures r.Accepted? ==> |r.frame| >= ETH_HEADER
    ensures r.Accepted? ==>
      ring.Contents() == RB.Added(ring.data.Length, old(ring.Contents()), Reflected(c, Copying, r))
  {
    r := ProfinetCode.ReceiveProfinetFrame(c, a, frame, len, pattern, restamp);
    if r.Rejected? {
      return;
    }
    BuildVlanFrameFromRx(frame, len, newFrame, ETH_P_PROFINET_RT, c.tci);
    ring.Add(newFrame[..len + VLAN_HEADER]);
  }

  /** An accepted frame occupies the configured frame length exactly when its tag was stripped. */
  lemma StoredLength(c: ClassConfig, a: Aead, f: seq<byte>, pattern: seq<byte>, restamp: nat)
    requires Checked(c) && Contract(a)
    requires c.mode.AuthEncrypt? ==> |pattern| == TailSize(c) - SECURE_HEADER - CHECKSUM
    ensures var r := Receive(c, a, f, pattern, restamp);
      r.Accepted? ==>
        var stored := |Mirrored(r.frame, ETH_P_PROFINET_RT, c.tci)|;
        (stored == c.frameLength <==> r.tagMissing) && (!r.tagMissing ==> stored == c.frameLength + VLAN_HEADER)
  {
  }

  /** Cut and stamp, frame by frame. */
  method StampFrames(mode: Mode, l: nat, metaAt: nat, ts: nat, bytes: seq<byte>) returns (frames: seq<seq<byte>>)
    requires 0 < l && metaAt + META_SIZE <= l
    ensures frames == Drained(mode, l, metaAt, ts, bytes)
  {
    ghost var cut := Cut(bytes, l);
    frames := [];
    var rest := bytes;
    while |rest| >= l
      invariant |frames| <= |cut| && Cut(rest, l) == cut[|frames|..]
      invariant forall i :: 0 <= i < |frames| ==> frames[i] == Stamped(mode, cut[i], metaAt, ts)
      decreases |rest|
    {
      NextFrame(rest, l, cut, |frames|);
      frames := frames + [Stamped(mode, rest[..l], metaAt, ts)];
      rest := rest[l..];
    }
  }

  lemma NextFrame(rest: seq<byte>, l: nat, cut: seq<seq<byte>>, k: nat)
    requires 0 < l <= |rest| && k <= |cut| && Cut(rest, l) == cut[k..]
    ensures k < |cut| && cut[k] == rest[..l] && Cut(rest[l..], l) == cut[k + 1..]
  {
    assert Cut(rest, l) == [rest[..l]] + Cut(rest[l..], l);
    assert cut[k] == cut[k..][0] && cut[k + 1..] == cut[k..][1..];
  }

  /** Tx side of a cycle: drain everything, cut, stamp. */
  method DrainFrames(mode: Mode, l: nat, metaAt: nat, ts: nat, ring: RB.Ring) returns (frames: seq<seq<byte>>)
    requires ring.Valid() && 0 < l && metaAt + META_SIZE <= l
    modifies ring`rp, ring`count
    ensures ring.Valid() && ring.Contents() == []
    ensures frames == Drained(mode, l, metaAt, ts, old(ring.Contents()))
  {
    var bytes := ring.Fetch(ring.data.Length);
    assert bytes == old(ring.Contents());
    frames := StampFrames(mode, l, metaAt, ts, bytes);
  }

  /** Stamping on Tx touches neither the sequence counter nor, in the secure modes, anything at all. */
  lemma StampedKeepsCounter(mode: Mode, f: seq<byte>, metaAt: nat, ts: nat, n: nat)
    requires metaAt + META_SIZE <= |f|
    ensures GetSequenceCounter(Stamped(mode, f, metaAt, ts), metaAt, n) == GetSequenceCounter(f, metaAt, n)
    ensures !mode.NoSecurity? ==> Stamped(mode, f, metaAt, ts) == f
  {
    var g := Stamped(mode, f, metaAt, ts);
    assert g[..metaAt + COUNTERS_SIZE] == f[..metaAt + COUNTERS_SIZE];
    assert g[metaAt..metaAt + COUNTERS_SIZE] == g[..metaAt + COUNTERS_SIZE][metaAt..];
    assert f[metaAt..metaAt + COUNTERS_SIZE] == f[..metaAt + COUNTERS_SIZE][metaAt..];
  }
}
