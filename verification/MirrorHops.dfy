/**
 Frames on their way through mirrors: what a mirror puts on the wire for a frame that is alone in its cycle, and
 what the next receiver makes of it.
 */
module MirrorHops {
  import opened Words
  import opened MetaData
  import opened Frames
  import opened Profinet
  import opened MirrorPipeline

  /**
   One mirror: how it builds frames, whether its NIC strips the tag, the timestamp it writes on receive, and the
   one the AF_PACKET Tx thread writes into frames without security.
   */
  datatype Hop = Hop(path: Path, strip: bool, restamp: nat, stamp: nat)

  /** A mirror that does not tag a tagged frame again. */
  predicate Sound(hop: Hop)
  {
    hop.path.InPlace? || hop.strip
  }

  /** The size of the mirror buffer. */
  function BufferSize(c: ClassConfig): (size: nat)
    requires Checked(c)
    ensures FRAME_SIZE <= size
  {
    MulNonNegative(FRAME_SIZE, c.framesPerCycle - 1);
    FRAME_SIZE * c.framesPerCycle
  }

  /** The mirror accepts the frame, and the copying path has room for the block it builds. */
  predicate Takes(c: ClassConfig, f: seq<byte>, hop: Hop)
    requires Checked(c)
  {
    && |f| >= VLAN_ETH_HEADER && Classify(c, OnWire(f, hop.strip)).None?
    && (hop.path.Copying? ==> BlockFits(c, f, Arrival(hop.strip, hop.restamp)))
  }

  function AtMirror(c: ClassConfig, a: Aead, f: seq<byte>, pattern: seq<byte>, hop: Hop): (r: Received)
    requires Checked(c) && Contract(a) && Takes(c, f, hop)
    requires c.mode.AuthEncrypt? ==> |pattern| == TailSize(c) - SECURE_HEADER - CHECKSUM
    ensures r.Accepted? && |r.frame| == |OnWire(f, hop.strip)| && r.tagMissing == !HasTag(OnWire(f, hop.strip))
  {
    Receive(c, a, OnWire(f, hop.strip), pattern, hop.restamp)
  }

  /**
   What the mirror sends. AF_XDP sends the chunk that was rewritten in place; AF_PACKET sends what the Tx thread
   drains from the mirror buffer, cut at the frame length.
   */
  function Sends(c: ClassConfig, a: Aead, f: seq<byte>, pattern: seq<byte>, hop: Hop): (sent: seq<seq<byte>>)
    requires Checked(c) && Contract(a) && Takes(c, f, hop)
    requires c.mode.AuthEncrypt? ==> |pattern| == TailSize(c) - SECURE_HEADER - CHECKSUM
  {
    match hop.path
    case InPlace => [Reflected(c, InPlace, AtMirror(c, a, f, pattern, hop))]
    case Copying =>
      var held := Filled(BufferSize(c), [], StoredBlocks(c, a, [f], [Arrival(hop.strip, hop.restamp)], pattern));
      Drained(c.mode, c.frameLength, VLAN_ETH_HEADER + MetaAt(c.mode), hop.stamp, held)
  }

  lemma CutOne(block: seq<byte>, l: nat)
    requires 0 < l <= |block| < 2 * l
    ensures Cut(block, l) == [block[..l]]
  {
    assert Cut(block[l..], l) == [];
  }

  lemma FilledOne(size: nat, block: seq<byte>)
    requires |block| <= size
    ensures Filled(size, [], [block]) == block
  {
    assert [block][..0] == [] && [] + block == block;
  }

  /** The frame that leaves the copying path: the block, cut and stamped. */
  function Outgoing(c: ClassConfig, block: seq<byte>, stamp: nat): (g: seq<byte>)
    requires Checked(c) && c.frameLength <= |block|
    ensures |g| == c.frameLength
  {
    Stamped(c.mode, block[..c.frameLength], VLAN_ETH_HEADER + MetaAt(c.mode), stamp)
  }

  lemma SendsOne(c: ClassConfig, a: Aead, f: seq<byte>, seqNo: nat, want: seq<byte>, pattern: seq<byte>, hop: Hop)
    requires Checked(c) && Contract(a) && Healthy(c, a, f, seqNo, want, pattern) && hop.path.Copying?
    requires c.mode.AuthEncrypt? ==> |pattern| == TailSize(c) - SECURE_HEADER - CHECKSUM
    requires Takes(c, f, hop)
    ensures var block := Reflected(c, Copying, AtMirror(c, a, f, pattern, hop));
      && c.frameLength <= |block|
      && Sends(c, a, f, pattern, hop) == [Outgoing(c, block, hop.stamp)]
  {
    var arrival := Arrival(hop.strip, hop.restamp);
    OnWireParses(c, f, hop.strip);
    var block := Reflected(c, Copying, AtMirror(c, a, f, pattern, hop));
    StoredOne(c, a, f, arrival, pattern);
    FilledOne(BufferSize(c), block);
    CutOne(block, c.frameLength);
  }

  lemma StoredOne(c: ClassConfig, a: Aead, f: seq<byte>, arrival: Arrival, pattern: seq<byte>)
    requires Checked(c) && Contract(a) && BlockFits(c, f, arrival)
    requires c.mode.AuthEncrypt? ==> |pattern| == TailSize(c) - SECURE_HEADER - CHECKSUM
    ensures StoredBlocks(c, a, [f], [arrival], pattern) == Stored(c, a, f, arrival, pattern)
  {
    assert [f][..0] == [] && [arrival][..0] == [];
  }

  /** `g` is what a mirror that takes `f` sends, and all it sends. */
  ghost predicate HopsTo(c: ClassConfig, a: Aead, f: seq<byte>, pattern: seq<byte>, hop: Hop, g: seq<byte>)
    requires Checked(c) && Contract(a)
    requires c.mode.AuthEncrypt? ==> |pattern| == TailSize(c) - SECURE_HEADER - CHECKSUM
  {
    Takes(c, f, hop) && Sends(c, a, f, pattern, hop) == [g]
  }

  // ---------- a sound mirror ----------

  lemma StampKeepsAddresses(c: ClassConfig, block: seq<byte>, stamp: nat)
    requires Checked(c) && c.frameLength <= |block|
    ensures var g := Outgoing(c, block, stamp);
      g[..12] == block[..12] && g[12..VLAN_ETH_HEADER] == block[12..VLAN_ETH_HEADER]
  {
    var cut, g := block[..c.frameLength], Outgoing(c, block, stamp);
    var k := VLAN_ETH_HEADER + MetaAt(c.mode) + COUNTERS_SIZE;
    assert g[..k] == cut[..k];
    ShorterPrefix(g, k, 12);
    ShorterPrefix(cut, k, 12);
    ShorterPrefix(block, c.frameLength, 12);
    InPrefix(g, k, 12, VLAN_ETH_HEADER);
    InPrefix(cut, k, 12, VLAN_ETH_HEADER);
    InPrefix(block, c.frameLength, 12, VLAN_ETH_HEADER);
  }

  /** What a sound mirror sends for a healthy frame is a healthy frame with the addresses exchanged. */
  lemma SoundHop(c: ClassConfig, a: Aead, f: seq<byte>, seqNo: nat, want: seq<byte>, pattern: seq<byte>,
                 hop: Hop, g: seq<byte>)
    requires Checked(c) && Contract(a) && Healthy(c, a, f, seqNo, want, pattern) && Sound(hop)
    requires c.mode.AuthEncrypt? ==> |pattern| == TailSize(c) - SECURE_HEADER - CHECKSUM
    requires HopsTo(c, a, f, pattern, hop, g)
    ensures Healthy(c, a, g, seqNo, want, pattern) && Exchanged(f, g)
  {
    MirrorKeepsGood(c, a, hop.path, f, seqNo, want, hop.strip, pattern, hop.restamp);
    if hop.path.Copying? {
      SendsOne(c, a, f, seqNo, want, pattern, hop);
      var block := Reflected(c, Copying, AtMirror(c, a, f, pattern, hop));
      assert block[..c.frameLength] == block;
      StampedHealthy(c, a, block, seqNo, want, pattern, hop.stamp);
      StampKeepsAddresses(c, block, hop.stamp);
    }
  }

  // ---------- a tagged frame at the copying mirror ----------

  /** The 32 bits that end up where the frame counter is expected. */
  function SecondField(c: ClassConfig, tail: seq<byte>): nat
    requires Checked(c) && |tail| == TailSize(c)
  {
    if c.mode.NoSecurity? then ETH_P_PROFINET_RT * TWO16 + FromBigEndian(tail[0..2]) else FromBigEndian(tail[6..10])
  }

  /** The number read from a frame whose fields are four bytes off. */
  function ShiftedCounter(c: ClassConfig, tail: seq<byte>): nat
    requires Checked(c) && |tail| == TailSize(c)
  {
    var at := MetaAt(c.mode);
    FromBigEndian(tail[at..at + 4]) * c.framesPerCycle + SecondField(c, tail)
  }

  /** By coincidence the shifted fields mean the same: the number, and the expected start of the payload. */
  predicate Coincides(c: ClassConfig, tail: seq<byte>, seqNo: nat, want: seq<byte>, restamp: nat)
    requires Checked(c) && |tail| == TailSize(c)
  {
    ShiftedCounter(c, tail) == seqNo && want <= EncodeTimestamp(restamp)[4..] + want
  }

  lemma TwoBytes(b: seq<byte>)
    requires |b| == 2
    ensures FromBigEndian(b) == b[0] as int * 256 + b[1]
  {
    assert b[..1] == [b[0]] && [b[0]][..0] == [];
    assert FromBigEndian([]) == 0 && FromBigEndian([b[0]]) == b[0];
  }

  lemma FourBytes(b: seq<byte>)
    requires |b| == 4
    ensures FromBigEndian(b) == FromBigEndian(b[0..2]) * TWO16 + FromBigEndian(b[2..4]) < TWO32
  {
    TwoBytes(b[0..2]);
    TwoBytes(b[2..4]);
    var three, two := b[..3], b[..2];
    assert three[..2] == two && two == b[0..2];
    assert FromBigEndian(three) == FromBigEndian(two) * 256 + b[2];
    assert FromBigEndian(b) == FromBigEndian(three) * 256 + b[3];
  }

  lemma NoWrap(x: nat, y: nat, n: nat)
    requires x < TWO32 && y < TWO32 && n <= TWO32
    ensures x * n + y < TWO64
  {
    MulNonNegative(TWO32 - 1 - x, n);
    assert (TWO32 - 1 - x) * n == TWO32 * n - n - x * n;
  }

  /** Tag control information and EtherType have taken the place of the first four bytes of the tail. */
  predicate Shifted(c: ClassConfig, tail: seq<byte>, s: seq<byte>)
    requires Checked(c) && |tail| == TailSize(c)
  {
    var at := MetaAt(c.mode);
    && |s| == TailSize(c)
    && s[0..2] == BigEndian(c.tci, 2) && s[2..4] == BigEndian(ETH_P_PROFINET_RT, 2)
    && s[4..at + COUNTERS_SIZE] == tail[0..at + 4]
  }

  lemma ShiftedSecond(c: ClassConfig, tail: seq<byte>, s: seq<byte>)
    requires Checked(c) && |tail| == TailSize(c) && Shifted(c, tail, s)
    ensures var at := MetaAt(c.mode); FromBigEndian(s[at..at + 4]) == SecondField(c, tail) < TWO32
  {
    var at := MetaAt(c.mode);
    FourBytes(s[at..at + 4]);
    if c.mode.NoSecurity? {
      InSlice(s, 2, 6, 0, 2);
      InSlice(s, 2, 6, 2, 4);
      InSlice(s, 4, 10, 0, 2);
      InSlice(tail, 0, 6, 0, 2);
      FrameIdRoundTrip(ETH_P_PROFINET_RT);
    } else {
      InSlice(s, 4, 18, 6, 10);
      InSlice(tail, 0, 14, 6, 10);
    }
  }

  lemma ShiftedNumber(c: ClassConfig, tail: seq<byte>, s: seq<byte>)
    requires Checked(c) && |tail| == TailSize(c) && Shifted(c, tail, s)
    ensures TailCounter(c, s) == ShiftedCounter(c, tail)
  {
    var at := MetaAt(c.mode);
    var first := tail[at..at + 4];
    InSlice(s, 4, at + 8, at, at + 4);
    InSlice(tail, 0, at + 4, at, at + 4);
    ShiftedSecond(c, tail, s);
    FourBytes(first);
    NoWrap(FromBigEndian(first), SecondField(c, tail), c.framesPerCycle);
    InSlice(s, at, at + COUNTERS_SIZE, 0, 4);
    InSlice(s, at, at + COUNTERS_SIZE, 4, 8);
    DecodeBytes(s[at..at + COUNTERS_SIZE], SecondField(c, tail), FromBigEndian(first), c.framesPerCycle,
                ShiftedCounter(c, tail));
  }

  /** What lies behind the EtherType of a tagged frame, cut to the length of a tail. */
  function CutTail(c: ClassConfig, frame: seq<byte>): (s: seq<byte>)
    requires Checked(c) && |frame| == c.frameLength
    ensures |s| == TailSize(c)
  {
    frame[ETH_HEADER..c.frameLength - VLAN_HEADER]
  }

  /** The Tx stamp, which frames with security do not get. */
  function TxStamped(c: ClassConfig, tail: seq<byte>, stamp: nat): (r: seq<byte>)
    requires Checked(c) && |tail| == TailSize(c)
    ensures |r| == |tail|
  {
    if c.mode.NoSecurity? then Restamped(c, tail, stamp) else tail
  }

  /** Restamping and protecting leave the counters and what precedes them alone. */
  lemma FrontKept(c: ClassConfig, a: Aead, tail: seq<byte>, seqNo: nat, pattern: seq<byte>, restamp: nat)
    requires Checked(c) && Contract(a) && |tail| == TailSize(c)
    requires c.mode.AuthEncrypt? ==> |pattern| == TailSize(c) - SECURE_HEADER - CHECKSUM
    ensures var k := MetaAt(c.mode) + COUNTERS_SIZE;
      Protect(c, a, Restamped(c, tail, restamp), seqNo, pattern)[..k] == tail[..k]
  {
    var k, hs := MetaAt(c.mode) + COUNTERS_SIZE, HeaderSize(c.mode);
    var stamped := Restamped(c, tail, restamp);
    var p := Protect(c, a, stamped, seqNo, pattern);
    ShorterPrefix(p, hs, k);
    ShorterPrefix(stamped, hs, k);
  }

  lemma TagParts(etherType: nat, tci: nat)
    ensures TagBytes(etherType, tci)[2..4] == BigEndian(tci, 2)
    ensures TagBytes(etherType, tci)[4..6] == BigEndian(etherType, 2)
  {
  }

  lemma CutTailShifted(c: ClassConfig, f: seq<byte>, frame: seq<byte>, newTail: seq<byte>)
    requires Checked(c) && |f| == c.frameLength && frame == f[..VLAN_ETH_HEADER] + newTail
    requires f[12..VLAN_ETH_HEADER] == TagBytes(ETH_P_PROFINET_RT, c.tci)
    requires var k := MetaAt(c.mode) + COUNTERS_SIZE;
      |newTail| == TailSize(c) && newTail[..k] == f[VLAN_ETH_HEADER..][..k]
    ensures Shifted(c, f[VLAN_ETH_HEADER..], CutTail(c, frame))
    ensures CutTail(c, frame)[4..TailSize(c)] == newTail[0..TailSize(c) - 4]
  {
    var h, at, n := VLAN_ETH_HEADER, MetaAt(c.mode), c.frameLength - VLAN_HEADER;
    var tail, k := f[h..], at + COUNTERS_SIZE;
    assert frame[..h] == f[..h] && frame[h..] == newTail;
    TagParts(ETH_P_PROFINET_RT, c.tci);
    TagByte(f, frame, n, 14, ETH_P_PROFINET_RT, c.tci);
    TagByte(f, frame, n, 16, ETH_P_PROFINET_RT, c.tci);
    InSlice(frame, ETH_HEADER, n, 4, k);
    InSuffix(frame, h, 0, at + 4);
    InPrefix(newTail, k, 0, at + 4);
    InPrefix(tail, k, 0, at + 4);
    InSlice(frame, ETH_HEADER, n, 4, TailSize(c));
    InSuffix(frame, h, 0, TailSize(c) - 4);
  }

  lemma TagByte(f: seq<byte>, frame: seq<byte>, n: nat, i: nat, etherType: nat, tci: nat)
    requires (i == 14 || i == 16) && |f| >= 18 && 18 <= n <= |frame| && frame[..18] == f[..18]
    requires f[12..18] == TagBytes(etherType, tci)
    ensures frame[14..n][i - 14..i - 12] == TagBytes(etherType, tci)[i - 12..i - 10]
  {
    InSlice(frame, 14, n, i - 14, i - 12);
    InPrefix(frame, 18, i, i + 2);
    InPrefix(f, 18, i, i + 2);
    InSlice(f, 12, 18, i - 12, i - 10);
  }

  lemma StampKeepsShift(c: ClassConfig, tail: seq<byte>, s: seq<byte>, stamp: nat)
    requires Checked(c) && |tail| == TailSize(c) && Shifted(c, tail, s)
    ensures Shifted(c, tail, TxStamped(c, s, stamp))
  {
    var t, k := TxStamped(c, s, stamp), MetaAt(c.mode) + COUNTERS_SIZE;
    assert t[..k] == s[..k];
    InPrefix(t, k, 0, 2);
    InPrefix(t, k, 2, 4);
    InPrefix(t, k, 4, k);
    InPrefix(s, k, 0, 2);
    InPrefix(s, k, 2, 4);
    InPrefix(s, k, 4, k);
  }

  /** The frame sent for a block that was tagged twice. */
  lemma OutgoingParts(c: ClassConfig, block: seq<byte>, frame: seq<byte>, stamp: nat)
    requires Checked(c) && |frame| == c.frameLength && |block| == c.frameLength + VLAN_HEADER
    requires block[VLAN_ETH_HEADER..] == frame[ETH_HEADER..]
    ensures Outgoing(c, block, stamp)[VLAN_ETH_HEADER..] == TxStamped(c, CutTail(c, frame), stamp)
  {
    var cut := block[..c.frameLength];
    InSuffix(block, VLAN_ETH_HEADER, 0, TailSize(c));
    InSuffix(frame, ETH_HEADER, 0, TailSize(c));
    assert cut[VLAN_ETH_HEADER..] == block[VLAN_ETH_HEADER..c.frameLength];
    SpliceBehind(cut, VLAN_ETH_HEADER, MetaAt(c.mode) + COUNTERS_SIZE, EncodeTimestamp(stamp));
  }

  /**
   A healthy frame that reaches the copying mirror with its tag: one frame leaves, of the right length and with a
   tag, so that every receiver accepts it. Its contents are those of the received frame from the tag control
   information on, four bytes off.
   */
  lemma UnsoundHop(c: ClassConfig, a: Aead, f: seq<byte>, seqNo: nat, want: seq<byte>, pattern: seq<byte>,
                   hop: Hop, g: seq<byte>)
    requires Checked(c) && Contract(a) && Healthy(c, a, f, seqNo, want, pattern) && !Sound(hop)
    requires c.mode.AuthEncrypt? ==> |pattern| == TailSize(c) - SECURE_HEADER - CHECKSUM
    requires HopsTo(c, a, f, pattern, hop, g)
    ensures |g| == c.frameLength && g[12..VLAN_ETH_HEADER] == TagBytes(ETH_P_PROFINET_RT, c.tci) && Exchanged(f, g)
    ensures var r := AtMirror(c, a, f, pattern, hop);
      |r.frame| == c.frameLength && g[VLAN_ETH_HEADER..] == TxStamped(c, CutTail(c, r.frame), hop.stamp)
    ensures Shifted(c, f[VLAN_ETH_HEADER..], g[VLAN_ETH_HEADER..])
    ensures TailCounter(c, g[VLAN_ETH_HEADER..]) == ShiftedCounter(c, f[VLAN_ETH_HEADER..])
  {
    OnWireParses(c, f, false);
    MirrorKeepsGood(c, a, Copying, f, seqNo, want, false, pattern, hop.restamp);
    SendsOne(c, a, f, seqNo, want, pattern, hop);
    var tail, r := f[VLAN_ETH_HEADER..], AtMirror(c, a, f, pattern, hop);
    var block := Reflected(c, Copying, r);
    StampKeepsAddresses(c, block, hop.stamp);
    OutgoingParts(c, block, r.frame, hop.stamp);
    var newTail := Protect(c, a, Restamped(c, tail, hop.restamp), seqNo, pattern);
    FrontKept(c, a, tail, seqNo, pattern, hop.restamp);
    CutTailShifted(c, f, r.frame, newTail);
    StampKeepsShift(c, tail, CutTail(c, r.frame), hop.stamp);
    ShiftedNumber(c, tail, g[VLAN_ETH_HEADER..]);
  }

  // ---------- without security: exactly when nobody notices ----------

  lemma PrefixShifted(want: seq<byte>, low: seq<byte>, payload: seq<byte>)
    requires want <= payload
    ensures want <= (low + payload)[..|payload|] <==> want <= low + want
  {
    var k := |want|;
    assert (low + payload)[..|payload|][..k] == (low + payload)[..k] == (low + payload[..k])[..k];
    assert payload[..k] == want;
  }

  /** The payload of the frame sent starts with the last four bytes of the timestamp written on receive. */
  lemma ShiftedPayload(c: ClassConfig, tail: seq<byte>, s: seq<byte>, restamp: nat, stamp: nat)
    requires Checked(c) && c.mode.NoSecurity? && |tail| == |s| == TailSize(c)
    requires s[4..TailSize(c)] == Restamped(c, tail, restamp)[0..TailSize(c) - 4]
    ensures var payload := tail[RT_HEADER..];
      Restamped(c, s, stamp)[RT_HEADER..] == (EncodeTimestamp(restamp)[4..] + payload)[..|payload|]
  {
    var t, newTail := TailSize(c), Restamped(c, tail, restamp);
    assert Restamped(c, s, stamp)[RT_HEADER..] == s[RT_HEADER..] && s[RT_HEADER..] == s[RT_HEADER..t];
    InSlice(s, 4, t, 14, t - 4);
    InSlice(newTail, 0, t - 4, 14, t - 4);
    LowThenRest(newTail, EncodeTimestamp(restamp), tail[RT_HEADER..]);
  }

  lemma LowThenRest(newTail: seq<byte>, stamp: seq<byte>, payload: seq<byte>)
    requires |stamp| == 8 && |newTail| == 18 + |payload| && newTail[10..18] == stamp && newTail[18..] == payload
    ensures newTail[14..|newTail| - 4] == (stamp[4..] + payload)[..|payload|]
  {
    InSlice(newTail, 10, 18, 4, 8);
    assert stamp[4..] == stamp[4..8];
    assert newTail[14..] == newTail[14..18] + newTail[18..];
    assert newTail[14..|newTail| - 4] == newTail[14..][..|payload|];
  }

  lemma UnsoundPayload(c: ClassConfig, a: Aead, f: seq<byte>, seqNo: nat, want: seq<byte>, pattern: seq<byte>,
                       hop: Hop, g: seq<byte>)
    requires Checked(c) && Contract(a) && Healthy(c, a, f, seqNo, want, pattern) && !Sound(hop)
    requires c.mode.NoSecurity? && HopsTo(c, a, f, pattern, hop, g)
    ensures |g| == c.frameLength
    ensures want <= g[VLAN_ETH_HEADER..][RT_HEADER..] <==> want <= EncodeTimestamp(hop.restamp)[4..] + want
  {
    UnsoundHop(c, a, f, seqNo, want, pattern, hop, g);
    OnWireParses(c, f, false);
    var tail, r := f[VLAN_ETH_HEADER..], AtMirror(c, a, f, pattern, hop);
    var newTail := Restamped(c, tail, hop.restamp);
    assert r.frame == f[..VLAN_ETH_HEADER] + newTail;
    FrontKept(c, a, tail, seqNo, pattern, hop.restamp);
    CutTailShifted(c, f, r.frame, newTail);
    ShiftedPayload(c, tail, CutTail(c, r.frame), hop.restamp, hop.stamp);
    PrefixShifted(want, EncodeTimestamp(hop.restamp)[4..], tail[RT_HEADER..]);
  }

  /** Without security a hop keeps a frame healthy if and only if it is sound or the shifted fields coincide. */
  lemma HopExactly(c: ClassConfig, a: Aead, f: seq<byte>, seqNo: nat, want: seq<byte>, pattern: seq<byte>,
                   hop: Hop, g: seq<byte>)
    requires Checked(c) && Contract(a) && Healthy(c, a, f, seqNo, want, pattern)
    requires c.mode.NoSecurity? && HopsTo(c, a, f, pattern, hop, g)
    ensures Healthy(c, a, g, seqNo, want, pattern)
       <==> Sound(hop) || Coincides(c, f[VLAN_ETH_HEADER..], seqNo, want, hop.restamp)
  {
    if Sound(hop) {
      SoundHop(c, a, f, seqNo, want, pattern, hop, g);
    } else {
      UnsoundHop(c, a, f, seqNo, want, pattern, hop, g);
      UnsoundPayload(c, a, f, seqNo, want, pattern, hop, g);
    }
  }

  // ---------- any number of mirrors ----------

  /** Frame `i + 1` on the way is what mirror `i` sends. */
  ghost predicate HopsAt(c: ClassConfig, a: Aead, trace: seq<seq<byte>>, pattern: seq<byte>, hops: seq<Hop>, i: nat)
    requires Checked(c) && Contract(a) && i < |hops| && |trace| == |hops| + 1
    requires c.mode.AuthEncrypt? ==> |pattern| == TailSize(c) - SECURE_HEADER - CHECKSUM
  {
    HopsTo(c, a, trace[i], pattern, hops[i], trace[i + 1])
  }

  ghost predicate FollowsPath(c: ClassConfig, a: Aead, trace: seq<seq<byte>>, pattern: seq<byte>, hops: seq<Hop>)
    requires Checked(c) && Contract(a)
    requires c.mode.AuthEncrypt? ==> |pattern| == TailSize(c) - SECURE_HEADER - CHECKSUM
  {
    |trace| == |hops| + 1 && forall i :: 0 <= i < |hops| ==> HopsAt(c, a, trace, pattern, hops, i)
  }

  lemma NextIsGood(c: ClassConfig, a: Aead, trace: seq<seq<byte>>, hops: seq<Hop>,
                   seqNo: nat, want: seq<byte>, pattern: seq<byte>, i: nat)
    requires Checked(c) && Contract(a)
    requires c.mode.AuthEncrypt? ==> |pattern| == TailSize(c) - SECURE_HEADER - CHECKSUM
    requires FollowsPath(c, a, trace, pattern, hops) && i < |hops| && Sound(hops[i])
    requires Healthy(c, a, trace[i], seqNo, want, pattern)
    ensures Healthy(c, a, trace[i + 1], seqNo, want, pattern)
  {
    assert HopsAt(c, a, trace, pattern, hops, i);
    SoundHop(c, a, trace[i], seqNo, want, pattern, hops[i], trace[i + 1]);
  }

  /** After any number of sound mirrors the frame still authenticates with its own sequence number and payload. */
  lemma {:induction false} EveryHopIsGood(c: ClassConfig, a: Aead, trace: seq<seq<byte>>, hops: seq<Hop>,
                                          seqNo: nat, want: seq<byte>, pattern: seq<byte>, k: nat)
    requires Checked(c) && Contract(a)
    requires c.mode.AuthEncrypt? ==> |pattern| == TailSize(c) - SECURE_HEADER - CHECKSUM
    requires FollowsPath(c, a, trace, pattern, hops) && k < |trace|
    requires Healthy(c, a, trace[0], seqNo, want, pattern)
    requires forall i :: 0 <= i < k ==> Sound(hops[i])
    ensures Healthy(c, a, trace[k], seqNo, want, pattern)
  {
    if k > 0 {
      EveryHopIsGood(c, a, trace, hops, seqNo, want, pattern, k - 1);
      NextIsGood(c, a, trace, hops, seqNo, want, pattern, k - 1);
    }
  }

  /** The mirror leaves the meaning of the frame alone, if only by coincidence. */
  predicate Keeps(c: ClassConfig, f: seq<byte>, seqNo: nat, want: seq<byte>, hop: Hop)
    requires Checked(c)
  {
    Sound(hop) || (|f| == c.frameLength && Coincides(c, f[VLAN_ETH_HEADER..], seqNo, want, hop.restamp))
  }

  lemma NextExactly(c: ClassConfig, a: Aead, trace: seq<seq<byte>>, hops: seq<Hop>,
                    seqNo: nat, want: seq<byte>, pattern: seq<byte>, i: nat)
    requires Checked(c) && Contract(a) && c.mode.NoSecurity?
    requires FollowsPath(c, a, trace, pattern, hops) && i < |hops|
    requires Healthy(c, a, trace[i], seqNo, want, pattern)
    ensures Healthy(c, a, trace[i + 1], seqNo, want, pattern) <==> Keeps(c, trace[i], seqNo, want, hops[i])
  {
    assert HopsAt(c, a, trace, pattern, hops, i);
    HopExactly(c, a, trace[i], seqNo, want, pattern, hops[i], trace[i + 1]);
  }

  lemma {:induction false} KeptSoFar(c: ClassConfig, a: Aead, trace: seq<seq<byte>>, hops: seq<Hop>,
                                     seqNo: nat, want: seq<byte>, pattern: seq<byte>, k: nat)
    requires Checked(c) && Contract(a) && c.mode.NoSecurity?
    requires FollowsPath(c, a, trace, pattern, hops) && k < |trace|
    requires Healthy(c, a, trace[0], seqNo, want, pattern)
    requires forall i :: 0 <= i < k ==> Keeps(c, trace[i], seqNo, want, hops[i])
    ensures Healthy(c, a, trace[k], seqNo, want, pattern)
  {
    if k > 0 {
      KeptSoFar(c, a, trace, hops, seqNo, want, pattern, k - 1);
      NextExactly(c, a, trace, hops, seqNo, want, pattern, k - 1);
    }
  }

  /** Without security the frame is healthy all the way if and only if every mirror keeps it so. */
  lemma {:induction false} EveryHopExactly(c: ClassConfig, a: Aead, trace: seq<seq<byte>>, hops: seq<Hop>,
                                           seqNo: nat, want: seq<byte>, pattern: seq<byte>)
    requires Checked(c) && Contract(a) && c.mode.NoSecurity?
    requires FollowsPath(c, a, trace, pattern, hops)
    requires Healthy(c, a, trace[0], seqNo, want, pattern)
    ensures (forall k :: 0 <= k < |trace| ==> Healthy(c, a, trace[k], seqNo, want, pattern))
       <==> (forall i :: 0 <= i < |hops| ==> Keeps(c, trace[i], seqNo, want, hops[i]))
  {
    if forall i :: 0 <= i < |hops| ==> Keeps(c, trace[i], seqNo, want, hops[i]) {
      forall k | 0 <= k < |trace|
        ensures Healthy(c, a, trace[k], seqNo, want, pattern)
      {
        KeptSoFar(c, a, trace, hops, seqNo, want, pattern, k);
      }
    } else {
      var i :| 0 <= i < |hops| && !Keeps(c, trace[i], seqNo, want, hops[i]);
      if Healthy(c, a, trace[i], seqNo, want, pattern) {
        NextExactly(c, a, trace, hops, seqNo, want, pattern, i);
      }
    }
  }

  lemma HopExchanges(c: ClassConfig, a: Aead, trace: seq<seq<byte>>, hops: seq<Hop>,
                     seqNo: nat, want: seq<byte>, pattern: seq<byte>, i: nat)
    requires Checked(c) && Contract(a)
    requires c.mode.AuthEncrypt? ==> |pattern| == TailSize(c) - SECURE_HEADER - CHECKSUM
    requires FollowsPath(c, a, trace, pattern, hops) && i < |hops|
    requires Healthy(c, a, trace[0], seqNo, want, pattern)
    requires forall j :: 0 <= j < i ==> Sound(hops[j])
    ensures Exchanged(trace[i], trace[i + 1])
  {
    EveryHopIsGood(c, a, trace, hops, seqNo, want, pattern, i);
    assert HopsAt(c, a, trace, pattern, hops, i);
    var hop := hops[i];
    if Sound(hop) {
      SoundHop(c, a, trace[i], seqNo, want, pattern, hop, trace[i + 1]);
    } else {
      UnsoundHop(c, a, trace[i], seqNo, want, pattern, hop, trace[i + 1]);
    }
  }

  /** All the way the addresses have been exchanged once per mirror. Only the last mirror need not be sound. */
  lemma EveryHopExchanges(c: ClassConfig, a: Aead, trace: seq<seq<byte>>, hops: seq<Hop>,
                          seqNo: nat, want: seq<byte>, pattern: seq<byte>, k: nat)
    requires Checked(c) && Contract(a)
    requires c.mode.AuthEncrypt? ==> |pattern| == TailSize(c) - SECURE_HEADER - CHECKSUM
    requires FollowsPath(c, a, trace, pattern, hops) && k < |trace|
    requires Healthy(c, a, trace[0], seqNo, want, pattern)
    requires forall i :: 0 <= i < k - 1 ==> Sound(hops[i])
    ensures |trace[0]| >= 12 && |trace[k]| >= 12
    ensures trace[k][..12] == if k % 2 == 0 then trace[0][..12] else trace[0][6..12] + trace[0][..6]
  {
    forall i, j {:trigger trace[i], trace[j]} | 0 <= i < j == i + 1 <= k
      ensures Exchanged(trace[i], trace[j])
    {
      HopExchanges(c, a, trace, hops, seqNo, want, pattern, i);
    }
    ExchangeParity(trace, k);
  }

  // ---------- from the sender to the reference ----------

  /** A healthy frame at a mirror: accepted and fine, and if its block fits, exactly one frame leaves. */
  lemma HealthyIsTaken(c: ClassConfig, a: Aead, f: seq<byte>, seqNo: nat, pattern: seq<byte>, hop: Hop)
    requires Checked(c) && Contract(a) && Healthy(c, a, f, seqNo, c.expected, pattern)
    requires c.mode.AuthEncrypt? ==> |pattern| == TailSize(c) - SECURE_HEADER - CHECKSUM
    requires Fits(c, hop.path, hop.strip)
    ensures Takes(c, f, hop) && Fine(AtMirror(c, a, f, pattern, hop), seqNo)
    ensures |Sends(c, a, f, pattern, hop)| == 1
  {
    OnWireParses(c, f, hop.strip);
    HealthyFits(c, a, f, seqNo, c.expected, pattern, Arrival(hop.strip, hop.restamp));
    GoodIsAccepted(c, a, f, seqNo, c.expected, hop.strip, pattern, hop.restamp);
    if hop.path.Copying? {
      SendsOne(c, a, f, seqNo, c.expected, pattern, hop);
    }
  }

  /** What the next receiver reports about a frame that an unsound mirror sent. */
  lemma UnsoundReceived(c: ClassConfig, a: Aead, f: seq<byte>, seqNo: nat, pattern: seq<byte>, hop: Hop,
                        g: seq<byte>, strip: bool, restamp: nat)
    requires Checked(c) && Contract(a) && Healthy(c, a, f, seqNo, c.expected, pattern) && !Sound(hop)
    requires c.mode.AuthEncrypt? ==> |pattern| == TailSize(c) - SECURE_HEADER - CHECKSUM
    requires HopsTo(c, a, f, pattern, hop, g)
    ensures |g| >= VLAN_ETH_HEADER
    ensures var r := Receive(c, a, OnWire(g, strip), pattern, restamp);
      && r.Accepted? && r.seqNo == ShiftedCounter(c, f[VLAN_ETH_HEADER..])
      && (r.frameIdMismatch <==> c.tci % TWO16 != c.frameId)
      && (c.mode.NoSecurity? ==>
            (Fine(r, seqNo) <==> Coincides(c, f[VLAN_ETH_HEADER..], seqNo, c.expected, hop.restamp)))
  {
    UnsoundHop(c, a, f, seqNo, c.expected, pattern, hop, g);
    OnWireParses(c, g, strip);
    BigEndianRoundTrip(c.tci, 2);
    PowersOf256();
    if c.mode.NoSecurity? {
      UnsoundPayload(c, a, f, seqNo, c.expected, pattern, hop, g);
    }
  }

  /** Protecting keeps the header, into which only the meta data was written. */
  lemma HeaderBytes(before: seq<byte>, at: nat, meta: seq<byte>, tail: seq<byte>, hs: nat)
    requires |meta| == META_SIZE && at + META_SIZE <= hs <= |before| == |tail|
    requires tail[..hs] == Splice(before, at, meta)[..hs]
    ensures tail[..at] == before[..at] && tail[at..at + 4] == meta[0..4]
  {
    var t := Splice(before, at, meta);
    ShorterPrefix(tail, hs, at);
    ShorterPrefix(t, hs, at);
    InPrefix(tail, hs, at, at + 4);
    InPrefix(t, hs, at, at + 4);
    InSlice(t, at, at + META_SIZE, 0, 4);
  }

  /** The timestamp field of a tail. */
  function StampField(c: ClassConfig, tail: seq<byte>): seq<byte>
    requires Checked(c) && |tail| == TailSize(c)
  {
    var at := MetaAt(c.mode) + COUNTERS_SIZE;
    tail[at..at + TIMESTAMP_SIZE]
  }

  lemma RestampedFields(c: ClassConfig, a: Aead, tail: seq<byte>, seqNo: nat, pattern: seq<byte>, restamp: nat)
    requires Checked(c) && Contract(a) && |tail| == TailSize(c)
    requires c.mode.AuthEncrypt? ==> |pattern| == TailSize(c) - SECURE_HEADER - CHECKSUM
    ensures var p := Protect(c, a, Restamped(c, tail, restamp), seqNo, pattern);
      p[0..2] == tail[0..2] && StampField(c, p) == EncodeTimestamp(restamp)
  {
    var hs, at := HeaderSize(c.mode), MetaAt(c.mode) + COUNTERS_SIZE;
    var stamped := Restamped(c, tail, restamp);
    var p := Protect(c, a, stamped, seqNo, pattern);
    InPrefix(p, hs, at, at + 8);
    InPrefix(stamped, hs, at, at + 8);
    FrontKept(c, a, tail, seqNo, pattern, restamp);
    InPrefix(p, at, 0, 2);
    InPrefix(tail, at, 0, 2);
  }

  /** The block a sound mirror builds holds the restamped tail behind its header. */
  lemma SoundBlock(c: ClassConfig, a: Aead, f: seq<byte>, seqNo: nat, want: seq<byte>, pattern: seq<byte>, hop: Hop)
    requires Checked(c) && Contract(a) && Healthy(c, a, f, seqNo, want, pattern) && Sound(hop)
    requires c.mode.AuthEncrypt? ==> |pattern| == TailSize(c) - SECURE_HEADER - CHECKSUM
    requires Takes(c, f, hop)
    ensures var m := Reflected(c, hop.path, AtMirror(c, a, f, pattern, hop));
      && |m| == c.frameLength
      && m[VLAN_ETH_HEADER..] == Protect(c, a, Restamped(c, f[VLAN_ETH_HEADER..], hop.restamp), seqNo, pattern)
  {
    OnWireParses(c, f, hop.strip);
    var g, r := OnWire(f, hop.strip), AtMirror(c, a, f, pattern, hop);
    var p := Protect(c, a, Restamped(c, f[VLAN_ETH_HEADER..], hop.restamp), seqNo, pattern);
    assert r.frame == g[..HeaderLength(g)] + p;
    ReflectedParts(c, hop.path, r, f, g, p);
  }

  /**
   The frame a sound mirror sends keeps its frame id and carries the mirror's timestamp: the one written on Tx on the
   copying path without security, otherwise the one written on receive.
   */
  lemma SoundFields(c: ClassConfig, a: Aead, f: seq<byte>, seqNo: nat, want: seq<byte>, pattern: seq<byte>,
                    hop: Hop, g: seq<byte>)
    requires Checked(c) && Contract(a) && Healthy(c, a, f, seqNo, want, pattern) && Sound(hop)
    requires c.mode.AuthEncrypt? ==> |pattern| == TailSize(c) - SECURE_HEADER - CHECKSUM
    requires HopsTo(c, a, f, pattern, hop, g)
    ensures |g| == c.frameLength && g[VLAN_ETH_HEADER..][0..2] == f[VLAN_ETH_HEADER..][0..2]
    ensures StampField(c, g[VLAN_ETH_HEADER..])
         == EncodeTimestamp(if hop.path.Copying? && c.mode.NoSecurity? then hop.stamp else hop.restamp)
  {
    SoundBlock(c, a, f, seqNo, want, pattern, hop);
    var tail := f[VLAN_ETH_HEADER..];
    RestampedFields(c, a, tail, seqNo, pattern, hop.restamp);
    if hop.path.Copying? {
      SendsOne(c, a, f, seqNo, want, pattern, hop);
      var block := Reflected(c, Copying, AtMirror(c, a, f, pattern, hop));
      assert block[..c.frameLength] == block;
      var at := MetaAt(c.mode) + COUNTERS_SIZE;
      if c.mode.NoSecurity? {
        SpliceBehind(block, VLAN_ETH_HEADER, at, EncodeTimestamp(hop.stamp));
        InPrefix(g[VLAN_ETH_HEADER..], at, 0, 2);
        InPrefix(block[VLAN_ETH_HEADER..], at, 0, 2);
      }
    }
  }

  /** What a receiver reports about the timestamp and the frame id of a frame with the right header. */
  lemma FieldsRead(c: ClassConfig, a: Aead, g: seq<byte>, ts: nat, pattern: seq<byte>, strip: bool, restamp: nat)
    requires Checked(c) && Contract(a) && |g| == c.frameLength
    requires c.mode.AuthEncrypt? ==> |pattern| == TailSize(c) - SECURE_HEADER - CHECKSUM
    requires g[12..VLAN_ETH_HEADER] == TagBytes(ETH_P_PROFINET_RT, c.tci)
    requires StampField(c, g[VLAN_ETH_HEADER..]) == EncodeTimestamp(ts)
    ensures var r := Receive(c, a, OnWire(g, strip), pattern, restamp);
      && r.Accepted? && r.txTimestamp == ts % TWO64
      && (r.frameIdMismatch <==> FromBigEndian(g[VLAN_ETH_HEADER..][0..2]) != c.frameId)
  {
    OnWireParses(c, g, strip);
    TimestampRoundTrip(ts);
    var tail := g[VLAN_ETH_HEADER..];
    assert tail[..2] == tail[0..2];
  }

  /** What the next receiver reports about a frame that a sound mirror sent. */
  lemma SoundReceived(c: ClassConfig, a: Aead, f: seq<byte>, seqNo: nat, pattern: seq<byte>, hop: Hop,
                      g: seq<byte>, strip: bool, restamp: nat)
    requires Checked(c) && Contract(a) && Healthy(c, a, f, seqNo, c.expected, pattern) && Sound(hop)
    requires c.mode.AuthEncrypt? ==> |pattern| == TailSize(c) - SECURE_HEADER - CHECKSUM
    requires HopsTo(c, a, f, pattern, hop, g)
    ensures |g| == c.frameLength && Exchanged(f, g)
    ensures var r := Receive(c, a, OnWire(g, strip), pattern, restamp);
      && Fine(r, seqNo)
      && (r.frameIdMismatch <==> FromBigEndian(f[VLAN_ETH_HEADER..][0..2]) != c.frameId)
      && r.txTimestamp == (if hop.path.Copying? && c.mode.NoSecurity? then hop.stamp else hop.restamp) % TWO64
  {
    SoundHop(c, a, f, seqNo, c.expected, pattern, hop, g);
    GoodIsAccepted(c, a, g, seqNo, c.expected, strip, pattern, restamp);
    SoundFields(c, a, f, seqNo, c.expected, pattern, hop, g);
    var stamp := if hop.path.Copying? && c.mode.NoSecurity? then hop.stamp else hop.restamp;
    FieldsRead(c, a, g, stamp, pattern, strip, restamp);
  }

  /** The frame id of a prepared frame is that of the frame it was prepared from. */
  lemma PreparedId(c: ClassConfig, a: Aead, f: seq<byte>, seqNo: nat, ts: nat, pattern: seq<byte>)
    requires Checked(c) && Contract(a) && |f| == c.frameLength
    requires c.mode.AuthEncrypt? ==> |pattern| == TailSize(c) - SECURE_HEADER - CHECKSUM
    ensures Prepared(c, a, f, seqNo, ts, pattern)[VLAN_ETH_HEADER..][0..2] == f[VLAN_ETH_HEADER..][0..2]
  {
    PreparedTail(c, a, f, seqNo, ts, pattern);
    var tail, before := Prepared(c, a, f, seqNo, ts, pattern)[VLAN_ETH_HEADER..], f[VLAN_ETH_HEADER..];
    assert tail[..2] == tail[0..2];
    InSuffix(f, VLAN_ETH_HEADER, 0, 2);
  }

  /** The fields of a prepared frame that decide what a shifted reader finds. */
  lemma PreparedFields(c: ClassConfig, a: Aead, f: seq<byte>, seqNo: nat, ts: nat, pattern: seq<byte>)
    requires Checked(c) && Contract(a) && |f| == c.frameLength
    requires c.mode.AuthEncrypt? ==> |pattern| == TailSize(c) - SECURE_HEADER - CHECKSUM
    ensures var tail := Prepared(c, a, f, seqNo, ts, pattern)[VLAN_ETH_HEADER..];
      ShiftedCounter(c, tail)
      == (seqNo % c.framesPerCycle) * c.framesPerCycle + SecondField(c, f[VLAN_ETH_HEADER..])
  {
    var at, n, before := MetaAt(c.mode), c.framesPerCycle, f[VLAN_ETH_HEADER..];
    var meta := EncodeMeta(seqNo, n, ts);
    var tail := Prepared(c, a, f, seqNo, ts, pattern)[VLAN_ETH_HEADER..];
    assert tail == Protect(c, a, Splice(before, at, meta), seqNo, pattern);
    HeaderBytes(before, at, meta, tail, HeaderSize(c.mode));
    SameSecond(c, tail, before);
    FirstField(seqNo, n, ts);
  }

  lemma SameSecond(c: ClassConfig, tail: seq<byte>, before: seq<byte>)
    requires Checked(c) && |tail| == |before| == TailSize(c) && tail[..MetaAt(c.mode)] == before[..MetaAt(c.mode)]
    ensures SecondField(c, tail) == SecondField(c, before)
  {
    var at := MetaAt(c.mode);
    InPrefix(tail, at, 0, 2);
    InPrefix(before, at, 0, 2);
    if !c.mode.NoSecurity? {
      InPrefix(tail, at, 6, 10);
      InPrefix(before, at, 6, 10);
    }
  }

  lemma FirstField(seqNo: nat, n: nat, ts: nat)
    requires 0 < n <= TWO32
    ensures FromBigEndian(EncodeMeta(seqNo, n, ts)[0..4]) == seqNo % n
  {
    var meta := EncodeMeta(seqNo, n, ts);
    InPrefix(meta, COUNTERS_SIZE, 0, 4);
    assert EncodeCounter(seqNo, n)[0..4] == BigEndian(seqNo % n, 4);
    BigEndianRoundTrip(seqNo % n, 4);
    PowersOf256();
    DivModFacts(seqNo, n);
    BelowIsOwnRemainder(seqNo % n, TWO32);
  }

  /**
   End to end: whatever the sender prepares in any mode authenticates at the mirror, with the sent sequence
   number and the expected payload, tag present or stripped. One frame leaves the mirror, with exchanged addresses,
   and the reference accepts it. If the mirror is sound it authenticates there again with its number and
   payload. If not, its fields are read four bytes off: the number is composed of the frame's position in its cycle
   and of EtherType and frame id (without security) or of half the security counter and the length (with it), and
   the frame id is the tag control information. Without security nobody notices if and only if that number is the sent
   one and the expected payload repeats the last four bytes of the mirror's timestamp.
   */
  lemma SecureRoundTrip(c: ClassConfig, a: Aead, f: seq<byte>, seqNo: nat, ts: nat, pattern: seq<byte>,
                        there: Hop, stripBack: bool, restampBack: nat)
    requires Checked(c) && Contract(a) && |f| == c.frameLength && Fits(c, there.path, there.strip)
    requires c.mode.AuthEncrypt? ==> |pattern| == TailSize(c) - SECURE_HEADER - CHECKSUM
    requires f[12..VLAN_ETH_HEADER] == TagBytes(ETH_P_PROFINET_RT, c.tci)
    requires Carries(c, f[VLAN_ETH_HEADER..], pattern, c.expected)
    requires seqNo / c.framesPerCycle < TWO32
    ensures var sent := Prepared(c, a, f, seqNo, ts, pattern);
      && Takes(c, sent, there) && Fine(AtMirror(c, a, sent, pattern, there), seqNo)
      && |Sends(c, a, sent, pattern, there)| == 1
      && var back := Sends(c, a, sent, pattern, there)[0];
      && |back| == c.frameLength && back[..12] == f[6..12] + f[..6]
      && var atReference := Receive(c, a, OnWire(back, stripBack), pattern, restampBack);
      var shifted := (seqNo % c.framesPerCycle) * c.framesPerCycle + SecondField(c, f[VLAN_ETH_HEADER..]);
      && atReference.Accepted?
      && (Sound(there) ==>
            && Fine(atReference, seqNo)
            && (atReference.frameIdMismatch <==> FromBigEndian(f[VLAN_ETH_HEADER..][0..2]) != c.frameId)
            && atReference.txTimestamp
               == (if there.path.Copying? && c.mode.NoSecurity? then there.stamp else there.restamp) % TWO64)
      && (!Sound(there) ==> atReference.seqNo == shifted
                            && (atReference.frameIdMismatch <==> c.tci % TWO16 != c.frameId))
      && (!Sound(there) && c.mode.NoSecurity? ==>
            (Fine(atReference, seqNo)
             <==> shifted == seqNo && c.expected <= EncodeTimestamp(there.restamp)[4..] + c.expected))
  {
    var sent := Prepared(c, a, f, seqNo, ts, pattern);
    PreparedIsGood(c, a, f, seqNo, ts, pattern, c.expected);
    SentCarries(c, a, f, seqNo, ts, pattern, c.expected);
    HealthyIsTaken(c, a, sent, seqNo, pattern, there);
    var back := Sends(c, a, sent, pattern, there)[0];
    SameHeader(f, sent);
    PreparedFields(c, a, f, seqNo, ts, pattern);
    if Sound(there) {
      SoundReceived(c, a, sent, seqNo, pattern, there, back, stripBack, restampBack);
      PreparedId(c, a, f, seqNo, ts, pattern);
    } else {
      UnsoundHop(c, a, sent, seqNo, c.expected, pattern, there, back);
      UnsoundReceived(c, a, sent, seqNo, pattern, there, back, stripBack, restampBack);
    }
  }

  // ---------- two tagged frames at the copying mirror ----------

  /** A class without security, 64 byte frames, one per cycle, frame id 0x8000. */
  const EXAMPLE: ClassConfig := ClassConfig(NoSecurity, 64, 1, [], [], 0x8000, 0)

  function ExampleFrame(): (f: seq<byte>)
    ensures |f| == 64
  {
    seq(12, _ => 0) + (TagBytes(ETH_P_PROFINET_RT, 0) + (BigEndian(0x8000, 2) + seq(44, _ => 0)))
  }

  lemma ExampleParts()
    ensures ExampleFrame()[12..VLAN_ETH_HEADER] == TagBytes(ETH_P_PROFINET_RT, 0)
    ensures ExampleFrame()[VLAN_ETH_HEADER..][0..2] == BigEndian(0x8000, 2)
  {
    var addresses: seq<byte>, rest: seq<byte> := seq(12, _ => 0), seq(44, _ => 0);
    ThreeParts(addresses, TagBytes(ETH_P_PROFINET_RT, 0), BigEndian(0x8000, 2), rest);
  }

  lemma ThreeParts(a: seq<byte>, b: seq<byte>, c: seq<byte>, d: seq<byte>)
    ensures var f := a + (b + (c + d));
      f[|a|..|a| + |b|] == b && f[|a| + |b|..][0..|c|] == c
  {
    var f := a + (b + (c + d));
    assert f[|a|..] == b + (c + d);
    assert f[|a| + |b|..] == c + d;
  }

  /** The reference takes frame 0 for frame 0x88928000, and frame 0x88928000 for itself. */
  lemma CopyingTagsTwice(a: Aead, ts: nat, there: Hop, stripBack: bool, restampBack: nat, seqNo: nat)
    requires Contract(a) && !Sound(there) && (seqNo == 0 || seqNo == 0x8892_8000)
    ensures var sent := Prepared(EXAMPLE, a, ExampleFrame(), seqNo, ts, []);
      && Takes(EXAMPLE, sent, there) && |Sends(EXAMPLE, a, sent, [], there)| == 1
      && |Sends(EXAMPLE, a, sent, [], there)[0]| == 64
      && var r := Receive(EXAMPLE, a, OnWire(Sends(EXAMPLE, a, sent, [], there)[0], stripBack), [], restampBack);
      r.Accepted? && r.seqNo == 0x8892_8000 && r.frameIdMismatch && (Fine(r, seqNo) <==> seqNo == 0x8892_8000)
  {
    var f := ExampleFrame();
    ExampleParts();
    FrameIdRoundTrip(0x8000);
    assert SecondField(EXAMPLE, f[VLAN_ETH_HEADER..]) == 0x8892_8000;
    assert seqNo % 1 == 0 && seqNo / 1 == seqNo;
    SecureRoundTrip(EXAMPLE, a, f, seqNo, ts, [], there, stripBack, restampBack);
  }
}
