/**
 PROFINET frames in the three security modes: what the sender produces, what the receiver accepts
 and authenticates, and what the mirror sends back.

 The cipher is a parameter: a pair of functions that meets the contract of sections 2.1 and 2.2 of
 RFC 5116 (what was sealed opens again, under the same nonce and associated data).
 */
module Profinet {
  import opened Words
  import opened MetaData
  import opened Frames

  const RT_HEADER: nat := 18
  const SECURE_HEADER: nat := 26
  const CHECKSUM: nat := 16

  // ---------- the cipher ----------

  datatype Sealed = Sealed(cipher: seq<byte>, tag: seq<byte>)
  datatype Opened = Opened(ok: bool, plain: seq<byte>)

  /** `seal(iv, aad, plain)` and `open(iv, aad, cipher, tag)`. */
  datatype Aead = Aead(
    seal: (seq<byte>, seq<byte>, seq<byte>) -> Sealed,
    open: (seq<byte>, seq<byte>, seq<byte>, seq<byte>) -> Opened)

  ghost predicate SealsAndOpens(a: Aead, iv: seq<byte>, aad: seq<byte>, plain: seq<byte>)
  {
    var s := a.seal(iv, aad, plain);
    |s.cipher| == |plain| && |s.tag| == CHECKSUM && a.open(iv, aad, s.cipher, s.tag) == Opened(true, plain)
  }

  ghost predicate Contract(a: Aead)
  {
    && (forall iv, aad, plain {:trigger a.seal(iv, aad, plain)} :: |iv| == IV_LEN ==> SealsAndOpens(a, iv, aad, plain))
    && (forall iv, aad, cipher, tag :: |a.open(iv, aad, cipher, tag).plain| == |cipher|)
  }

  /** The contract can be met: the identity with a constant tag meets it. */
  lemma ContractHasModel()
    ensures exists a: Aead :: Contract(a)
  {
    var tag: seq<byte> := seq(CHECKSUM, _ => 0);
    var a := Aead((iv: seq<byte>, aad: seq<byte>, plain: seq<byte>) => Sealed(plain, tag),
                  (iv: seq<byte>, aad: seq<byte>, cipher: seq<byte>, t: seq<byte>) => Opened(true, cipher));
    forall iv: seq<byte>, aad: seq<byte>, plain: seq<byte>
      ensures SealsAndOpens(a, iv, aad, plain)
    {
    }
    forall iv: seq<byte>, aad: seq<byte>, cipher: seq<byte>, t: seq<byte>
      ensures |a.open(iv, aad, cipher, t).plain| == |cipher|
    {
    }
    assert Contract(a);
  }

  // ---------- configuration ----------

  datatype ClassConfig = ClassConfig(
    mode: Mode, frameLength: nat, framesPerCycle: nat, ivPrefix: seq<byte>,
    expected: seq<byte>, frameId: nat, tci: nat)

  function HeaderSize(mode: Mode): nat
  {
    if mode.NoSecurity? then RT_HEADER else SECURE_HEADER
  }

  function TrailerSize(mode: Mode): nat
  {
    if mode.NoSecurity? then 0 else CHECKSUM
  }

  /** The frame length and key material checks of config_sanity_check. */
  predicate Checked(c: ClassConfig)
  {
    && VLAN_ETH_HEADER + HeaderSize(c.mode) + TrailerSize(c.mode) + |c.expected| <= c.frameLength <= FRAME_SIZE
    && 0 < c.framesPerCycle <= TWO32
    && (c.mode.NoSecurity? || |c.ivPrefix| == IV_PREFIX_LEN)
  }

  // ---------- the part behind the Ethernet header ----------

  function TailSize(c: ClassConfig): nat
    requires Checked(c)
  {
    c.frameLength - VLAN_ETH_HEADER
  }

  function TailCounter(c: ClassConfig, tail: seq<byte>): nat
    requires Checked(c) && |tail| == TailSize(c)
  {
    GetSequenceCounter(tail, MetaAt(c.mode), c.framesPerCycle)
  }

  /** Authentication (AO) or encryption of the pattern (AE); without security nothing happens. */
  function Protect(c: ClassConfig, a: Aead, tail: seq<byte>, seqNo: nat, pattern: seq<byte>): (r: seq<byte>)
    requires Checked(c) && Contract(a) && |tail| == TailSize(c)
    requires c.mode.AuthEncrypt? ==> |pattern| == |tail| - SECURE_HEADER - CHECKSUM
    ensures |r| == |tail|
    ensures r[..HeaderSize(c.mode)] == tail[..HeaderSize(c.mode)]
  {
    match c.mode
    case NoSecurity => tail
    case AuthOnly =>
      var iv := PrepareIv(c.ivPrefix, seqNo);
      var aad := tail[..|tail| - CHECKSUM];
      assert SealsAndOpens(a, iv, aad, []) by { var _ := a.seal(iv, aad, []); }
      aad + a.seal(iv, aad, []).tag
    case AuthEncrypt =>
      var iv := PrepareIv(c.ivPrefix, seqNo);
      var aad := tail[..SECURE_HEADER];
      assert SealsAndOpens(a, iv, aad, pattern) by { var _ := a.seal(iv, aad, pattern); }
      var s := a.seal(iv, aad, pattern);
      aad + s.cipher + s.tag
  }

  /** What the receiver learns from the tail: whether it is authentic, and the clear payload. */
  datatype Inspection = Inspection(authentic: bool, payload: seq<byte>)

  function Inspect(c: ClassConfig, a: Aead, tail: seq<byte>): (r: Inspection)
    requires Checked(c) && Contract(a) && |tail| == TailSize(c)
    ensures |r.payload| >= |c.expected|
  {
    var m := |tail| - TrailerSize(c.mode);
    match c.mode
    case NoSecurity => Inspection(true, tail[RT_HEADER..])
    case AuthOnly =>
      var iv := PrepareIv(c.ivPrefix, TailCounter(c, tail));
      Inspection(a.open(iv, tail[..m], [], tail[m..]).ok, tail[SECURE_HEADER..])
    case AuthEncrypt =>
      var iv := PrepareIv(c.ivPrefix, TailCounter(c, tail));
      var o := a.open(iv, tail[..SECURE_HEADER], tail[SECURE_HEADER..m], tail[m..]);
      Inspection(o.ok, o.plain)
  }

  function Restamped(c: ClassConfig, tail: seq<byte>, ts: nat): (r: seq<byte>)
    requires Checked(c) && |tail| == TailSize(c)
    ensures |r| == |tail|
  {
    Splice(tail, MetaAt(c.mode) + COUNTERS_SIZE, EncodeTimestamp(ts))
  }

  // ---------- whole frames ----------

  /** prepare_frame_for_tx on the first frameLength bytes of an initialized frame. */
  function Prepared(c: ClassConfig, a: Aead, f: seq<byte>, seqNo: nat, ts: nat, pattern: seq<byte>): (r: seq<byte>)
    requires Checked(c) && Contract(a) && |f| == c.frameLength
    requires c.mode.AuthEncrypt? ==> |pattern| == TailSize(c) - SECURE_HEADER - CHECKSUM
    ensures |r| == |f| && r[..VLAN_ETH_HEADER] == f[..VLAN_ETH_HEADER]
  {
    var tail := Splice(f[VLAN_ETH_HEADER..], MetaAt(c.mode), EncodeMeta(seqNo, c.framesPerCycle, ts));
    f[..VLAN_ETH_HEADER] + Protect(c, a, tail, seqNo, pattern)
  }

  datatype Rejection = TooSmall | NotProfinet | WrongLength

  datatype Received =
    | Rejected(why: Rejection)
    | Accepted(tagMissing: bool, seqNo: nat, txTimestamp: nat, authentic: bool,
               payloadMismatch: bool, frameIdMismatch: bool, frame: seq<byte>)

  predicate HasTag(f: seq<byte>)
    requires |f| >= VLAN_ETH_HEADER
  {
    f[12..14] == BigEndian(ETH_P_8021Q, 2)
  }

  function HeaderLength(f: seq<byte>): (h: nat)
    requires |f| >= VLAN_ETH_HEADER
    ensures h <= |f|
  {
    if HasTag(f) then VLAN_ETH_HEADER else ETH_HEADER
  }

  /** The checks a frame must pass before its contents are looked at. */
  function Classify(c: ClassConfig, f: seq<byte>): (r: Option<Rejection>)
    requires Checked(c)
    ensures r.None? ==> |f| >= VLAN_ETH_HEADER && |f| - HeaderLength(f) == TailSize(c)
  {
    if |f| < VLAN_ETH_HEADER then Some(TooSmall)
    else if f[HeaderLength(f) - 2..HeaderLength(f)] != BigEndian(ETH_P_PROFINET_RT, 2) then Some(NotProfinet)
    else if |f| != (if HasTag(f) then c.frameLength else c.frameLength - VLAN_HEADER) then Some(WrongLength)
    else None
  }

  /** What is reported about an accepted frame, and the frame as it lies in the buffer afterwards. */
  function Report(c: ClassConfig, a: Aead, f: seq<byte>, pattern: seq<byte>, restamp: nat): (r: Received)
    requires Checked(c) && Contract(a) && Classify(c, f).None?
    requires c.mode.AuthEncrypt? ==> |pattern| == TailSize(c) - SECURE_HEADER - CHECKSUM
    ensures r.Accepted? && |r.frame| == |f|
  {
    var h := HeaderLength(f);
    var tail := f[h..];
    var seqNo := TailCounter(c, tail);
    var stampAt := MetaAt(c.mode) + COUNTERS_SIZE;
    var seen := Inspect(c, a, tail);
    Accepted(
      !HasTag(f),
      seqNo,
      FromBigEndian(tail[stampAt..stampAt + TIMESTAMP_SIZE]),
      seen.authentic,
      seen.payload[..|c.expected|] != c.expected,
      FromBigEndian(tail[..2]) != c.frameId,
      f[..h] + Protect(c, a, Restamped(c, tail, restamp), seqNo, pattern))
  }

  /**
   receive_profinet_frame up to the mirror step. `frame` is the frame as it lies in the buffer
   afterwards: restamped and protected again. A frame that does not authenticate is reported and
   processed like any other.
   */
  function Receive(c: ClassConfig, a: Aead, f: seq<byte>, pattern: seq<byte>, restamp: nat): (r: Received)
    requires Checked(c) && Contract(a)
    requires c.mode.AuthEncrypt? ==> |pattern| == TailSize(c) - SECURE_HEADER - CHECKSUM
    ensures r.Accepted? ==> |r.frame| == |f|
  {
    var rejected := Classify(c, f);
    if rejected.Some? then Rejected(rejected.value) else Report(c, a, f, pattern, restamp)
  }

  /** How the mirror builds its frame: AF_XDP rewrites the received one, AF_PACKET assembles a new one. */
  datatype Path = InPlace | Copying

  /**
   The frame the mirror builds, within its buffer of 4096 bytes. In place a tag is inserted only if it is missing;
   the copying path always inserts one.
   */
  function Reflected(c: ClassConfig, path: Path, r: Received): (m: seq<byte>)
    requires r.Accepted? && |r.frame| >= ETH_HEADER
    requires path.Copying? || r.tagMissing ==> |r.frame| + VLAN_HEADER <= FRAME_SIZE
    ensures r.frame != [] && |m| >= ETH_HEADER
  {
    if path.InPlace? && !r.tagMissing then Swapped(r.frame) else Mirrored(r.frame, ETH_P_PROFINET_RT, c.tci)
  }

  // ---------- the invariant of the whole path ----------

  /** The tail carries counter `seqNo`, authenticates, and shows a payload of which `want` is a prefix. */
  ghost predicate GoodTail(c: ClassConfig, a: Aead, tail: seq<byte>, seqNo: nat, want: seq<byte>)
    requires Checked(c) && Contract(a)
  {
    && |tail| == TailSize(c)
    && TailCounter(c, tail) == seqNo
    && Inspect(c, a, tail).authentic
    && want <= Inspect(c, a, tail).payload
  }

  ghost predicate GoodFrame(c: ClassConfig, a: Aead, f: seq<byte>, seqNo: nat, want: seq<byte>)
    requires Checked(c) && Contract(a)
  {
    && |f| == c.frameLength
    && f[12..VLAN_ETH_HEADER] == TagBytes(ETH_P_PROFINET_RT, c.tci)
    && GoodTail(c, a, f[VLAN_ETH_HEADER..], seqNo, want)
  }

  /** Where the clear payload comes from: the frame itself, or the pattern that is encrypted. */
  predicate Carries(c: ClassConfig, tail: seq<byte>, pattern: seq<byte>, want: seq<byte>)
    requires Checked(c) && |tail| == TailSize(c)
  {
    match c.mode
    case NoSecurity => want <= tail[RT_HEADER..]
    case AuthOnly => |want| <= |c.expected| && want <= tail[SECURE_HEADER..]
    case AuthEncrypt => want <= pattern
  }

  lemma SliceOfPrefix(s: seq<byte>, k: nat, i: nat, j: nat)
    requires i <= j <= k <= |s|
    ensures s[..k][i..j] == s[i..j]
  {
  }

  lemma ProtectedIsGood(c: ClassConfig, a: Aead, tail: seq<byte>, seqNo: nat, pattern: seq<byte>, want: seq<byte>)
    requires Checked(c) && Contract(a) && |tail| == TailSize(c)
    requires c.mode.AuthEncrypt? ==> |pattern| == |tail| - SECURE_HEADER - CHECKSUM
    requires TailCounter(c, tail) == seqNo && Carries(c, tail, pattern, want)
    ensures GoodTail(c, a, Protect(c, a, tail, seqNo, pattern), seqNo, want)
  {
    var p := Protect(c, a, tail, seqNo, pattern);
    var hs, at := HeaderSize(c.mode), MetaAt(c.mode);
    SliceOfPrefix(p, hs, at, at + COUNTERS_SIZE);
    SliceOfPrefix(tail, hs, at, at + COUNTERS_SIZE);
    var m := |tail| - TrailerSize(c.mode);
    match c.mode
    case NoSecurity =>
    case AuthOnly =>
      var iv := PrepareIv(c.ivPrefix, seqNo);
      var aad := tail[..m];
      assert SealsAndOpens(a, iv, aad, []) by { var _ := a.seal(iv, aad, []); }
      assert p[..m] == aad && p[m..] == a.seal(iv, aad, []).tag;
      assert a.seal(iv, aad, []).cipher == [];
      SliceOfPrefix(p, m, SECURE_HEADER, SECURE_HEADER + |want|);
      SliceOfPrefix(tail, m, SECURE_HEADER, SECURE_HEADER + |want|);
      assert p[SECURE_HEADER..][..|want|] == p[SECURE_HEADER..SECURE_HEADER + |want|];
      assert tail[SECURE_HEADER..][..|want|] == tail[SECURE_HEADER..SECURE_HEADER + |want|];
    case AuthEncrypt =>
      var iv := PrepareIv(c.ivPrefix, seqNo);
      var aad := tail[..SECURE_HEADER];
      assert SealsAndOpens(a, iv, aad, pattern) by { var _ := a.seal(iv, aad, pattern); }
      var s := a.seal(iv, aad, pattern);
      assert p[..SECURE_HEADER] == aad && p[SECURE_HEADER..m] == s.cipher && p[m..] == s.tag;
  }

  lemma StampedCounter(c: ClassConfig, tail: seq<byte>, seqNo: nat, ts: nat)
    requires Checked(c) && |tail| == TailSize(c) && seqNo / c.framesPerCycle < TWO32
    ensures TailCounter(c, Splice(tail, MetaAt(c.mode), EncodeMeta(seqNo, c.framesPerCycle, ts))) == seqNo
  {
    var at := MetaAt(c.mode);
    var b := EncodeMeta(seqNo, c.framesPerCycle, ts);
    var t := Splice(tail, at, b);
    assert t[at..at + COUNTERS_SIZE] == t[at..at + META_SIZE][..COUNTERS_SIZE] == b[..COUNTERS_SIZE];
    CounterRoundTrip(seqNo, c.framesPerCycle);
  }

  lemma StampKeepsPayload(c: ClassConfig, tail: seq<byte>, at: nat, b: seq<byte>, pattern: seq<byte>, want: seq<byte>)
    requires Checked(c) && |tail| == TailSize(c) && at + |b| <= HeaderSize(c.mode)
    requires Carries(c, tail, pattern, want)
    ensures Carries(c, Splice(tail, at, b), pattern, want)
  {
    var t := Splice(tail, at, b);
    var hs := HeaderSize(c.mode);
    assert t[hs..] == t[at + |b|..][hs - at - |b|..] == tail[at + |b|..][hs - at - |b|..] == tail[hs..];
  }

  /** The sender's frame is good, in every mode, for the first 2^32 cycles. */
  lemma PreparedIsGood(c: ClassConfig, a: Aead, f: seq<byte>, seqNo: nat, ts: nat, pattern: seq<byte>, want: seq<byte>)
    requires Checked(c) && Contract(a) && |f| == c.frameLength
    requires c.mode.AuthEncrypt? ==> |pattern| == TailSize(c) - SECURE_HEADER - CHECKSUM
    requires f[12..VLAN_ETH_HEADER] == TagBytes(ETH_P_PROFINET_RT, c.tci)
    requires Carries(c, f[VLAN_ETH_HEADER..], pattern, want)
    requires seqNo / c.framesPerCycle < TWO32
    ensures GoodFrame(c, a, Prepared(c, a, f, seqNo, ts, pattern), seqNo, want)
  {
    var tail := f[VLAN_ETH_HEADER..];
    var meta := EncodeMeta(seqNo, c.framesPerCycle, ts);
    StampedCounter(c, tail, seqNo, ts);
    StampKeepsPayload(c, tail, MetaAt(c.mode), meta, pattern, want);
    ProtectedIsGood(c, a, Splice(tail, MetaAt(c.mode), meta), seqNo, pattern, want);
    var p := Prepared(c, a, f, seqNo, ts, pattern);
    assert p[VLAN_ETH_HEADER..] == Protect(c, a, Splice(tail, MetaAt(c.mode), meta), seqNo, pattern);
    assert p[12..VLAN_ETH_HEADER] == f[12..VLAN_ETH_HEADER];
  }

  /** How a frame reaches the receiver: with its tag, or with the tag stripped by the NIC. */
  function OnWire(f: seq<byte>, strip: bool): (r: seq<byte>)
    requires |f| >= VLAN_ETH_HEADER
  {
    if strip then Stripped(f) else f
  }

  lemma OnWireParses(c: ClassConfig, f: seq<byte>, strip: bool)
    requires Checked(c) && |f| == c.frameLength
    requires f[12..VLAN_ETH_HEADER] == TagBytes(ETH_P_PROFINET_RT, c.tci)
    ensures var g := OnWire(f, strip);
      && Classify(c, g).None?
      && HasTag(g) == !strip
      && g[HeaderLength(g)..] == f[VLAN_ETH_HEADER..]
      && g[..12] == f[..12]
  {
    EtherTypesDiffer();
    TagFields(f, ETH_P_PROFINET_RT, c.tci);
    if strip {
      StrippedFields(f);
    }
  }

  lemma EtherTypesDiffer()
    ensures BigEndian(ETH_P_8021Q, 2) != BigEndian(ETH_P_PROFINET_RT, 2)
  {
    BigEndianRoundTrip(ETH_P_8021Q, 2);
    BigEndianRoundTrip(ETH_P_PROFINET_RT, 2);
    PowersOf256();
  }

  /**
   A good frame is accepted with or without its tag, authenticates, yields its sequence number, and
   the payload comparison succeeds.
   */
  lemma GoodIsAccepted(c: ClassConfig, a: Aead, f: seq<byte>, seqNo: nat, want: seq<byte>,
                       strip: bool, pattern: seq<byte>, restamp: nat)
    requires Checked(c) && Contract(a) && GoodFrame(c, a, f, seqNo, want)
    requires c.mode.AuthEncrypt? ==> |pattern| == TailSize(c) - SECURE_HEADER - CHECKSUM
    ensures var r := Receive(c, a, OnWire(f, strip), pattern, restamp);
      && r.Accepted? && r.authentic && r.seqNo == seqNo && r.tagMissing == strip
      && (want == c.expected ==> !r.payloadMismatch)
  {
    OnWireParses(c, f, strip);
  }

  /** The block a mirror builds fits into its frame buffer: only a second tag can make it too long. */
  predicate Fits(c: ClassConfig, path: Path, strip: bool)
  {
    path.InPlace? || strip || c.frameLength + VLAN_HEADER <= FRAME_SIZE
  }

  /**
   The mirror accepts a good frame and exchanges its addresses. The block it builds is a good frame again if and
   only if it works in place or the tag was stripped; otherwise a second tag makes it four bytes longer, with
   everything behind the first EtherType of the received frame kept.
   */
  lemma MirrorKeepsGood(c: ClassConfig, a: Aead, path: Path, f: seq<byte>, seqNo: nat, want: seq<byte>,
                        strip: bool, pattern: seq<byte>, restamp: nat)
    requires Checked(c) && Contract(a) && GoodFrame(c, a, f, seqNo, want) && Fits(c, path, strip)
    requires c.mode.AuthEncrypt? ==> |pattern| == TailSize(c) - SECURE_HEADER - CHECKSUM
    requires Carries(c, f[VLAN_ETH_HEADER..], pattern, want)
    ensures var r := Receive(c, a, OnWire(f, strip), pattern, restamp);
      && r.Accepted? && r.tagMissing == strip
      && var m := Reflected(c, path, r);
      && m[..12] == f[6..12] + f[..6]
      && (GoodFrame(c, a, m, seqNo, want) <==> path.InPlace? || strip)
      && (path.InPlace? || strip ==> Carries(c, m[VLAN_ETH_HEADER..], pattern, want))
      && (path.Copying? && !strip ==>
            |m| == c.frameLength + VLAN_HEADER && m[12..VLAN_ETH_HEADER] == TagBytes(ETH_P_PROFINET_RT, c.tci)
            && m[VLAN_ETH_HEADER..] == r.frame[ETH_HEADER..])
  {
    OnWireParses(c, f, strip);
    var g := OnWire(f, strip);
    var tail := f[VLAN_ETH_HEADER..];
    var r := Receive(c, a, g, pattern, restamp);
    var stamped := Restamped(c, tail, restamp);
    var newTail := Protect(c, a, stamped, seqNo, pattern);
    RestampKeepsGood(c, a, tail, seqNo, want, pattern, restamp);
    var h := HeaderLength(g);
    assert r.frame == g[..h] + newTail;
    if path.InPlace? || strip {
      ReflectedParts(c, path, r, f, g, newTail);
    } else {
      assert r.frame[..12] == f[..12];
      TaggedTwice(c, f, r.frame);
    }
  }

  /** A tagged frame that is tagged again. */
  lemma TaggedTwice(c: ClassConfig, f: seq<byte>, g: seq<byte>)
    requires Checked(c) && |g| == c.frameLength == |f| && g[..12] == f[..12]
    ensures var m := Mirrored(g, ETH_P_PROFINET_RT, c.tci);
      && |m| == c.frameLength + VLAN_HEADER && m[..12] == f[6..12] + f[..6]
      && m[12..VLAN_ETH_HEADER] == TagBytes(ETH_P_PROFINET_RT, c.tci)
      && m[VLAN_ETH_HEADER..] == g[ETH_HEADER..]
  {
    var m := Mirrored(g, ETH_P_PROFINET_RT, c.tci);
    assert g[..6] == g[..12][..6] && g[6..12] == g[..12][6..] && f[..6] == f[..12][..6] && f[6..12] == f[..12][6..];
    assert m[12..VLAN_ETH_HEADER] == TagBytes(ETH_P_PROFINET_RT, c.tci);
  }

  lemma RestampKeepsGood(c: ClassConfig, a: Aead, tail: seq<byte>, seqNo: nat, want: seq<byte>,
                         pattern: seq<byte>, restamp: nat)
    requires Checked(c) && Contract(a) && |tail| == TailSize(c) && TailCounter(c, tail) == seqNo
    requires c.mode.AuthEncrypt? ==> |pattern| == TailSize(c) - SECURE_HEADER - CHECKSUM
    requires Carries(c, tail, pattern, want)
    ensures GoodTail(c, a, Protect(c, a, Restamped(c, tail, restamp), seqNo, pattern), seqNo, want)
    ensures Carries(c, Protect(c, a, Restamped(c, tail, restamp), seqNo, pattern), pattern, want)
  {
    var stamped := Restamped(c, tail, restamp);
    var at := MetaAt(c.mode);
    SliceOfPrefix(stamped, at + COUNTERS_SIZE, at, at + COUNTERS_SIZE);
    SliceOfPrefix(tail, at + COUNTERS_SIZE, at, at + COUNTERS_SIZE);
    StampKeepsPayload(c, tail, at + COUNTERS_SIZE, EncodeTimestamp(restamp), pattern, want);
    ProtectedIsGood(c, a, stamped, seqNo, pattern, want);
  }

  lemma ReflectedParts(c: ClassConfig, path: Path, r: Received, f: seq<byte>, g: seq<byte>, newTail: seq<byte>)
    requires |f| >= VLAN_ETH_HEADER && f[12..VLAN_ETH_HEADER] == TagBytes(ETH_P_PROFINET_RT, c.tci)
    requires |g| >= VLAN_ETH_HEADER && g[..12] == f[..12]
    requires r.Accepted? && r.tagMissing == !HasTag(g) && r.frame == g[..HeaderLength(g)] + newTail
    requires HasTag(g) ==> g == f && path.InPlace?
    requires !HasTag(g) ==> |r.frame| + VLAN_HEADER <= FRAME_SIZE
    ensures var m := Reflected(c, path, r);
      && |m| == VLAN_ETH_HEADER + |newTail|
      && m[..12] == f[6..12] + f[..6]
      && m[12..VLAN_ETH_HEADER] == TagBytes(ETH_P_PROFINET_RT, c.tci)
      && m[VLAN_ETH_HEADER..] == newTail
  {
    var h := HeaderLength(g);
    var m := Reflected(c, path, r);
    assert r.frame[..12] == f[..12];
    assert r.frame[..6] == r.frame[..12][..6] == f[..6];
    assert r.frame[6..12] == r.frame[..12][6..] == f[..12][6..] == f[6..12];
    assert r.frame[h..] == newTail;
    if HasTag(g) {
      assert m[12..] == r.frame[12..] == f[12..18] + newTail;
    }
  }

  /** The receiver reports the timestamp the sender wrote, and recognises the frame id. */
  lemma StampArrives(c: ClassConfig, a: Aead, f: seq<byte>, seqNo: nat, ts: nat, pattern: seq<byte>,
                     strip: bool, restamp: nat)
    requires Checked(c) && Contract(a) && |f| == c.frameLength
    requires c.mode.AuthEncrypt? ==> |pattern| == TailSize(c) - SECURE_HEADER - CHECKSUM
    requires f[12..VLAN_ETH_HEADER] == TagBytes(ETH_P_PROFINET_RT, c.tci)
    requires f[VLAN_ETH_HEADER..VLAN_ETH_HEADER + 2] == BigEndian(c.frameId, 2) && c.frameId < TWO16
    ensures var r := Receive(c, a, OnWire(Prepared(c, a, f, seqNo, ts, pattern), strip), pattern, restamp);
      r.Accepted? && r.txTimestamp == ts % TWO64 && !r.frameIdMismatch
  {
    var sent := Prepared(c, a, f, seqNo, ts, pattern);
    assert sent[12..VLAN_ETH_HEADER] == f[12..VLAN_ETH_HEADER] by {
      assert sent[12..VLAN_ETH_HEADER] == sent[..VLAN_ETH_HEADER][12..];
    }
    PreparedTail(c, a, f, seqNo, ts, pattern);
    FieldsReported(c, a, sent, ts, pattern, strip, restamp);
  }

  lemma FieldsReported(c: ClassConfig, a: Aead, sent: seq<byte>, ts: nat, pattern: seq<byte>, strip: bool, restamp: nat)
    requires Checked(c) && Contract(a) && |sent| == c.frameLength
    requires c.mode.AuthEncrypt? ==> |pattern| == TailSize(c) - SECURE_HEADER - CHECKSUM
    requires sent[12..VLAN_ETH_HEADER] == TagBytes(ETH_P_PROFINET_RT, c.tci)
    requires var tail := sent[VLAN_ETH_HEADER..];
      var at := MetaAt(c.mode) + COUNTERS_SIZE;
      tail[..2] == BigEndian(c.frameId, 2) && tail[at..at + TIMESTAMP_SIZE] == EncodeTimestamp(ts)
    requires c.frameId < TWO16
    ensures var r := Receive(c, a, OnWire(sent, strip), pattern, restamp);
      r.Accepted? && r.txTimestamp == ts % TWO64 && !r.frameIdMismatch
  {
    OnWireParses(c, sent, strip);
    FrameIdRoundTrip(c.frameId);
    TimestampRoundTrip(ts);
  }

  lemma FrameIdRoundTrip(frameId: nat)
    requires frameId < TWO16
    ensures FromBigEndian(BigEndian(frameId, 2)) == frameId
  {
    BigEndianRoundTrip(frameId, 2);
    PowersOf256();
  }

  lemma PreparedTail(c: ClassConfig, a: Aead, f: seq<byte>, seqNo: nat, ts: nat, pattern: seq<byte>)
    requires Checked(c) && Contract(a) && |f| == c.frameLength
    requires c.mode.AuthEncrypt? ==> |pattern| == TailSize(c) - SECURE_HEADER - CHECKSUM
    ensures var tail := Prepared(c, a, f, seqNo, ts, pattern)[VLAN_ETH_HEADER..];
      var at := MetaAt(c.mode) + COUNTERS_SIZE;
      tail[..2] == f[VLAN_ETH_HEADER..VLAN_ETH_HEADER + 2] && tail[at..at + TIMESTAMP_SIZE] == EncodeTimestamp(ts)
  {
    var at, hs := MetaAt(c.mode), HeaderSize(c.mode);
    var meta := EncodeMeta(seqNo, c.framesPerCycle, ts);
    var t := Splice(f[VLAN_ETH_HEADER..], at, meta);
    var tail := Prepared(c, a, f, seqNo, ts, pattern)[VLAN_ETH_HEADER..];
    assert tail == Protect(c, a, t, seqNo, pattern);
    assert tail[..hs] == t[..hs];
    assert tail[..2] == tail[..hs][..2] == t[..hs][..2] == t[..at][..2] == f[VLAN_ETH_HEADER..][..at][..2];
    assert tail[at + 8..at + 16] == tail[..hs][at + 8..at + 16] == t[..hs][at + 8..at + 16]
        == t[at..at + META_SIZE][8..];
  }

  /** A good frame whose clear payload is also available to the next mirror. */
  ghost predicate Healthy(c: ClassConfig, a: Aead, f: seq<byte>, seqNo: nat, want: seq<byte>, pattern: seq<byte>)
    requires Checked(c) && Contract(a)
  {
    GoodFrame(c, a, f, seqNo, want) && Carries(c, f[VLAN_ETH_HEADER..], pattern, want)
  }

  predicate Exchanged(f: seq<byte>, g: seq<byte>)
  {
    |f| >= 12 && |g| >= 12 && g[..12] == f[6..12] + f[..6]
  }

  lemma ExchangeTwice(f: seq<byte>, g: seq<byte>, h: seq<byte>)
    requires |f| >= 12 && Exchanged(g, h)
    ensures g[..12] == f[..12] ==> h[..12] == f[6..12] + f[..6]
    ensures g[..12] == f[6..12] + f[..6] ==> h[..12] == f[..12]
  {
    assert g[..6] == g[..12][..6] && g[6..12] == g[..12][6..];
    assert f[..6] == f[..12][..6] && f[6..12] == f[..12][6..];
  }

  /** Exchanging addresses at every step: after an even number of steps they are the original ones. */
  lemma {:induction false} ExchangeParity(trace: seq<seq<byte>>, k: nat)
    requires k < |trace| && |trace[0]| >= 12
    requires forall i, j {:trigger trace[i], trace[j]} :: 0 <= i < j == i + 1 <= k ==> Exchanged(trace[i], trace[j])
    ensures |trace[k]| >= 12
    ensures trace[k][..12] == if k % 2 == 0 then trace[0][..12] else trace[0][6..12] + trace[0][..6]
  {
    if k > 0 {
      ExchangeParity(trace, k - 1);
      ExchangeTwice(trace[0], trace[k - 1], trace[k]);
    }
  }

  /** The receiver is content with a frame. */
  predicate Fine(r: Received, seqNo: nat)
  {
    r.Accepted? && r.authentic && r.seqNo == seqNo && !r.payloadMismatch
  }

  lemma SameHeader(f: seq<byte>, g: seq<byte>)
    requires |f| >= VLAN_ETH_HEADER && |g| >= VLAN_ETH_HEADER && f[..VLAN_ETH_HEADER] == g[..VLAN_ETH_HEADER]
    ensures f[..6] == g[..6] && f[6..12] == g[6..12]
  {
    assert f[..6] == f[..VLAN_ETH_HEADER][..6] && f[6..12] == f[..VLAN_ETH_HEADER][6..12];
    assert g[..6] == g[..VLAN_ETH_HEADER][..6] && g[6..12] == g[..VLAN_ETH_HEADER][6..12];
  }

  lemma SentCarries(c: ClassConfig, a: Aead, f: seq<byte>, seqNo: nat, ts: nat, pattern: seq<byte>, want: seq<byte>)
    requires Checked(c) && Contract(a) && |f| == c.frameLength
    requires c.mode.AuthEncrypt? ==> |pattern| == TailSize(c) - SECURE_HEADER - CHECKSUM
    requires Carries(c, f[VLAN_ETH_HEADER..], pattern, want)
    requires GoodFrame(c, a, Prepared(c, a, f, seqNo, ts, pattern), seqNo, want)
    ensures Carries(c, Prepared(c, a, f, seqNo, ts, pattern)[VLAN_ETH_HEADER..], pattern, want)
  {
  }
}
