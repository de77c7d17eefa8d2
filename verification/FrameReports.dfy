/**
 What the receiver does with a frame, stated on the bytes of the frame: which frames it accepts, what it reports about
 them, and what it leaves in the buffer.
 */
module FrameReports {
  import opened Words
  import opened MetaData
  import opened Frames
  import opened Profinet

  lemma EtherTypeBytes()
    ensures BigEndian(ETH_P_8021Q, 2) == [0x81, 0x00] && BigEndian(ETH_P_PROFINET_RT, 2) == [0x88, 0x92]
  {
    assert BigEndian(ETH_P_8021Q / 256, 1) == BigEndian(0, 0) + [0x81];
    assert BigEndian(ETH_P_PROFINET_RT / 256, 1) == BigEndian(0, 0) + [0x88];
  }

  /** Bytes `at` and `at + 1` hold this EtherType. */
  predicate EtherTypeAt(f: seq<byte>, at: nat, high: byte, low: byte)
    requires at + 2 <= |f|
  {
    f[at] == high && f[at + 1] == low
  }

  lemma EtherTypeSlice(f: seq<byte>, at: nat, high: byte, low: byte)
    requires at + 2 <= |f|
    ensures f[at..at + 2] == [high, low] <==> EtherTypeAt(f, at, high, low)
  {
    assert f[at..at + 2] == [f[at], f[at + 1]];
  }

  /** Where the contents of a frame start: behind the tag if there is one. */
  function ContentAt(f: seq<byte>): (h: nat)
    requires |f| >= 18
    ensures h <= 18
  {
    if EtherTypeAt(f, 12, 0x81, 0x00) then 18 else 14
  }

  /**
   A frame is accepted if and only if it is long enough for a tagged header, has the PROFINET EtherType in its place,
   and has the configured length, four bytes less without the tag. Else the first of these that fails is the reason.
   */
  lemma ClassifyExactly(c: ClassConfig, f: seq<byte>)
    requires Checked(c)
    ensures |f| < 18 ==> Classify(c, f) == Some(TooSmall)
    ensures |f| >= 18 ==>
      var h := ContentAt(f);
      if !EtherTypeAt(f, h - 2, 0x88, 0x92) then Classify(c, f) == Some(NotProfinet)
      else if |f| + 18 != c.frameLength + h then Classify(c, f) == Some(WrongLength)
      else Classify(c, f) == None
  {
    EtherTypeBytes();
    if |f| >= 18 {
      EtherTypeSlice(f, 12, 0x81, 0x00);
      EtherTypeSlice(f, 12, 0x88, 0x92);
      EtherTypeSlice(f, 16, 0x88, 0x92);
    }
  }

  lemma ContentHeader(f: seq<byte>)
    requires |f| >= 18
    ensures ContentAt(f) == HeaderLength(f) && (HasTag(f) <==> ContentAt(f) == 18)
  {
    EtherTypeBytes();
    EtherTypeSlice(f, 12, 0x81, 0x00);
  }

  // ---------- what is reported ----------

  /** The vector derived from the counters in a protected frame. */
  function IvOf(c: ClassConfig, f: seq<byte>, h: nat): (iv: seq<byte>)
    requires Checked(c) && !c.mode.NoSecurity? && h + 18 <= |f|
    ensures |iv| == IV_LEN
  {
    PrepareIv(c.ivPrefix, GetSequenceCounter(f, h + 10, c.framesPerCycle))
  }

  /**
   The cipher accepts the frame's own bytes. Authenticated frames: everything behind the Ethernet header up to the
   last 16 bytes is associated data, the last 16 are the checksum. Encrypted frames: the associated data are the 26
   bytes of the header, and the rest up to the checksum is the ciphertext.
   */
  predicate Opens(c: ClassConfig, a: Aead, f: seq<byte>, h: nat)
    requires Checked(c) && !c.mode.NoSecurity? && h + 26 + 16 <= |f|
  {
    var m := |f| - 16;
    if c.mode.AuthOnly? then a.open(IvOf(c, f, h), f[h..m], [], f[m..]).ok
    else a.open(IvOf(c, f, h), f[h..h + 26], f[h + 26..m], f[m..]).ok
  }

  lemma InspectExactly(c: ClassConfig, a: Aead, f: seq<byte>, h: nat)
    requires Checked(c) && Contract(a) && !c.mode.NoSecurity? && h <= |f| && |f| - h == TailSize(c)
    ensures Inspect(c, a, f[h..]).authentic <==> Opens(c, a, f, h)
  {
    var tail, m := f[h..], |f| - 16;
    InSuffix(f, h, 10, 18);
    assert TailCounter(c, tail) == GetSequenceCounter(f, h + 10, c.framesPerCycle);
    assert tail[m - h..] == f[m..];
    assert tail[..m - h] == f[h..m];
    assert tail[..26] == f[h..h + 26];
    InSuffix(f, h, 26, m - h);
  }

  /** An accepted frame is reported as authentic if and only if the cipher accepts it; without security always. */
  lemma AuthenticExactly(c: ClassConfig, a: Aead, f: seq<byte>, pattern: seq<byte>, restamp: nat)
    requires Checked(c) && Contract(a) && Classify(c, f).None?
    requires c.mode.AuthEncrypt? ==> |pattern| == TailSize(c) - SECURE_HEADER - CHECKSUM
    ensures var r := Receive(c, a, f, pattern, restamp);
      r.Accepted? && (r.authentic <==> c.mode.NoSecurity? || Opens(c, a, f, ContentAt(f)))
  {
    ContentHeader(f);
    if !c.mode.NoSecurity? {
      InspectExactly(c, a, f, ContentAt(f));
    }
  }

  /** The clear payload starts with the expected pattern. */
  predicate ShowsPattern(c: ClassConfig, a: Aead, f: seq<byte>, h: nat)
    requires Checked(c) && |f| - h == TailSize(c)
  {
    var e, m := c.expected, |f| - 16;
    match c.mode
    case NoSecurity => f[h + 18..h + 18 + |e|] == e
    case AuthOnly => f[h + 26..h + 26 + |e|] == e
    case AuthEncrypt => e <= a.open(IvOf(c, f, h), f[h..h + 26], f[h + 26..m], f[m..]).plain
  }

  lemma PatternExactly(c: ClassConfig, a: Aead, f: seq<byte>, h: nat)
    requires Checked(c) && Contract(a) && h <= |f| && |f| - h == TailSize(c)
    ensures Inspect(c, a, f[h..]).payload[..|c.expected|] != c.expected <==> !ShowsPattern(c, a, f, h)
  {
    var tail, m, e := f[h..], |f| - 16, |c.expected|;
    match c.mode
    case NoSecurity =>
      assert tail[18..][..e] == tail[18..18 + e];
      InSuffix(f, h, 18, 18 + e);
    case AuthOnly =>
      assert tail[26..][..e] == tail[26..26 + e];
      InSuffix(f, h, 26, 26 + e);
    case AuthEncrypt =>
      InSuffix(f, h, 10, 18);
      assert TailCounter(c, tail) == GetSequenceCounter(f, h + 10, c.framesPerCycle);
      assert tail[m - h..] == f[m..] && tail[..26] == f[h..h + 26];
      InSuffix(f, h, 26, m - h);
  }

  /** Everything else that is reported about an accepted frame, at its place in the frame. */
  lemma ReportExactly(c: ClassConfig, a: Aead, f: seq<byte>, pattern: seq<byte>, restamp: nat)
    requires Checked(c) && Contract(a) && Classify(c, f).None?
    requires c.mode.AuthEncrypt? ==> |pattern| == TailSize(c) - SECURE_HEADER - CHECKSUM
    ensures var r, h := Receive(c, a, f, pattern, restamp), ContentAt(f);
      var at := h + if c.mode.NoSecurity? then 2 else 10;
      && r.Accepted? && r.tagMissing == (h == 14)
      && at + 16 <= |f| && |f| - h == TailSize(c)
      && r.seqNo == GetSequenceCounter(f, at, c.framesPerCycle)
      && r.txTimestamp == FromBigEndian(f[at + 8..at + 16])
      && (r.frameIdMismatch <==> FromBigEndian(f[h..h + 2]) != c.frameId)
      && (r.payloadMismatch <==> !ShowsPattern(c, a, f, h))
  {
    ContentHeader(f);
    var h, m := ContentAt(f), MetaAt(c.mode);
    InSuffix(f, h, m, m + 8);
    InSuffix(f, h, m + 8, m + 16);
    assert f[h..][..2] == f[h..h + 2];
    PatternExactly(c, a, f, h);
  }

  // ---------- what is left in the buffer ----------

  /** Behind its header of 26 bytes `g` carries the pattern encrypted under this vector, and the checksum of both. */
  predicate EncryptedAs(a: Aead, iv: seq<byte>, g: seq<byte>, h: nat, pattern: seq<byte>)
    requires h + 26 + 16 <= |g|
  {
    var m, sealed := |g| - 16, a.seal(iv, g[h..h + 26], pattern);
    g[h + 26..m] == sealed.cipher && g[m..] == sealed.tag
  }

  lemma ProtectedAuth(c: ClassConfig, a: Aead, front: seq<byte>, t: seq<byte>, seqNo: nat)
    requires Checked(c) && Contract(a) && c.mode.AuthOnly? && |t| == TailSize(c)
    ensures var g, h, m := front + Protect(c, a, t, seqNo, []), |front|, |front| + |t| - 16;
      && |g| == |front| + |t| && g[h..m] == t[..|t| - 16]
      && g[m..] == a.seal(PrepareIv(c.ivPrefix, seqNo), g[h..m], []).tag
  {
    var iv, aad := PrepareIv(c.ivPrefix, seqNo), t[..|t| - 16];
    assert SealsAndOpens(a, iv, aad, []) by { var _ := a.seal(iv, aad, []); }
    var p := Protect(c, a, t, seqNo, []);
    assert p == aad + a.seal(iv, aad, []).tag;
    var g, h := front + p, |front|;
    assert g[h..h + |aad|] == aad && g[h + |aad|..] == a.seal(iv, aad, []).tag;
  }

  lemma ProtectedEncrypt(c: ClassConfig, a: Aead, front: seq<byte>, t: seq<byte>, seqNo: nat, pattern: seq<byte>)
    requires Checked(c) && Contract(a) && c.mode.AuthEncrypt? && |t| == TailSize(c)
    requires |pattern| == TailSize(c) - SECURE_HEADER - CHECKSUM
    ensures var g, h := front + Protect(c, a, t, seqNo, pattern), |front|;
      |g| == |front| + |t| && g[h..h + 26] == t[..26] && EncryptedAs(a, PrepareIv(c.ivPrefix, seqNo), g, h, pattern)
  {
    var iv, aad := PrepareIv(c.ivPrefix, seqNo), t[..26];
    assert SealsAndOpens(a, iv, aad, pattern) by { var _ := a.seal(iv, aad, pattern); }
    var sealed := a.seal(iv, aad, pattern);
    var p := Protect(c, a, t, seqNo, pattern);
    assert p == aad + sealed.cipher + sealed.tag;
    var g, h := front + p, |front|;
    assert g[h..h + 26] == aad && g[h + 26..h + |t| - 16] == sealed.cipher && g[h + |t| - 16..] == sealed.tag;
  }

  /** Behind the 26 bytes of the header nothing was written. */
  lemma BehindMeta(f: seq<byte>, g: seq<byte>, t: seq<byte>, h: nat, m: nat)
    requires h + 26 <= m <= |f| == |g| && |t| == |f| - h && g[h..m] == t[..m - h] && t[26..] == f[h..][26..]
    ensures g[h + 26..m] == f[h + 26..m]
  {
    InSlice(g, h, m, 26, m - h);
    InPrefix(t, m - h, 26, m - h);
    InSuffix(t, 26, 0, m - h - 26);
    InSuffix(f[h..], 26, 0, m - h - 26);
    InSuffix(f, h, 26, m - h);
  }

  /** The authenticated frame: what lies between header and checksum is kept, and everything is sealed. */
  lemma SealedFrame(c: ClassConfig, a: Aead, f: seq<byte>, h: nat, t: seq<byte>, seqNo: nat, pattern: seq<byte>)
    requires Checked(c) && Contract(a) && c.mode.AuthOnly? && h <= |f| && |f| - h == |t| == TailSize(c)
    requires t[26..] == f[h..][26..]
    ensures var g, m := f[..h] + Protect(c, a, t, seqNo, pattern), |f| - 16;
      |g| == |f| && g[h + 26..m] == f[h + 26..m] && g[m..] == a.seal(PrepareIv(c.ivPrefix, seqNo), g[h..m], []).tag
  {
    ProtectedAuth(c, a, f[..h], t, seqNo);
    assert Protect(c, a, t, seqNo, pattern) == Protect(c, a, t, seqNo, []);
    BehindMeta(f, f[..h] + Protect(c, a, t, seqNo, []), t, h, |f| - 16);
  }

  /**
   The accepted frame afterwards: headers, frame id, security fields and counters are untouched, the timestamp is the
   mirror's, and the rest is as received (without security), sealed again over the new bytes (authenticated), or
   the pattern encrypted again (encrypted).
   */
  lemma FrameAfterwards(c: ClassConfig, a: Aead, f: seq<byte>, pattern: seq<byte>, restamp: nat)
    requires Checked(c) && Contract(a) && Classify(c, f).None?
    requires c.mode.AuthEncrypt? ==> |pattern| == TailSize(c) - SECURE_HEADER - CHECKSUM
    ensures var r, h := Receive(c, a, f, pattern, restamp), ContentAt(f);
      var at, m := h + (if c.mode.NoSecurity? then 2 else 10), |f| - 16;
      && r.Accepted? && |r.frame| == |f| && at + 16 <= |f|
      && r.frame[..at + 8] == f[..at + 8] && r.frame[at + 8..at + 16] == EncodeTimestamp(restamp)
      && (c.mode.NoSecurity? ==> r.frame[at + 16..] == f[at + 16..])
      && (c.mode.AuthOnly? ==> h + 26 <= m && r.frame[h + 26..m] == f[h + 26..m]
                               && r.frame[m..] == a.seal(IvOf(c, f, h), r.frame[h..m], []).tag)
      && (c.mode.AuthEncrypt? ==> h + 26 <= m && EncryptedAs(a, IvOf(c, f, h), r.frame, h, pattern))
  {
    ContentHeader(f);
    var r, h, k := Receive(c, a, f, pattern, restamp), ContentAt(f), MetaAt(c.mode);
    var tail := f[h..];
    var stamped := Restamped(c, tail, restamp);
    InSuffix(f, h, k, k + 8);
    var seqNo := TailCounter(c, tail);
    var p := Protect(c, a, stamped, seqNo, pattern);
    assert r.frame == f[..h] + p;
    HeaderAfterwards(f, h, k, HeaderSize(c.mode), EncodeTimestamp(restamp), p);
    match c.mode
    case NoSecurity => RestAfterwards(f, h, k, EncodeTimestamp(restamp));
    case AuthOnly => SealedAfterwards(c, a, f, h, restamp, pattern);
    case AuthEncrypt => EncryptedAfterwards(c, a, f, h, restamp, pattern);
  }

  lemma HeaderAfterwards(f: seq<byte>, h: nat, k: nat, hs: nat, stamp: seq<byte>, p: seq<byte>)
    requires |stamp| == 8 && k + 16 == hs && h + hs <= |f| && |p| == |f| - h
    requires p[..hs] == Splice(f[h..], k + 8, stamp)[..hs]
    ensures (f[..h] + p)[..h + k + 8] == f[..h + k + 8] && (f[..h] + p)[h + k + 8..h + k + 16] == stamp
  {
    var t, g := Splice(f[h..], k + 8, stamp), f[..h] + p;
    ShorterPrefix(p, hs, k + 8);
    ShorterPrefix(t, hs, k + 8);
    assert p[..k + 8] == f[h..][..k + 8];
    assert g[..h + k + 8] == f[..h] + p[..k + 8];
    InPrefix(p, hs, k + 8, k + 16);
    InPrefix(t, hs, k + 8, k + 16);
    assert g[h..] == p;
    InSuffix(g, h, k + 8, k + 16);
  }

  lemma RestAfterwards(f: seq<byte>, h: nat, k: nat, stamp: seq<byte>)
    requires |stamp| == 8 && h + k + 16 <= |f|
    ensures (f[..h] + Splice(f[h..], k + 8, stamp))[h + k + 16..] == f[h + k + 16..]
  {
    var t := Splice(f[h..], k + 8, stamp);
    assert (f[..h] + t)[h + k + 16..] == t[k + 16..];
    assert f[h..][k + 16..] == f[h + k + 16..];
  }

  lemma SealedAfterwards(c: ClassConfig, a: Aead, f: seq<byte>, h: nat, restamp: nat, pattern: seq<byte>)
    requires Checked(c) && Contract(a) && c.mode.AuthOnly? && h <= |f| && |f| - h == TailSize(c)
    ensures var tail := f[h..];
      var g, m := f[..h] + Protect(c, a, Restamped(c, tail, restamp), TailCounter(c, tail), pattern), |f| - 16;
      && |g| == |f| && g[h + 26..m] == f[h + 26..m] && g[m..] == a.seal(IvOf(c, f, h), g[h..m], []).tag
  {
    InSuffix(f, h, 10, 18);
    SealedFrame(c, a, f, h, Restamped(c, f[h..], restamp), TailCounter(c, f[h..]), pattern);
  }

  lemma EncryptedAfterwards(c: ClassConfig, a: Aead, f: seq<byte>, h: nat, restamp: nat, pattern: seq<byte>)
    requires Checked(c) && Contract(a) && c.mode.AuthEncrypt? && h <= |f| && |f| - h == TailSize(c)
    requires |pattern| == TailSize(c) - SECURE_HEADER - CHECKSUM
    ensures var tail := f[h..];
      var g := f[..h] + Protect(c, a, Restamped(c, tail, restamp), TailCounter(c, tail), pattern);
      |g| == |f| && EncryptedAs(a, IvOf(c, f, h), g, h, pattern)
  {
    InSuffix(f, h, 10, 18);
    ProtectedEncrypt(c, a, f[..h], Restamped(c, f[h..], restamp), TailCounter(c, f[h..]), pattern);
  }

  // ---------- what the sender prepares ----------

  /**
   The frame as it is sent: only the meta data is written into the initialized frame, and the protected spans are sealed
   under the vector of the frame's own number.
   */
  lemma PreparedExactly(c: ClassConfig, a: Aead, f: seq<byte>, seqNo: nat, ts: nat, pattern: seq<byte>)
    requires Checked(c) && Contract(a) && |f| == c.frameLength
    requires c.mode.AuthEncrypt? ==> |pattern| == TailSize(c) - SECURE_HEADER - CHECKSUM
    ensures var g, at, m := Prepared(c, a, f, seqNo, ts, pattern), if c.mode.NoSecurity? then 20 else 28, |f| - 16;
      && |g| == |f| && at + 16 <= |f|
      && g[..at] == f[..at] && g[at..at + 16] == EncodeMeta(seqNo, c.framesPerCycle, ts)
      && (c.mode.NoSecurity? ==> g[36..] == f[36..])
      && (c.mode.AuthOnly? ==> 44 <= m && g[44..m] == f[44..m]
                               && g[m..] == a.seal(PrepareIv(c.ivPrefix, seqNo), g[18..m], []).tag)
      && (c.mode.AuthEncrypt? ==> 44 <= m && EncryptedAs(a, PrepareIv(c.ivPrefix, seqNo), g, 18, pattern))
  {
    var g, k, meta := Prepared(c, a, f, seqNo, ts, pattern), MetaAt(c.mode), EncodeMeta(seqNo, c.framesPerCycle, ts);
    var t := Splice(f[18..], k, meta);
    assert g == f[..18] + Protect(c, a, t, seqNo, pattern);
    MetaWritten(f, k, HeaderSize(c.mode), meta, Protect(c, a, t, seqNo, pattern));
    match c.mode
    case NoSecurity =>
      PlainRest(f, t);
    case AuthOnly =>
      SealedFrame(c, a, f, 18, t, seqNo, pattern);
    case AuthEncrypt =>
      ProtectedEncrypt(c, a, f[..18], t, seqNo, pattern);
  }

  lemma PlainRest(f: seq<byte>, t: seq<byte>)
    requires |f| >= 36 && |t| == |f| - 18 && t[18..] == f[18..][18..]
    ensures (f[..18] + t)[36..] == f[36..]
  {
    assert (f[..18] + t)[36..] == t[18..];
    assert f[18..][18..] == f[36..];
  }

  lemma MetaWritten(f: seq<byte>, k: nat, hs: nat, meta: seq<byte>, p: seq<byte>)
    requires |meta| == 16 && k + 16 == hs && 18 + hs <= |f| && |p| == |f| - 18
    requires p[..hs] == Splice(f[18..], k, meta)[..hs]
    ensures (f[..18] + p)[..18 + k] == f[..18 + k] && (f[..18] + p)[18 + k..18 + k + 16] == meta
  {
    var t, g := Splice(f[18..], k, meta), f[..18] + p;
    ShorterPrefix(p, hs, k);
    ShorterPrefix(t, hs, k);
    assert p[..k] == f[18..][..k];
    assert g[..18 + k] == f[..18] + p[..k];
    InPrefix(p, hs, k, k + 16);
    InPrefix(t, hs, k, k + 16);
    assert g[18..] == p;
    InSuffix(g, 18, k, k + 16);
  }

  // ---------- a frame that does not authenticate ----------

  predicate AllZero(s: seq<byte>)
  {
    forall i :: 0 <= i < |s| ==> s[i] == 0
  }

  /** A cipher that opens nothing but what carries a checksum of zero bytes. */
  ghost predicate OpensOnlyZeros(a: Aead)
  {
    forall iv, aad, cipher, tag :: a.open(iv, aad, cipher, tag).ok ==> AllZero(tag)
  }

  /** There is such a cipher: it seals with sixteen zero bytes. */
  lemma StrictCipherExists()
    ensures exists a: Aead :: Contract(a) && OpensOnlyZeros(a)
  {
    var zeros: seq<byte> := seq(CHECKSUM, _ => 0);
    var a := Aead((iv: seq<byte>, aad: seq<byte>, plain: seq<byte>) => Sealed(plain, zeros),
                  (iv: seq<byte>, aad: seq<byte>, cipher: seq<byte>, tag: seq<byte>) => Opened(tag == zeros, cipher));
    forall iv: seq<byte>, aad: seq<byte>, plain: seq<byte>
      ensures SealsAndOpens(a, iv, aad, plain)
    {
    }
    forall iv: seq<byte>, aad: seq<byte>, cipher: seq<byte>, tag: seq<byte>
      ensures |a.open(iv, aad, cipher, tag).plain| == |cipher|
      ensures a.open(iv, aad, cipher, tag).ok ==> AllZero(tag)
    {
    }
    assert Contract(a) && OpensOnlyZeros(a);
  }

  lemma SameClass(c: ClassConfig, f: seq<byte>, g: seq<byte>, k: nat)
    requires Checked(c) && |f| == |g| && 18 <= k <= |f| && f[..k] == g[..k]
    ensures Classify(c, f) == Classify(c, g)
  {
    InPrefix(f, k, 12, 14);
    InPrefix(g, k, 12, 14);
    InPrefix(f, k, 16, 18);
    InPrefix(g, k, 16, 18);
  }

  lemma ZerosDecide(c: ClassConfig, a: Aead, g: seq<byte>, h: nat)
    requires Checked(c) && !c.mode.NoSecurity? && h + 26 + 16 <= |g| && OpensOnlyZeros(a)
    ensures Opens(c, a, g, h) ==> AllZero(g[|g| - 16..])
  {
  }

  /**
   Under a cipher that opens only its own checksums, a protected frame whose checksum was altered is still accepted and
   processed, but reported as not authentic, whatever else is in it.
   */
  lemma AlteredIsReported(c: ClassConfig, a: Aead, f: seq<byte>, checksum: seq<byte>, pattern: seq<byte>, restamp: nat)
    requires Checked(c) && Contract(a) && OpensOnlyZeros(a)
    requires !c.mode.NoSecurity? && Classify(c, f).None? && |checksum| == CHECKSUM && !AllZero(checksum)
    requires c.mode.AuthEncrypt? ==> |pattern| == TailSize(c) - SECURE_HEADER - CHECKSUM
    ensures var g := f[..|f| - CHECKSUM] + checksum;
      Classify(c, g).None? && !Receive(c, a, g, pattern, restamp).authentic
  {
    var g, k := f[..|f| - CHECKSUM] + checksum, |f| - CHECKSUM;
    assert g[..k] == f[..k] && g[k..] == checksum;
    SameClass(c, f, g, k);
    ContentHeader(g);
    AuthenticExactly(c, a, g, pattern, restamp);
    ZerosDecide(c, a, g, ContentAt(g));
  }
}
