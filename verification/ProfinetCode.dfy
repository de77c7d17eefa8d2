/** The code that writes PROFINET frames in place, proved against the functions of module Profinet. */
module ProfinetCode {
  import opened Words
  import opened MetaData
  import opened Frames
  import opened Profinet

  // ---------- initialization ----------

  function Zeros(k: nat): (z: seq<byte>)
    ensures |z| == k
  {
    seq(k, _ => 0)
  }

  /** The eight security bytes behind the frame id; empty without security. */
  function SecurityMetaData(mode: Mode, size: nat): (b: seq<byte>)
    requires size >= VLAN_ETH_HEADER + CHECKSUM
    ensures |b| == if mode.NoSecurity? then 0 else 8
  {
    if mode.NoSecurity? then []
    else [if mode.AuthOnly? then 0 else 1, 0, 0, 0, 0, 0] + BigEndian(size - VLAN_ETH_HEADER - CHECKSUM, 2)
  }

  function InitialHeader(c: ClassConfig, size: nat, src: seq<byte>, dst: seq<byte>): (h: seq<byte>)
    requires size >= VLAN_ETH_HEADER + CHECKSUM && |src| == |dst| == ETH_ALEN
    ensures |h| == VLAN_ETH_HEADER + HeaderSize(c.mode)
    ensures h[12..VLAN_ETH_HEADER] == TagBytes(ETH_P_PROFINET_RT, c.tci)
  {
    dst + src + TagBytes(ETH_P_PROFINET_RT, c.tci)
    + BigEndian(c.frameId, 2) + SecurityMetaData(c.mode, size) + Zeros(META_SIZE)
  }

  /** initialize_profinet_frame: header, payload pattern, zero padding. */
  function InitialFrame(c: ClassConfig, size: nat, src: seq<byte>, dst: seq<byte>): (f: seq<byte>)
    requires |src| == |dst| == ETH_ALEN
    requires size >= VLAN_ETH_HEADER + HeaderSize(c.mode) + |c.expected|
    ensures |f| == size
  {
    var h := InitialHeader(c, size, src, dst) + c.expected;
    h + Zeros(size - |h|)
  }

  /** Store the next field of a frame that is still zero from `off` on. */
  method PutField(frame: array<byte>, off: nat, b: seq<byte>)
    requires off + |b| <= frame.Length && frame[off..] == Zeros(frame.Length - off)
    modifies frame
    ensures frame[..off + |b|] == old(frame[..off]) + b
    ensures frame[off + |b|..] == Zeros(frame.Length - off - |b|)
  {
    ghost var was := frame[off..];
    WriteBytes(frame, off, b);
    assert frame[off + |b|..] == was[|b|..];
  }

  /** Addresses, tag, frame id, security fields; the meta data stays zero. */
  method PutHeader(c: ClassConfig, frame: array<byte>, src: seq<byte>, dst: seq<byte>)
    requires |src| == |dst| == ETH_ALEN && frame[..] == Zeros(frame.Length)
    requires frame.Length >= VLAN_ETH_HEADER + HeaderSize(c.mode)
    modifies frame
    ensures var k := VLAN_ETH_HEADER + HeaderSize(c.mode);
      frame[..k] == InitialHeader(c, frame.Length, src, dst) && frame[k..] == Zeros(frame.Length - k)
  {
    assert frame[0..] == Zeros(frame.Length);
    PutField(frame, 0, dst);
    PutField(frame, 6, src);
    PutField(frame, 12, TagBytes(ETH_P_PROFINET_RT, c.tci));
    PutField(frame, 18, BigEndian(c.frameId, 2));
    var sec := SecurityMetaData(c.mode, frame.Length);
    PutField(frame, 20, sec);
    PutField(frame, 20 + |sec|, Zeros(META_SIZE));
  }

  method InitializeProfinetFrame(c: ClassConfig, frame: array<byte>, src: seq<byte>, dst: seq<byte>)
    requires |src| == |dst| == ETH_ALEN
    requires frame.Length >= VLAN_ETH_HEADER + HeaderSize(c.mode) + |c.expected|
    modifies frame
    ensures frame[..] == InitialFrame(c, frame.Length, src, dst)
  {
    forall i | 0 <= i < frame.Length { frame[i] := 0; }
    assert frame[..] == Zeros(frame.Length);
    PutHeader(c, frame, src, dst);
    var k := VLAN_ETH_HEADER + HeaderSize(c.mode);
    PutField(frame, k, c.expected);
    assert frame[..] == frame[..k + |c.expected|] + frame[k + |c.expected|..];
  }

  /** The initialized frame meets what MirrorHops.SecureRoundTrip asks of a frame to be sent. */
  lemma InitialFrameIsReady(c: ClassConfig, size: nat, src: seq<byte>, dst: seq<byte>, pattern: seq<byte>)
    requires Checked(c) && |src| == |dst| == ETH_ALEN && c.frameLength <= size
    requires c.mode.AuthEncrypt? ==> c.expected <= pattern
    ensures var f := InitialFrame(c, size, src, dst)[..c.frameLength];
      && f[..12] == dst + src
      && f[12..VLAN_ETH_HEADER] == TagBytes(ETH_P_PROFINET_RT, c.tci)
      && Carries(c, f[VLAN_ETH_HEADER..], pattern, c.expected)
  {
    var h := InitialHeader(c, size, src, dst);
    var whole := InitialFrame(c, size, src, dst);
    var f := whole[..c.frameLength];
    var k := |h|;
    assert whole[..k] == h && whole[k..k + |c.expected|] == c.expected;
    assert f[..k] == h && f[k..k + |c.expected|] == c.expected;
    assert f[12..VLAN_ETH_HEADER] == h[12..VLAN_ETH_HEADER];
    assert f[..12] == h[..12] == dst + src;
    var tail := f[VLAN_ETH_HEADER..];
    assert tail[HeaderSize(c.mode)..] == f[k..];
    assert f[k..][..|c.expected|] == c.expected;
  }

  /** Offset by offset: what the initialized frame holds, in each of the two layouts. */
  lemma InitialFrameLayout(c: ClassConfig, size: nat, src: seq<byte>, dst: seq<byte>)
    requires |src| == |dst| == ETH_ALEN && size >= VLAN_ETH_HEADER + HeaderSize(c.mode) + |c.expected|
    ensures var f := InitialFrame(c, size, src, dst);
      var k := if c.mode.NoSecurity? then 36 else 44;
      && f[0..6] == dst && f[6..12] == src && f[12..18] == TagBytes(ETH_P_PROFINET_RT, c.tci)
      && f[18..20] == BigEndian(c.frameId, 2)
      && (!c.mode.NoSecurity? ==> f[20] == (if c.mode.AuthOnly? then 0 else 1) && f[21..26] == Zeros(5)
                                  && f[26..28] == BigEndian(size - 34, 2))
      && f[k - 16..k] == Zeros(16) && f[k..k + |c.expected|] == c.expected
      && f[k + |c.expected|..] == Zeros(size - k - |c.expected|)
  {
    var f, h := InitialFrame(c, size, src, dst), InitialHeader(c, size, src, dst);
    var k := |h|;
    assert f[..k] == h && f[k..] == c.expected + Zeros(size - k - |c.expected|);
    HeaderLayout(c, size, src, dst);
    InPrefix(f, k, 0, 6);
    InPrefix(f, k, 6, 12);
    InPrefix(f, k, 12, 18);
    InPrefix(f, k, 18, 20);
    InPrefix(f, k, k - 16, k);
    if !c.mode.NoSecurity? {
      InPrefix(f, k, 20, 28);
      SecurityLayout(c.mode, size, f);
    }
    InSuffix(f, k, 0, |c.expected|);
    assert f[k + |c.expected|..] == f[k..][|c.expected|..];
  }

  lemma HeaderLayout(c: ClassConfig, size: nat, src: seq<byte>, dst: seq<byte>)
    requires |src| == |dst| == ETH_ALEN && size >= VLAN_ETH_HEADER + CHECKSUM
    ensures var h := InitialHeader(c, size, src, dst);
      && h[0..6] == dst && h[6..12] == src && h[18..20] == BigEndian(c.frameId, 2)
      && h[20..20 + |SecurityMetaData(c.mode, size)|] == SecurityMetaData(c.mode, size)
      && h[|h| - 16..|h|] == Zeros(16)
  {
    var sec := SecurityMetaData(c.mode, size);
    var tag, id := TagBytes(ETH_P_PROFINET_RT, c.tci), BigEndian(c.frameId, 2);
    var h := InitialHeader(c, size, src, dst);
    assert h == ((((dst + src) + tag) + id) + sec) + Zeros(META_SIZE);
    assert h[..12] == dst + src && h[18..20] == id;
  }

  lemma SecurityLayout(mode: Mode, size: nat, f: seq<byte>)
    requires !mode.NoSecurity? && size >= VLAN_ETH_HEADER + CHECKSUM && |f| >= 28
    requires f[20..28] == SecurityMetaData(mode, size)
    ensures f[20] == (if mode.AuthOnly? then 0 else 1) && f[21..26] == Zeros(5) && f[26..28] == BigEndian(size - 34, 2)
  {
    var b := f[20..28];
    assert f[20] == b[0];
    InSlice(f, 20, 28, 1, 6);
    InSlice(f, 20, 28, 6, 8);
    assert b[1..6] == Zeros(5) && b[6..8] == BigEndian(size - 34, 2);
  }

  // ---------- the pattern that is encrypted ----------

  const XSK_TX_METADATA: nat := 24

  /**
   ctx->payload_pattern: a slice at a fixed offset of frame_copy. With AF_XDP launch times or hardware
   timestamps the frame inside frame_copy starts `shift` bytes later, the slice does not.
   */
  function EncryptedPattern(c: ClassConfig, shift: nat, src: seq<byte>, dst: seq<byte>): (p: seq<byte>)
    requires Checked(c) && c.mode.AuthEncrypt? && |src| == |dst| == ETH_ALEN
    requires shift + VLAN_ETH_HEADER + SECURE_HEADER + |c.expected| <= FRAME_SIZE
    ensures |p| == TailSize(c) - SECURE_HEADER - CHECKSUM
  {
    var copy := Zeros(shift) + InitialFrame(c, FRAME_SIZE - shift, src, dst);
    copy[VLAN_ETH_HEADER + SECURE_HEADER..][..c.frameLength - VLAN_ETH_HEADER - SECURE_HEADER - CHECKSUM]
  }

  lemma PatternAligned(c: ClassConfig, src: seq<byte>, dst: seq<byte>)
    requires Checked(c) && c.mode.AuthEncrypt? && |src| == |dst| == ETH_ALEN
    ensures c.expected <= EncryptedPattern(c, 0, src, dst)
  {
    var k := VLAN_ETH_HEADER + SECURE_HEADER;
    var f := InitialFrame(c, FRAME_SIZE, src, dst);
    assert Zeros(0) + f == f;
    assert f[k..][..|c.expected|] == c.expected;
  }

  /** The bytes the slice picks up when the frame is shifted: the header's last 24 bytes. */
  function HeaderRemainder(size: nat): (b: seq<byte>)
    requires size >= VLAN_ETH_HEADER + CHECKSUM
    ensures |b| == XSK_TX_METADATA
  {
    SecurityMetaData(AuthEncrypt, size) + Zeros(META_SIZE)
  }

  /**
   With the shift the encrypted pattern starts with header bytes, so the payload check can only
   succeed if the configured pattern repeats exactly those bytes.
   */
  lemma PatternShifted(c: ClassConfig, src: seq<byte>, dst: seq<byte>)
    requires Checked(c) && c.mode.AuthEncrypt? && |src| == |dst| == ETH_ALEN
    requires XSK_TX_METADATA + VLAN_ETH_HEADER + SECURE_HEADER + |c.expected| <= FRAME_SIZE
    ensures c.expected <= EncryptedPattern(c, XSK_TX_METADATA, src, dst)
       <==> c.expected <= HeaderRemainder(FRAME_SIZE - XSK_TX_METADATA) + c.expected
  {
    var size := FRAME_SIZE - XSK_TX_METADATA;
    var f := InitialFrame(c, size, src, dst);
    var rem := HeaderRemainder(size);
    var k := VLAN_ETH_HEADER + SECURE_HEADER;
    var h := InitialHeader(c, size, src, dst);
    assert f[20..k] == h[20..k] == rem;
    assert f[20..][..24 + |c.expected|] == rem + c.expected by {
      assert f[k..k + |c.expected|] == c.expected;
      assert f[20..k + |c.expected|] == f[20..k] + f[k..k + |c.expected|];
    }
    var copy := Zeros(XSK_TX_METADATA) + f;
    assert copy[k..] == f[20..];
    var p := EncryptedPattern(c, XSK_TX_METADATA, src, dst);
    assert p[..|c.expected|] == f[20..][..|c.expected|] == f[20..][..24 + |c.expected|][..|c.expected|]
        == (rem + c.expected)[..|c.expected|];
  }

  /** For example, no pattern that starts with a zero byte survives the shift. */
  lemma PatternShiftedFails(c: ClassConfig, src: seq<byte>, dst: seq<byte>)
    requires Checked(c) && c.mode.AuthEncrypt? && |src| == |dst| == ETH_ALEN
    requires XSK_TX_METADATA + VLAN_ETH_HEADER + SECURE_HEADER + |c.expected| <= FRAME_SIZE
    requires |c.expected| > 0 && c.expected[0] == 0
    ensures !(c.expected <= EncryptedPattern(c, XSK_TX_METADATA, src, dst))
  {
    PatternShifted(c, src, dst);
    assert (HeaderRemainder(FRAME_SIZE - XSK_TX_METADATA) + c.expected)[0] == 1;
  }

  // ---------- transmission ----------

  lemma SpliceInTail(f: seq<byte>, len: nat, h: nat, at: nat, b: seq<byte>)
    requires h <= len <= |f| && h + at + |b| <= len
    ensures Splice(f, h + at, b)[..len] == f[..h] + Splice(f[h..len], at, b)
    ensures Splice(f, h + at, b)[len..] == f[len..]
    ensures Splice(f, h + at, b)[h..len] == Splice(f[h..len], at, b)
  {
    assert Splice(f, h + at, b)[..len] == f[..h] + Splice(f[h..len], at, b);
  }

  method AuthenticateInPlace(a: Aead, frame: array<byte>, len: nat, h: nat, iv: seq<byte>)
    requires Contract(a) && |iv| == IV_LEN
    requires h + CHECKSUM <= len <= frame.Length
    modifies frame
    ensures frame[..h] == old(frame[..h]) && frame[len..] == old(frame[len..])
    ensures var aad := old(frame[h..len - CHECKSUM]); frame[h..len] == aad + a.seal(iv, aad, []).tag
  {
    var m := len - CHECKSUM;
    var aad := frame[h..m];
    assert SealsAndOpens(a, iv, aad, []) by { var _ := a.seal(iv, aad, []); }
    WriteBytes(frame, m, a.seal(iv, aad, []).tag);
    assert frame[h..m] == aad;
  }

  method EncryptInPlace(a: Aead, frame: array<byte>, len: nat, h: nat, iv: seq<byte>, pattern: seq<byte>)
    requires Contract(a) && |iv| == IV_LEN
    requires h + SECURE_HEADER + |pattern| + CHECKSUM == len <= frame.Length
    modifies frame
    ensures frame[..h] == old(frame[..h]) && frame[len..] == old(frame[len..])
    ensures var aad := old(frame[h..h + SECURE_HEADER]);
      var s := a.seal(iv, aad, pattern); frame[h..len] == aad + s.cipher + s.tag
  {
    var k, m := h + SECURE_HEADER, len - CHECKSUM;
    var aad := frame[h..k];
    assert SealsAndOpens(a, iv, aad, pattern) by { var _ := a.seal(iv, aad, pattern); }
    var s := a.seal(iv, aad, pattern);
    ghost var before, after := frame[..h], frame[len..];
    WriteBytes(frame, k, s.cipher);
    assert frame[..m] == before + aad + s.cipher && frame[len..] == after;
    WriteBytes(frame, m, s.tag);
    assert frame[..len] == before + aad + s.cipher + s.tag;
  }

  /** Store authentication tag or ciphertext and tag: the common end of all protected frames. */
  method ProtectInPlace(c: ClassConfig, a: Aead, frame: array<byte>, len: nat, h: nat, seqNo: nat, pattern: seq<byte>)
    requires Checked(c) && Contract(a)
    requires h <= len <= frame.Length && len - h == TailSize(c)
    requires c.mode.AuthEncrypt? ==> |pattern| == TailSize(c) - SECURE_HEADER - CHECKSUM
    modifies frame
    ensures frame[..h] == old(frame[..h]) && frame[len..] == old(frame[len..])
    ensures frame[h..len] == Protect(c, a, old(frame[h..len]), seqNo, pattern)
  {
    ghost var tail := frame[h..len];
    match c.mode {
      case NoSecurity =>
      case AuthOnly =>
        var iv := PrepareIv(c.ivPrefix, seqNo);
        assert frame[h..len - CHECKSUM] == tail[..|tail| - CHECKSUM];
        AuthenticateInPlace(a, frame, len, h, iv);
      case AuthEncrypt =>
        var iv := PrepareIv(c.ivPrefix, seqNo);
        assert frame[h..h + SECURE_HEADER] == tail[..SECURE_HEADER];
        EncryptInPlace(a, frame, len, h, iv, pattern);
    }
  }

  method StampMetaData(c: ClassConfig, frame: array<byte>, seqNo: nat, ts: nat)
    requires Checked(c) && c.frameLength <= frame.Length
    modifies frame
    ensures frame[..VLAN_ETH_HEADER] == old(frame[..VLAN_ETH_HEADER])
    ensures frame[VLAN_ETH_HEADER..c.frameLength]
         == Splice(old(frame[VLAN_ETH_HEADER..c.frameLength]), MetaAt(c.mode), EncodeMeta(seqNo, c.framesPerCycle, ts))
    ensures frame[c.frameLength..] == old(frame[c.frameLength..])
  {
    var at := VLAN_ETH_HEADER + MetaAt(c.mode);
    ghost var f := frame[..];
    ghost var meta := EncodeMeta(seqNo, c.framesPerCycle, ts);
    SetSequenceCounter(frame, at, seqNo, c.framesPerCycle);
    WriteBytes(frame, at + COUNTERS_SIZE, EncodeTimestamp(ts));
    SpliceTwice(f, at, EncodeCounter(seqNo, c.framesPerCycle), EncodeTimestamp(ts));
    SpliceInTail(f, c.frameLength, VLAN_ETH_HEADER, MetaAt(c.mode), meta);
  }

  lemma SpliceTwice(f: seq<byte>, at: nat, a: seq<byte>, b: seq<byte>)
    requires at + |a| + |b| <= |f|
    ensures Splice(Splice(f, at, a), at + |a|, b) == Splice(f, at, a + b)
  {
  }

  method PrepareFrameForTx(c: ClassConfig, a: Aead, frame: array<byte>, seqNo: nat, ts: nat, pattern: seq<byte>)
    requires Checked(c) && Contract(a) && c.frameLength <= frame.Length
    requires c.mode.AuthEncrypt? ==> |pattern| == TailSize(c) - SECURE_HEADER - CHECKSUM
    modifies frame
    ensures frame[..c.frameLength] == Prepared(c, a, old(frame[..c.frameLength]), seqNo, ts, pattern)
    ensures frame[c.frameLength..] == old(frame[c.frameLength..])
  {
    ghost var f := frame[..c.frameLength];
    assert f[VLAN_ETH_HEADER..] == frame[VLAN_ETH_HEADER..c.frameLength];
    assert f[..VLAN_ETH_HEADER] == frame[..VLAN_ETH_HEADER];
    StampMetaData(c, frame, seqNo, ts);
    ProtectInPlace(c, a, frame, c.frameLength, VLAN_ETH_HEADER, seqNo, pattern);
    assert frame[..c.frameLength] == frame[..VLAN_ETH_HEADER] + frame[VLAN_ETH_HEADER..c.frameLength];
  }

  // ---------- reception ----------

  method ParseHeader(c: ClassConfig, frame: array<byte>, len: nat)
    returns (rejected: Option<Rejection>, h: nat, tagMissing: bool)
    requires Checked(c) && len <= frame.Length
    ensures rejected == Classify(c, frame[..len])
    ensures rejected.None? ==> h == HeaderLength(frame[..len]) && tagMissing == !HasTag(frame[..len])
  {
    h, tagMissing := 0, false;
    if len < VLAN_ETH_HEADER {
      return Some(TooSmall), h, tagMissing;
    }
    ghost var f := frame[..len];
    var expectedLength := c.frameLength;
    if frame[12..14] == BigEndian(ETH_P_8021Q, 2) {
      h := VLAN_ETH_HEADER;
    } else {
      h := ETH_HEADER;
      expectedLength := expectedLength - VLAN_HEADER;
      tagMissing := true;
    }
    assert f[12..14] == frame[12..14] && f[h - 2..h] == frame[h - 2..h];
    if frame[h - 2..h] != BigEndian(ETH_P_PROFINET_RT, 2) {
      return Some(NotProfinet), h, tagMissing;
    }
    if len != expectedLength {
      return Some(WrongLength), h, tagMissing;
    }
    return None, h, tagMissing;
  }

  method RestampInPlace(c: ClassConfig, a: Aead, frame: array<byte>, len: nat, h: nat, seqNo: nat,
                        pattern: seq<byte>, restamp: nat)
    requires Checked(c) && Contract(a)
    requires h <= len <= frame.Length && len - h == TailSize(c)
    requires c.mode.AuthEncrypt? ==> |pattern| == TailSize(c) - SECURE_HEADER - CHECKSUM
    modifies frame
    ensures frame[..h] == old(frame[..h]) && frame[len..] == old(frame[len..])
    ensures frame[h..len] == Protect(c, a, Restamped(c, old(frame[h..len]), restamp), seqNo, pattern)
  {
    ghost var whole := frame[..];
    var stampAt := MetaAt(c.mode) + COUNTERS_SIZE;
    WriteBytes(frame, h + stampAt, EncodeTimestamp(restamp));
    SpliceInTail(whole, len, h, stampAt, EncodeTimestamp(restamp));
    ProtectInPlace(c, a, frame, len, h, seqNo, pattern);
  }

  /** The body of the receiver once the frame is known to be acceptable. */
  method AcceptFrame(c: ClassConfig, a: Aead, frame: array<byte>, len: nat, h: nat, tagMissing: bool,
                     pattern: seq<byte>, restamp: nat)
    returns (r: Received)
    requires Checked(c) && Contract(a) && len <= frame.Length && Classify(c, frame[..len]).None?
    requires h == HeaderLength(frame[..len]) && tagMissing == !HasTag(frame[..len])
    requires c.mode.AuthEncrypt? ==> |pattern| == TailSize(c) - SECURE_HEADER - CHECKSUM
    modifies frame
    ensures r == Report(c, a, old(frame[..len]), pattern, restamp)
    ensures frame[..len] == r.frame && frame[len..] == old(frame[len..])
  {
    ghost var f := frame[..len];
    var tail := frame[h..len];
    assert tail == f[h..] && frame[..h] == f[..h];
    var stampAt := MetaAt(c.mode) + COUNTERS_SIZE;
    var frameId := FromBigEndian(tail[..2]);
    var seqNo := TailCounter(c, tail);
    var txTimestamp := FromBigEndian(tail[stampAt..stampAt + TIMESTAMP_SIZE]);
    var seen := Inspect(c, a, tail);
    RestampInPlace(c, a, frame, len, h, seqNo, pattern, restamp);
    assert frame[..len] == frame[..h] + frame[h..len];
    r := Accepted(tagMissing, seqNo, txTimestamp, seen.authentic,
                  seen.payload[..|c.expected|] != c.expected, frameId != c.frameId, frame[..len]);
  }

  method ReceiveProfinetFrame(c: ClassConfig, a: Aead, frame: array<byte>, len: nat, pattern: seq<byte>, restamp: nat)
    returns (r: Received)
    requires Checked(c) && Contract(a) && len <= frame.Length
    requires c.mode.AuthEncrypt? ==> |pattern| == TailSize(c) - SECURE_HEADER - CHECKSUM
    modifies frame
    ensures r == Receive(c, a, old(frame[..len]), pattern, restamp)
    ensures r.Accepted? ==> frame[..len] == r.frame
    ensures r.Rejected? ==> frame[..] == old(frame[..])
    ensures frame[len..] == old(frame[len..])
  {
    var rejected, h, tagMissing := ParseHeader(c, frame, len);
    if rejected.Some? {
      return Rejected(rejected.value);
    }
    r := AcceptFrame(c, a, frame, len, h, tagMissing, pattern, restamp);
  }
}
