/**
 Ethernet frame rewriting at the mirror: VLAN tag insertion (clause 9.6 of IEEE 802.1Q), MAC
 address swap, and the two implementations of "turn a received frame into a frame to send".
 */
module Frames {
  import opened Words
  import opened MetaData

  const ETH_ALEN: nat := 6
  const ETH_HEADER: nat := 14
  const VLAN_HEADER: nat := 4
  const VLAN_ETH_HEADER: nat := 18
  const FRAME_SIZE: nat := 4096

  const ETH_P_8021Q: nat := 0x8100
  const ETH_P_PROFINET_RT: nat := 0x8892

  /** The tag, tag control information and encapsulated EtherType, as six bytes on the wire. */
  function TagBytes(etherType: nat, tci: nat): (b: seq<byte>)
    ensures |b| == 6
  {
    BigEndian(ETH_P_8021Q, 2) + BigEndian(tci, 2) + BigEndian(etherType, 2)
  }

  lemma TagFields(f: seq<byte>, etherType: nat, tci: nat)
    requires |f| >= VLAN_ETH_HEADER && f[12..VLAN_ETH_HEADER] == TagBytes(etherType, tci)
    ensures f[12..14] == BigEndian(ETH_P_8021Q, 2) && f[16..18] == BigEndian(etherType, 2)
  {
    var proto, control, encapsulated := BigEndian(ETH_P_8021Q, 2), BigEndian(tci, 2), BigEndian(etherType, 2);
    assert f[12..18] == proto + control + encapsulated;
    assert f[12..14] == f[12..18][..2] && f[16..18] == f[12..18][4..];
  }

  lemma StrippedFields(f: seq<byte>)
    requires |f| >= VLAN_ETH_HEADER
    ensures Stripped(f)[12..14] == f[16..18] && Stripped(f)[..12] == f[..12]
  {
    assert f[16..][..2] == f[16..18];
  }

  /** An untagged frame with a tag inserted behind the addresses. */
  function Tagged(f: seq<byte>, etherType: nat, tci: nat): (r: seq<byte>)
    requires |f| >= ETH_HEADER
    ensures |r| == |f| + VLAN_HEADER
    ensures r[VLAN_ETH_HEADER..] == f[ETH_HEADER..]
  {
    f[..12] + TagBytes(etherType, tci) + f[ETH_HEADER..]
  }

  /** What a NIC with VLAN offload hands over: the four tag bytes are gone. */
  function Stripped(f: seq<byte>): (r: seq<byte>)
    requires |f| >= VLAN_ETH_HEADER
    ensures |r| == |f| - VLAN_HEADER
    ensures r[ETH_HEADER..] == f[VLAN_ETH_HEADER..]
  {
    f[..12] + f[16..]
  }

  function Swapped(f: seq<byte>): (r: seq<byte>)
    requires |f| >= 12
    ensures |r| == |f| && r[12..] == f[12..]
  {
    f[6..12] + f[..6] + f[12..]
  }

  /** The frame to send, described field by field: source and destination exchanged, tag, payload. */
  function Mirrored(f: seq<byte>, etherType: nat, tci: nat): (r: seq<byte>)
    requires |f| >= ETH_HEADER
    ensures |r| == |f| + VLAN_HEADER
  {
    f[6..12] + f[..6] + TagBytes(etherType, tci) + f[ETH_HEADER..]
  }

  // ---------- the in-place path ----------

  /**
   memmove(buffer + 16, buffer + 12, len - 12): the regions overlap, so the copy runs backwards.
   */
  method MakeRoom(buffer: array<byte>, len: nat)
    requires 12 <= len && len + VLAN_HEADER <= buffer.Length
    modifies buffer
    ensures buffer[..12] == old(buffer[..12])
    ensures buffer[16..len + 4] == old(buffer[12..len])
    ensures buffer[len + 4..] == old(buffer[len + 4..])
  {
    var i := len;
    while i > 12
      invariant 12 <= i <= len
      invariant forall k :: 0 <= k < i ==> buffer[k] == old(buffer[k])
      invariant forall k :: i <= k < len ==> buffer[k + 4] == old(buffer[k])
      invariant forall k :: len + 4 <= k < buffer.Length ==> buffer[k] == old(buffer[k])
    {
      i := i - 1;
      buffer[i + 4] := buffer[i];
    }
    forall k | 16 <= k < len + 4
      ensures buffer[k] == old(buffer[k - 4])
    {
      assert buffer[(k - 4) + 4] == old(buffer[k - 4]);
    }
  }

  method InsertVlanTag(buffer: array<byte>, len: nat, etherType: nat, tci: nat)
    requires ETH_HEADER <= len <= buffer.Length
    requires len + VLAN_HEADER <= FRAME_SIZE ==> len + VLAN_HEADER <= buffer.Length
    modifies buffer
    ensures len + VLAN_HEADER > FRAME_SIZE ==> buffer[..] == old(buffer[..])
    ensures len + VLAN_HEADER <= FRAME_SIZE ==>
              && buffer[..len + 4] == Tagged(old(buffer[..len]), etherType, tci)
              && buffer[len + 4..] == old(buffer[len + 4..])
  {
    if len + VLAN_HEADER > FRAME_SIZE {
      return;
    }
    ghost var f := buffer[..len];
    ghost var rest := buffer[len + 4..];
    MakeRoom(buffer, len);
    assert buffer[..12] == f[..12];
    assert buffer[18..] == f[14..] + rest by {
      assert buffer[16..len + 4] == f[12..];
      assert buffer[18..len + 4] == buffer[16..len + 4][2..];
      assert f[12..][2..] == f[14..];
      assert buffer[18..] == buffer[18..len + 4] + buffer[len + 4..];
    }
    WriteTag(buffer, etherType, tci);
    assert buffer[..] == Tagged(f, etherType, tci) + rest;
  }

  method WriteTag(frame: array<byte>, etherType: nat, tci: nat)
    requires frame.Length >= VLAN_ETH_HEADER
    modifies frame
    ensures frame[..] == old(frame[..12]) + TagBytes(etherType, tci) + old(frame[18..])
  {
    ghost var a, b := frame[..12], frame[18..];
    WriteBytes(frame, 16, BigEndian(etherType, 2));
    assert frame[..12] == a && frame[16..] == BigEndian(etherType, 2) + b;
    WriteBytes(frame, 12, BigEndian(ETH_P_8021Q, 2));
    assert frame[..14] == a + BigEndian(ETH_P_8021Q, 2) && frame[16..] == BigEndian(etherType, 2) + b;
    WriteBytes(frame, 14, BigEndian(tci, 2));
    assert frame[..] == frame[..14] + frame[14..16] + frame[16..];
  }

  method SwapMacAddresses(buffer: array<byte>, len: nat)
    requires len <= buffer.Length
    modifies buffer
    ensures len < ETH_HEADER ==> buffer[..] == old(buffer[..])
    ensures len >= ETH_HEADER ==> buffer[..] == Swapped(old(buffer[..]))
  {
    if len < ETH_HEADER {
      return;
    }
    var tmp := buffer[6..12];
    WriteBytes(buffer, 6, buffer[..6]);
    WriteBytes(buffer, 0, tmp);
    assert buffer[..] == Swapped(old(buffer[..]));
  }

  /** The AF_XDP mirror: rewrite the received frame where it lies. */
  method MirrorInPlace(buffer: array<byte>, len: nat, tagMissing: bool, etherType: nat, tci: nat)
    requires VLAN_ETH_HEADER <= len <= buffer.Length
    requires len + VLAN_HEADER <= FRAME_SIZE ==> len + VLAN_HEADER <= buffer.Length
    modifies buffer
    ensures tagMissing && len + VLAN_HEADER <= FRAME_SIZE ==>
              buffer[..len + 4] == Mirrored(old(buffer[..len]), etherType, tci)
    ensures !tagMissing || len + VLAN_HEADER > FRAME_SIZE ==> buffer[..] == Swapped(old(buffer[..]))
  {
    ghost var f := buffer[..len];
    if tagMissing {
      InsertVlanTag(buffer, len, etherType, tci);
    }
    ghost var g := buffer[..];
    SwapMacAddresses(buffer, len);
    if tagMissing && len + VLAN_HEADER <= FRAME_SIZE {
      assert g[..len + 4] == Tagged(f, etherType, tci);
      assert buffer[..len + 4] == Swapped(g[..len + 4]);
      InPlaceEqualsCopy(f, etherType, tci);
    }
  }

  // ---------- the copy path ----------

  method WriteMirroredHeader(frame: array<byte>, dst: seq<byte>, src: seq<byte>, etherType: nat, tci: nat)
    requires |dst| == |src| == ETH_ALEN && frame.Length >= VLAN_ETH_HEADER
    modifies frame
    ensures frame[..] == src + dst + TagBytes(etherType, tci) + old(frame[18..])
  {
    ghost var body := frame[18..];
    WriteBytes(frame, 0, src);
    WriteBytes(frame, 6, dst);
    assert frame[..12] == src + dst && frame[18..] == body;
    WriteTag(frame, etherType, tci);
  }

  /** The AF_PACKET mirror: assemble a new frame from the received one. */
  method BuildVlanFrameFromRx(oldFrame: array<byte>, oldLen: nat, newFrame: array<byte>,
                              etherType: nat, tci: nat)
    requires oldFrame != newFrame
    requires ETH_HEADER <= oldLen <= oldFrame.Length
    modifies newFrame
    ensures newFrame.Length < oldLen + VLAN_HEADER ==> newFrame[..] == old(newFrame[..])
    ensures newFrame.Length >= oldLen + VLAN_HEADER ==>
              && newFrame[..oldLen + 4] == Mirrored(oldFrame[..oldLen], etherType, tci)
              && newFrame[oldLen + 4..] == old(newFrame[oldLen + 4..])
  {
    if newFrame.Length < oldLen + VLAN_HEADER {
      return;
    }
    ghost var f := oldFrame[..oldLen];
    ghost var rest := newFrame[oldLen + 4..];
    WriteBytes(newFrame, 16, oldFrame[12..oldLen]);
    DropTwoMore(newFrame[..], f[12..], rest);
    WriteMirroredHeader(newFrame, oldFrame[..6], oldFrame[6..12], etherType, tci);
    ghost var header := f[6..12] + f[..6] + TagBytes(etherType, tci);
    assert oldFrame[6..12] == f[6..12] && oldFrame[..6] == f[..6] && f[12..][2..] == f[14..];
    assert newFrame[..] == header + (f[14..] + rest);
    Assembled(header, f[14..], rest);
    assert newFrame[..oldLen + 4] == newFrame[..][..|header| + |f[14..]|];
    assert newFrame[oldLen + 4..] == newFrame[..][|header| + |f[14..]|..];
  }

  lemma DropTwoMore(frame: seq<byte>, body: seq<byte>, rest: seq<byte>)
    requires |frame| >= 18 && |body| >= 2 && frame[16..] == body + rest
    ensures frame[18..] == body[2..] + rest
  {
    assert frame[18..] == frame[16..][2..];
  }

  lemma Assembled(header: seq<byte>, body: seq<byte>, rest: seq<byte>)
    ensures var frame := header + (body + rest);
      frame[..|header| + |body|] == header + body && frame[|header| + |body|..] == rest
  {
    assert header + (body + rest) == (header + body) + rest;
  }

  // ---------- what both promise ----------

  /** Tagging in place and then swapping gives byte for byte the frame the copy path builds. */
  lemma InPlaceEqualsCopy(f: seq<byte>, etherType: nat, tci: nat)
    requires |f| >= ETH_HEADER
    ensures Swapped(Tagged(f, etherType, tci)) == Mirrored(f, etherType, tci)
  {
    var t := Tagged(f, etherType, tci);
    assert t[..6] == f[..6] && t[6..12] == f[6..12];
    assert t[12..] == TagBytes(etherType, tci) + f[ETH_HEADER..];
  }

  /** Stripping undoes tagging, for the frames whose EtherType is the one written into the tag. */
  lemma StripTagged(f: seq<byte>, etherType: nat, tci: nat)
    requires |f| >= ETH_HEADER
    ensures Stripped(Tagged(f, etherType, tci)) == f <==> f[12..14] == BigEndian(etherType, 2)
  {
    var t, e := Tagged(f, etherType, tci), BigEndian(etherType, 2);
    assert t[..12] == f[..12] && t[16..] == e + f[14..];
    var s := Stripped(t);
    assert s == f[..12] + e + f[14..];
    assert s[12..14] == e;
    assert f == f[..12] + f[12..14] + f[14..];
  }

  /** Mirroring twice restores the addresses and keeps everything behind the header. */
  lemma MirrorTwice(f: seq<byte>, etherType: nat, tci: nat)
    requires |f| >= ETH_HEADER && f[12..14] == BigEndian(etherType, 2)
    ensures Mirrored(Stripped(Mirrored(f, etherType, tci)), etherType, tci) == Tagged(f, etherType, tci)
  {
    var m := Mirrored(f, etherType, tci);
    assert m[..12] == f[6..12] + f[..6];
    assert m[16..] == BigEndian(etherType, 2) + f[14..];
    var s := Stripped(m);
    assert s[..6] == f[6..12] && s[6..12] == f[..6] && s[14..] == f[14..];
  }

  // ---------- where the meta data lies ----------

  datatype Mode = NoSecurity | AuthOnly | AuthEncrypt

  datatype FrameType = TsnHigh | TsnLow | Rtc | Rta | Dcp | Lldp | UdpHigh | UdpLow | GenericL2

  predicate IsProfinet(t: FrameType)
  {
    t.TsnHigh? || t.TsnLow? || t.Rtc? || t.Rta? || t.Dcp?
  }

  /** Offset of the PROFINET meta data behind the Ethernet header. */
  function MetaAt(mode: Mode): nat
  {
    if mode.NoSecurity? then 2 else 10
  }

  /** get_meta_data_offset: used on frames that carry their tag. */
  function MetaDataOffset(t: FrameType, mode: Mode): nat
  {
    match t
    case TsnHigh | TsnLow | Rtc | Rta | Dcp => VLAN_ETH_HEADER + MetaAt(mode)
    case Lldp => ETH_HEADER
    case UdpHigh | UdpLow => 0
    case GenericL2 => VLAN_ETH_HEADER
  }

  /** Frames that are sent with an Ethernet header of their own; UDP payloads get theirs from the kernel. */
  predicate HasEthernetHeader(t: FrameType)
  {
    !t.UdpHigh? && !t.UdpLow?
  }

  predicate HasVlanTag(t: FrameType)
  {
    IsProfinet(t) || t.GenericL2?
  }

  /** The offset counts the headers that precede the meta data, whatever the type of the frame. */
  lemma OffsetCountsHeaders(t: FrameType, mode: Mode)
    ensures MetaDataOffset(t, mode) ==
      (if HasEthernetHeader(t) then 2 * ETH_ALEN + 2 else 0)
      + (if HasVlanTag(t) then VLAN_HEADER else 0)
      + (if IsProfinet(t) then 2 + (if mode == NoSecurity then 0 else 8) else 0)
  {
  }

  /** Where the PROFINET receiver finds the meta data after it has walked over the headers. */
  function ParsedMetaOffset(tagMissing: bool, mode: Mode): nat
  {
    (if tagMissing then ETH_HEADER else VLAN_ETH_HEADER) + MetaAt(mode)
  }

  /**
   The counter read at the fixed offset of the frame to be sent is the one decoded from the
   stripped frame that was received.
   */
  lemma MirroredCounter(f: seq<byte>, t: FrameType, mode: Mode, etherType: nat, tci: nat, n: nat)
    requires IsProfinet(t)
    requires ParsedMetaOffset(true, mode) + META_SIZE <= |f|
    ensures GetSequenceCounter(Mirrored(f, etherType, tci), MetaDataOffset(t, mode), n)
         == GetSequenceCounter(f, ParsedMetaOffset(true, mode), n)
    ensures GetSequenceCounter(Swapped(f), ParsedMetaOffset(true, mode), n)
         == GetSequenceCounter(f, ParsedMetaOffset(true, mode), n)
  {
    var m := Mirrored(f, etherType, tci);
    var o := ParsedMetaOffset(true, mode);
    assert m[18..] == f[14..];
    assert m[o + 4..o + 12] == m[18..][o - 14..o - 6] == f[14..][o - 14..o - 6] == f[o..o + 8];
    assert Swapped(f)[o..o + 8] == Swapped(f)[12..][o - 12..o - 4] == f[12..][o - 12..o - 4] == f[o..o + 8];
  }
}
