/**
 The reference meta data carried by every test frame (frame counter, cycle counter and Tx
 timestamp, all big-endian) and the initialization vector derived from the sequence counter.
 */
module MetaData {
  import opened Words

  const COUNTERS_SIZE: nat := 8
  const TIMESTAMP_SIZE: nat := 8
  const META_SIZE: nat := COUNTERS_SIZE + TIMESTAMP_SIZE

  /** frame_counter then cycle_counter; each store keeps the low 32 bits only. */
  function EncodeCounter(seqNo: nat, n: nat): (b: seq<byte>)
    requires 0 < n
    ensures |b| == COUNTERS_SIZE
  {
    BigEndian(seqNo % n, 4) + BigEndian(seqNo / n, 4)
  }

  /** cycle_counter * n + frame_counter in 64-bit arithmetic. */
  function DecodeCounter(b: seq<byte>, n: nat): (r: nat)
    requires |b| == COUNTERS_SIZE
  {
    U64(FromBigEndian(b[4..8]) * n + FromBigEndian(b[0..4]))
  }

  function EncodeTimestamp(ts: nat): (b: seq<byte>)
    ensures |b| == TIMESTAMP_SIZE
  {
    BigEndian(ts, 8)
  }

  function EncodeMeta(seqNo: nat, n: nat, ts: nat): (b: seq<byte>)
    requires 0 < n
    ensures |b| == META_SIZE
    ensures b[..COUNTERS_SIZE] == EncodeCounter(seqNo, n) && b[COUNTERS_SIZE..] == EncodeTimestamp(ts)
  {
    EncodeCounter(seqNo, n) + EncodeTimestamp(ts)
  }

  function GetSequenceCounter(f: seq<byte>, off: nat, n: nat): (r: nat)
    requires off + COUNTERS_SIZE <= |f|
  {
    DecodeCounter(f[off..off + COUNTERS_SIZE], n)
  }

  method SetSequenceCounter(f: array<byte>, off: nat, seqNo: nat, n: nat)
    requires off + COUNTERS_SIZE <= f.Length && 0 < n <= TWO32
    modifies f
    ensures f[..] == Splice(old(f[..]), off, EncodeCounter(seqNo, n))
    ensures GetSequenceCounter(f[..], off, n) == seqNo % (n * TWO32)
  {
    WriteBytes(f, off, BigEndian(seqNo % n, 4));
    WriteBytes(f, off + 4, BigEndian(seqNo / n, 4));
    assert f[..] == Splice(old(f[..]), off, EncodeCounter(seqNo, n));
    CounterRoundTrip(seqNo, n);
  }

  /**
   The counter comes back modulo `n * 2^32`, so it comes back unchanged exactly during the
   first 2^32 cycles.
   */
  lemma CounterRoundTrip(seqNo: nat, n: nat)
    requires 0 < n <= TWO32
    ensures DecodeCounter(EncodeCounter(seqNo, n), n) == seqNo % (n * TWO32)
    ensures DecodeCounter(EncodeCounter(seqNo, n), n) == seqNo <==> seqNo / n < TWO32
  {
    CounterArithmetic(seqNo, n);
    DecodeParts(seqNo % n, seqNo / n, n, seqNo / n % TWO32, seqNo % (n * TWO32));
  }

  lemma DecodeParts(fc: nat, cc: nat, n: nat, c: nat, v: nat)
    requires fc < TWO32 && c == cc % TWO32 && c * n + fc == v < TWO64
    ensures DecodeCounter(BigEndian(fc, 4) + BigEndian(cc, 4), n) == v
  {
    var b := BigEndian(fc, 4) + BigEndian(cc, 4);
    CounterBytes(fc, cc);
    BelowIsOwnRemainder(fc, TWO32);
    assert FromBigEndian(b[0..4]) == fc && FromBigEndian(b[4..8]) == c;
    DecodeBytes(b, fc, c, n, v);
  }

  lemma DecodeBytes(b: seq<byte>, fc: nat, cc: nat, n: nat, v: nat)
    requires |b| == COUNTERS_SIZE && FromBigEndian(b[0..4]) == fc && FromBigEndian(b[4..8]) == cc
    requires cc * n + fc == v < TWO64
    ensures DecodeCounter(b, n) == v
  {
  }

  lemma CounterBytes(fc: nat, cc: nat)
    ensures FromBigEndian((BigEndian(fc, 4) + BigEndian(cc, 4))[0..4]) == fc % TWO32
    ensures FromBigEndian((BigEndian(fc, 4) + BigEndian(cc, 4))[4..8]) == cc % TWO32
  {
    var b := BigEndian(fc, 4) + BigEndian(cc, 4);
    assert b[0..4] == BigEndian(fc, 4) && b[4..8] == BigEndian(cc, 4);
    BigEndianRoundTrip(fc, 4);
    BigEndianRoundTrip(cc, 4);
    PowersOf256();
  }

  /** On the wire: the frame's position in its cycle, then the cycle, each as a 32-bit number. */
  lemma CounterLayout(seqNo: nat, n: nat)
    requires 0 < n <= TWO32
    ensures FromBigEndian(EncodeCounter(seqNo, n)[0..4]) == seqNo % n
    ensures FromBigEndian(EncodeCounter(seqNo, n)[4..8]) == seqNo / n % TWO32
  {
    CounterBytes(seqNo % n, seqNo / n);
    DivModFacts(seqNo, n);
    BelowIsOwnRemainder(seqNo % n, TWO32);
  }

  /** The arithmetic of the codec: no 64-bit wrap-around, and exact for the first 2^32 cycles. */
  lemma CounterArithmetic(seqNo: nat, n: nat)
    requires 0 < n <= TWO32
    ensures (seqNo / n % TWO32) * n + seqNo % n == seqNo % (n * TWO32) < TWO64
    ensures seqNo % n < TWO32
    ensures seqNo % (n * TWO32) == seqNo <==> seqNo / n < TWO32
  {
    SplitModulo(seqNo, n, TWO32);
    DivModFacts(seqNo, n);
    DivModFacts(seqNo, n * TWO32);
    BelowProduct(seqNo, n, TWO32, seqNo / n, seqNo % n);
    BelowIsOwnRemainder(seqNo, n * TWO32);
  }

  lemma BelowProduct(x: nat, n: nat, m: nat, q: nat, r: nat)
    requires x == q * n + r && r < n
    ensures x < n * m <==> q < m
  {
    if q < m {
      MulNonNegative(m - 1 - q, n);
      assert (m - 1 - q) * n == n * m - n - q * n;
    } else {
      MulNonNegative(q - m, n);
      assert (q - m) * n == q * n - n * m;
    }
  }

  lemma BelowIsOwnRemainder(x: nat, d: nat)
    requires 0 < d
    ensures x % d == x <==> x < d
  {
  }

  lemma {:induction false} TimestampRoundTrip(ts: nat)
    ensures FromBigEndian(EncodeTimestamp(ts)) == ts % TWO64
  {
    BigEndianRoundTrip(ts, 8);
    PowersOf256();
  }

  // ---------- initialization vectors ----------

  const IV_PREFIX_LEN: nat := 6
  const IV_LEN: nat := 12

  /** The packed struct holds six prefix bytes and eight counter bytes; the cipher reads the first twelve. */
  function PrepareIv(prefix: seq<byte>, seqNo: nat): (iv: seq<byte>)
    requires |prefix| == IV_PREFIX_LEN
    ensures |iv| == IV_LEN
  {
    (prefix + LittleEndian(seqNo, 8))[..IV_LEN]
  }

  /** Byte by byte: the prefix, then the low six bytes of the counter, least significant first. */
  lemma {:induction false} IvBytes(prefix: seq<byte>, seqNo: nat, i: nat)
    requires |prefix| == IV_PREFIX_LEN && i < 6
    ensures PrepareIv(prefix, seqNo)[i] == prefix[i]
    ensures Pow256(i) > 0 && PrepareIv(prefix, seqNo)[6 + i] == seqNo / Pow256(i) % 256
  {
    LittleEndianAt(seqNo, 8, i);
  }

  lemma {:induction false} LittleEndianAt(x: nat, k: nat, i: nat)
    requires i < k
    ensures Pow256(i) > 0 && LittleEndian(x, k)[i] == x / Pow256(i) % 256
  {
    if i > 0 {
      LittleEndianAt(x / 256, k - 1, i - 1);
      DivideTwice(x, 256, Pow256(i - 1));
    }
  }

  lemma DivideTwice(x: nat, a: nat, b: nat)
    requires 0 < a && 0 < b
    ensures a * b > 0 && x / a / b == x / (a * b)
  {
    DivModFacts(x, a);
    DivModFacts(x / a, b);
    DivideParts(x, a, b, x / a, x % a, x / a / b, x / a % b);
  }

  lemma DivideParts(x: nat, a: nat, b: nat, y: nat, s: nat, q: nat, r: nat)
    requires s < a && r < b && x == y * a + s && y == q * b + r
    ensures a * b > 0 && x / (a * b) == q
  {
    ProductPositive(a, b);
    RemainderBelow(a, b, r, s);
    Regrouped(q, b, r, a);
    DivModUnique(x, a * b, q, r * a + s);
  }

  lemma ProductPositive(a: nat, b: nat)
    requires 0 < a && 0 < b
    ensures a * b > 0
  {
    MulNonNegative(a - 1, b - 1);
    assert (a - 1) * (b - 1) == a * b - a - b + 1;
  }

  lemma RemainderBelow(a: nat, b: nat, r: nat, s: nat)
    requires s < a && r < b
    ensures 0 <= r * a + s < a * b
  {
    MulNonNegative(r, a);
    MulNonNegative(b - 1 - r, a);
    assert (b - 1 - r) * a == b * a - a - r * a;
  }

  lemma Regrouped(q: nat, b: nat, r: nat, a: nat)
    ensures (q * b + r) * a == q * (a * b) + r * a
  {
  }

  lemma {:induction false} LittleEndianPrefix(x: nat, j: nat, k: nat)
    requires j <= k
    ensures LittleEndian(x, k)[..j] == LittleEndian(x, j)
  {
    if j > 0 {
      LittleEndianPrefix(x / 256, j - 1, k - 1);
    }
  }

  /** Two counters share an initialization vector exactly when they agree modulo 2^48. */
  lemma IvInjective(prefix: seq<byte>, a: nat, b: nat)
    requires |prefix| == IV_PREFIX_LEN
    ensures PrepareIv(prefix, a) == PrepareIv(prefix, b) <==> a % TWO48 == b % TWO48
  {
    LittleEndianPrefix(a, 6, 8);
    LittleEndianPrefix(b, 6, 8);
    LittleEndianInjective(a, b, 6);
    PowersOf256();
    var ia, ib := PrepareIv(prefix, a), PrepareIv(prefix, b);
    assert ia == prefix + LittleEndian(a, 6) && ib == prefix + LittleEndian(b, 6);
    assert ia[6..] == LittleEndian(a, 6) && ib[6..] == LittleEndian(b, 6);
  }

  /**
   The sender derives the vector from its 64-bit counter and the receiver from the decoded one.
   They agree exactly when the completed 2^32-cycle rounds contribute a multiple of 2^16 per frame.
   */
  lemma SenderReceiverIvAgree(prefix: seq<byte>, seqNo: nat, n: nat)
    requires |prefix| == IV_PREFIX_LEN && 0 < n <= TWO32
    ensures 0 < n * TWO32
    ensures PrepareIv(prefix, seqNo) == PrepareIv(prefix, DecodeCounter(EncodeCounter(seqNo, n), n))
       <==> (seqNo / (n * TWO32)) * n % TWO16 == 0
    ensures seqNo / n < TWO32 ==> (seqNo / (n * TWO32)) * n % TWO16 == 0
  {
    var d := DecodeCounter(EncodeCounter(seqNo, n), n);
    CounterRoundTrip(seqNo, n);
    IvInjective(prefix, seqNo, d);
    RoundsModulo(seqNo, n);
  }

  /** The first frame for which they differ, with one frame per cycle: number 2^32. */
  lemma IvsDiffer(prefix: seq<byte>)
    requires |prefix| == IV_PREFIX_LEN
    ensures PrepareIv(prefix, TWO32) != PrepareIv(prefix, DecodeCounter(EncodeCounter(TWO32, 1), 1))
  {
    SenderReceiverIvAgree(prefix, TWO32, 1);
    assert TWO32 / (1 * TWO32) == 1;
  }

  lemma RoundsModulo(seqNo: nat, n: nat)
    requires 0 < n
    ensures 0 < n * TWO32
    ensures seqNo % TWO48 == (seqNo % (n * TWO32)) % TWO48 <==> (seqNo / (n * TWO32)) * n % TWO16 == 0
    ensures seqNo / n < TWO32 ==> (seqNo / (n * TWO32)) * n % TWO16 == 0
  {
    SplitModulo(seqNo, n, TWO32);
    DivModFacts(seqNo, n * TWO32);
    RoundsParts(seqNo, n, seqNo / (n * TWO32), seqNo % (n * TWO32));
  }

  lemma RoundsParts(seqNo: nat, n: nat, rounds: nat, d: nat)
    requires seqNo == rounds * (n * TWO32) + d
    ensures seqNo % TWO48 == d % TWO48 <==> rounds * n % TWO16 == 0
    ensures rounds == 0 ==> rounds * n % TWO16 == 0
  {
    MulNonNegative(rounds, n);
    assert seqNo - d == (rounds * n) * TWO32;
    SameRemainder(seqNo, d, TWO48);
    ShiftedMultiple(rounds * n);
  }

  lemma ShiftedMultiple(y: nat)
    ensures y * TWO32 % TWO48 == 0 <==> y % TWO16 == 0
  {
    var a, b := y / TWO16, y % TWO16;
    DivModUnique(y * TWO32, TWO48, a, b * TWO32);
  }
}
