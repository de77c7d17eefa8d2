/** Small helpers shared by all modules, and machine words: fixed-width wrap-around and byte orders. */
module Words {

  datatype Option<T> = None | Some(value: T)

  function Min(a: nat, b: nat): nat
  {
    if a < b then a else b
  }

  function Bit(b: bool): nat
  {
    if b then 1 else 0
  }

  type byte = x: int | 0 <= x < 256

  const TWO16: nat := 0x1_0000
  const TWO32: nat := 0x1_0000_0000
  const TWO48: nat := 0x1_0000_0000_0000
  const TWO64: nat := 0x1_0000_0000_0000_0000

  /** The value an unsigned 64-bit variable holds after `x` is stored in it. */
  function U64(x: int): (r: nat)
    ensures 0 <= x < TWO64 ==> r == x
    ensures r < TWO64
  {
    if 0 <= x < TWO64 then x else x % TWO64
  }

  // ---------- quotient and remainder ----------

  lemma MulNonNegative(a: nat, b: nat)
    ensures 0 <= a * b
  {
  }

  /** A non-zero multiple of `d` is at least `d` away from zero. */
  lemma MultipleOutside(k: int, d: nat)
    requires k != 0
    ensures k * d >= d || k * d + d <= 0
  {
    if k > 0 {
      MulNonNegative(k - 1, d);
      assert k * d == (k - 1) * d + d;
    } else {
      MulNonNegative(-k - 1, d);
      assert (-k - 1) * d == -(k * d) - d;
    }
  }

  /** A decomposition into quotient and remainder is unique. */
  lemma DivModUnique(x: int, d: nat, q: int, r: int)
    requires 0 < d && 0 <= r < d && x == q * d + r
    ensures x / d == q && x % d == r
  {
    var q', r' := x / d, x % d;
    var k := q - q';
    assert k * d == r' - r by {
      assert x == q' * d + r';
      assert k * d == q * d - q' * d;
    }
    if k != 0 {
      MultipleOutside(k, d);
    }
  }

  lemma SplitParts(x: nat, n: nat, m: nat, q: nat, r: nat, qq: nat, qr: nat)
    requires x == q * n + r && r < n
    requires q == qq * m + qr && qr < m
    ensures x == qq * (n * m) + (qr * n + r)
    ensures 0 <= qr * n + r < n * m
  {
    assert x == (qq * m + qr) * n + r;
    MulNonNegative(m - 1 - qr, n);
    MulNonNegative(qr, n);
    assert (m - 1 - qr) * n == n * m - n - qr * n;
  }

  lemma DivModFacts(x: nat, d: nat)
    requires 0 < d
    ensures x == (x / d) * d + x % d && 0 <= x % d < d && 0 <= x / d
  {
  }

  /** Splitting by `n` and keeping the quotient modulo `m` keeps the number modulo `n * m`. */
  lemma SplitModulo(x: nat, n: nat, m: nat)
    requires 0 < n && 0 < m
    ensures 0 < n * m
    ensures (x / n % m) * n + x % n == x % (n * m)
    ensures x / n / m == x / (n * m)
  {
    DivModFacts(x, n);
    DivModFacts(x / n, m);
    SplitParts(x, n, m, x / n, x % n, x / n / m, x / n % m);
    DivModUnique(x, n * m, x / n / m, (x / n % m) * n + x % n);
  }

  /** Two numbers have the same remainder exactly when their difference is a multiple. */
  lemma SameRemainder(x: int, y: int, d: nat)
    requires 0 < d
    ensures x % d == y % d <==> (x - y) % d == 0
  {
    var a, r := x / d, x % d;
    var b, s := y / d, y % d;
    assert x == a * d + r && y == b * d + s;
    assert x - y == (a - b) * d + (r - s);
    if r == s {
      DivModUnique(x - y, d, a - b, 0);
    } else if r > s {
      DivModUnique(x - y, d, a - b, r - s);
    } else {
      assert x - y == (a - b - 1) * d + (d + r - s);
      DivModUnique(x - y, d, a - b - 1, d + r - s);
    }
  }

  // ---------- byte strings ----------

  function Pow256(k: nat): (p: nat)
    ensures p > 0
  {
    if k == 0 then 1 else 256 * Pow256(k - 1)
  }

  /** The `k` low-order bytes of `x`, most significant byte first. */
  function BigEndian(x: nat, k: nat): (b: seq<byte>)
    ensures |b| == k
  {
    if k == 0 then [] else BigEndian(x / 256, k - 1) + [x % 256]
  }

  function FromBigEndian(b: seq<byte>): (x: nat)
  {
    if b == [] then 0 else FromBigEndian(b[..|b| - 1]) * 256 + b[|b| - 1]
  }

  /** The `k` low-order bytes of `x`, least significant byte first. */
  function LittleEndian(x: nat, k: nat): (b: seq<byte>)
    ensures |b| == k
  {
    if k == 0 then [] else [x % 256] + LittleEndian(x / 256, k - 1)
  }

  lemma {:induction false} BigEndianRoundTrip(x: nat, k: nat)
    ensures FromBigEndian(BigEndian(x, k)) == x % Pow256(k)
  {
    if k > 0 {
      var b := BigEndian(x, k);
      assert b[..k - 1] == BigEndian(x / 256, k - 1);
      BigEndianRoundTrip(x / 256, k - 1);
      SplitModulo(x, 256, Pow256(k - 1));
    }
  }

  lemma {:induction false} LittleEndianInjective(x: nat, y: nat, k: nat)
    ensures LittleEndian(x, k) == LittleEndian(y, k) <==> x % Pow256(k) == y % Pow256(k)
  {
    if k > 0 {
      var p := Pow256(k - 1);
      LittleEndianInjective(x / 256, y / 256, k - 1);
      SplitModulo(x, 256, p);
      SplitModulo(y, 256, p);
      var lx, ly := LittleEndian(x, k), LittleEndian(y, k);
      assert lx[0] == x % 256 && lx[1..] == LittleEndian(x / 256, k - 1);
      assert ly[0] == y % 256 && ly[1..] == LittleEndian(y / 256, k - 1);
      if lx == ly {
        assert x / 256 % p == y / 256 % p;
      } else if x % (256 * p) == y % (256 * p) {
        DivModUnique(x % (256 * p), 256, x / 256 % p, x % 256);
        DivModUnique(y % (256 * p), 256, y / 256 % p, y % 256);
      }
    }
  }

  lemma PowersOf256()
    ensures Pow256(2) == TWO16 && Pow256(4) == TWO32 && Pow256(6) == TWO48 && Pow256(8) == TWO64
  {
    assert Pow256(2) == 256 * Pow256(1) == 256 * (256 * Pow256(0));
    assert Pow256(4) == 256 * Pow256(3) == 256 * (256 * Pow256(2));
    assert Pow256(6) == 256 * Pow256(5) == 256 * (256 * Pow256(4));
    assert Pow256(8) == 256 * Pow256(7) == 256 * (256 * Pow256(6));
  }

  // ---------- writing into a byte string ----------

  /** `f` with the bytes `b` stored at offset `off`. */
  function Splice(f: seq<byte>, off: nat, b: seq<byte>): (r: seq<byte>)
    requires off + |b| <= |f|
    ensures |r| == |f|
    ensures r[off..off + |b|] == b
    ensures r[..off] == f[..off] && r[off + |b|..] == f[off + |b|..]
  {
    f[..off] + b + f[off + |b|..]
  }

  // ---------- slices of slices ----------

  lemma InSlice(s: seq<byte>, i: nat, j: nat, k: nat, l: nat)
    requires i <= j <= |s| && k <= l <= j - i
    ensures s[i..j][k..l] == s[i + k..i + l]
  {
    var a, b := s[i..j][k..l], s[i + k..i + l];
    forall x | 0 <= x < |a|
      ensures a[x] == b[x]
    {
      assert a[x] == s[i..j][k + x];
    }
  }

  lemma InPrefix(s: seq<byte>, j: nat, k: nat, l: nat)
    requires k <= l <= j <= |s|
    ensures s[..j][k..l] == s[k..l]
  {
  }

  lemma InSuffix(s: seq<byte>, i: nat, k: nat, l: nat)
    requires k <= l && i + l <= |s|
    ensures s[i..][k..l] == s[i + k..i + l]
  {
    var a, b := s[i..][k..l], s[i + k..i + l];
    forall x | 0 <= x < |a|
      ensures a[x] == b[x]
    {
      assert a[x] == s[i..][k + x];
    }
  }

  lemma ShorterPrefix(s: seq<byte>, j: nat, l: nat)
    requires l <= j <= |s|
    ensures s[..j][..l] == s[..l]
  {
  }

  lemma SpliceBehind(f: seq<byte>, h: nat, at: nat, b: seq<byte>)
    requires h + at + |b| <= |f|
    ensures Splice(f, h + at, b)[h..] == Splice(f[h..], at, b)
  {
    var front, rest := f[..h + at], f[h + at + |b|..];
    assert front[h..] == f[h..][..at];
    assert f[h..][at + |b|..] == rest;
    assert (front + b + rest)[h..] == front[h..] + b + rest;
  }

  method WriteBytes(a: array<byte>, off: nat, b: seq<byte>)
    requires off + |b| <= a.Length
    modifies a
    ensures a[..] == Splice(old(a[..]), off, b)
  {
    forall i | 0 <= i < |b| { a[off + i] := b[i]; }
  }
}
