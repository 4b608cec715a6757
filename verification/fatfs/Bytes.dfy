/** Bytes, 512-byte sectors, little-endian words and the unsigned arithmetic of the C code. */
module Bytes {

  type Byte = b: int | 0 <= b < 256

  type Sector = s: seq<Byte> | |s| == 512 witness seq(512, i => 0)

  /** A disk, or the part of it from sector 0 on. */
  type Image = seq<Sector>

  const DWORD: nat := 0x1_0000_0000

  type Dword = d: nat | d < DWORD

  const NO_COUNT: nat := 0xFFFF_FFFF

  /** `a - b` on 32-bit unsigned values. */
  function Sub32(a: int, b: int): (r: nat)
  {
    (a - b) % DWORD
  }

  function Min(a: int, b: int): int { if a < b then a else b }

  function Max(a: int, b: int): int { if a < b then b else a }

  /** `s` with `bytes` copied over it from `off` on: what a memory copy into a buffer does. */
  function Splice(s: seq<Byte>, off: nat, bytes: seq<Byte>): (r: seq<Byte>)
    requires off + |bytes| <= |s|
    ensures |r| == |s|
    ensures forall i :: 0 <= i < |s| ==> r[i] == if off <= i < off + |bytes| then bytes[i - off] else s[i]
  {
    s[..off] + bytes + s[off + |bytes|..]
  }

  lemma SpliceInside(s: seq<Byte>, at: nat, x: seq<Byte>, i: nat, w: seq<Byte>)
    requires at + |x| <= |s| && i + |w| <= |x|
    ensures Splice(Splice(s, at, x), at + i, w) == Splice(s, at, Splice(x, i, w))
  {
  }

  lemma SpliceWhole(s: seq<Byte>, w: seq<Byte>)
    requires |w| == |s|
    ensures Splice(s, 0, w) == w
  {
  }

  /** An unsigned difference is below `n` only when it did not wrap, as long as `b + n` does not either. */
  lemma Sub32Below(a: nat, b: nat, n: nat)
    requires a < DWORD && b + n <= DWORD
    ensures Sub32(a, b) < n <==> b <= a < b + n
    ensures b <= a ==> Sub32(a, b) == a - b
  {
    if b <= a { DivModUnique(a - b, DWORD, 0, a - b); } else if b < DWORD { DivModUnique(a - b, DWORD, -1, a - b + DWORD); }
  }

  function LdWord(s: seq<Byte>, i: nat): (r: nat)
    requires i + 2 <= |s|
    ensures r < 0x1_0000
  {
    s[i] as int + 0x100 * s[i + 1] as int
  }

  function LdDword(s: seq<Byte>, i: nat): (r: nat)
    requires i + 4 <= |s|
    ensures r < DWORD
  {
    LdWord(s, i) + 0x1_0000 * LdWord(s, i + 2)
  }

  /** The two bytes a word store puts down; only the low 16 bits of the value survive. */
  function StWord(v: nat): (r: seq<Byte>)
    ensures |r| == 2 && LdWord(r, 0) == v % 0x1_0000
  {
    [v % 0x100, v / 0x100 % 0x100]
  }

  function StDword(v: nat): (r: seq<Byte>)
    ensures |r| == 4 && LdDword(r, 0) == v % DWORD
  {
    var r := [v % 0x100, v / 0x100 % 0x100, v / 0x1_0000 % 0x100, v / 0x100_0000 % 0x100];
    assert v / 0x1_0000 == v / 0x100 / 0x100 && v / 0x100_0000 == v / 0x1_0000 / 0x100;
    r
  }

  /** A sector with a few bytes stored at offset `i`. */
  function PutAt(s: Sector, i: nat, b: seq<Byte>): (r: Sector)
    requires i + |b| <= 512
  {
    Splice(s, i, b)
  }

  /** The bytes from `lo` to `hi` may differ, no others do. */
  ghost predicate KeptOutside(s: Sector, r: Sector, lo: nat, hi: nat)
  {
    forall i :: 0 <= i < 512 && !(lo <= i < hi) ==> r[i] == s[i]
  }

  /** A stored word reads back, and words and double words elsewhere stay. */
  lemma WordPut(s: Sector, i: nat, v: nat, k: nat)
    requires i + 2 <= 512 && k + 2 <= 512
    ensures LdWord(PutAt(s, i, StWord(v)), i) == v % 0x1_0000
    ensures k + 2 <= i || i + 2 <= k ==> LdWord(PutAt(s, i, StWord(v)), k) == LdWord(s, k)
    ensures k + 4 <= 512 && (k + 4 <= i || i + 2 <= k) ==> LdDword(PutAt(s, i, StWord(v)), k) == LdDword(s, k)
  {
    hide StWord;
    assert LdWord(StWord(v), 0) == v % 0x1_0000;
  }

  lemma DwordPut(s: Sector, i: nat, v: nat, k: nat)
    requires i + 4 <= 512 && v < DWORD && k + 2 <= 512
    ensures LdDword(PutAt(s, i, StDword(v)), i) == v
    ensures k + 2 <= i || i + 4 <= k ==> LdWord(PutAt(s, i, StDword(v)), k) == LdWord(s, k)
    ensures k + 4 <= 512 && (k + 4 <= i || i + 4 <= k) ==> LdDword(PutAt(s, i, StDword(v)), k) == LdDword(s, k)
  {
    hide StDword;
    assert LdDword(StDword(v), 0) == v % DWORD == v;
  }

  /** Bitwise AND of two unsigned values, by their binary digits. */
  function And(a: nat, b: nat): (r: nat)
    decreases a
  {
    if a == 0 then 0 else (a % 2) * (b % 2) + 2 * And(a / 2, b / 2)
  }

  /** The cluster sizes the format allows: the mask arithmetic of the driver needs a power of two. */
  predicate PowerOfTwo(n: nat)
    decreases n
  {
    n == 1 || (n > 1 && n % 2 == 0 && PowerOfTwo(n / 2))
  }

  /** Masking with `m - 1` takes the remainder, exactly because `m` is a power of two. */
  lemma {:induction false} MaskIsRemainder(x: nat, m: nat)
    requires PowerOfTwo(m)
    ensures And(x, m - 1) == x % m
    decreases x
  {
    if x == 0 {
    } else if m == 1 {
      MaskIsRemainder(x / 2, 1);
    } else {
      MaskIsRemainder(x / 2, m / 2);
      assert (m - 1) % 2 == 1 && (m - 1) / 2 == m / 2 - 1;
      RemainderSplit(x, 2, m / 2);
    }
  }

  /** Masking with the complement of `m - 1` rounds down to a multiple of `m`. */
  lemma {:induction false} HighMaskRounds(x: nat, m: nat, p: nat)
    requires PowerOfTwo(m) && PowerOfTwo(p) && m <= p && x < p
    ensures And(x, p - m) == x - x % m
    decreases m
  {
    if m == 1 {
      MaskIsRemainder(x, p);
      DivModUnique(x, p, 0, x);
    } else {
      var m', p' := m / 2, p / 2;
      assert m == 2 * m' && p == 2 * p';
      HighMaskRounds(x / 2, m', p');
      AndEven(x, p' - m');
      RemainderSplit(x, 2, m');
    }
  }

  lemma {:induction false} AndEven(x: nat, b: nat)
    ensures And(x, 2 * b) == 2 * And(x / 2, b)
  {
    assert 2 * b % 2 == 0 && 2 * b / 2 == b;
  }

  lemma DwordIsPower()
    ensures PowerOfTwo(DWORD) && PowerOfTwo(512)
  {
    PowerProduct(0x10, 0x10);
    PowerProduct(0x100, 0x100);
    PowerProduct(0x1_0000, 0x1_0000);
    PowerProduct(0x100, 2);
  }

  lemma {:induction false} PowerProduct(a: nat, b: nat)
    requires PowerOfTwo(a) && PowerOfTwo(b)
    ensures PowerOfTwo(a * b)
    decreases a
  {
    if a > 1 {
      PowerProduct(a / 2, b);
      assert a * b == 2 * (a / 2 * b);
    }
  }

  /** The remainder by a product, digit by digit. */
  lemma RemainderSplit(x: nat, a: nat, b: nat)
    requires a > 0 && b > 0
    ensures a * b > 0 && x % (a * b) == x % a + a * (x / a % b)
  {
    var lo, q, r := x % a, x / a / b, x / a % b;
    assert x / a == q * b + r;
    calc {
      x;
      a * (q * b + r) + lo;
      { MulDistribute(a, q * b, r); }
      a * (q * b) + a * r + lo;
      { MulAssoc(a, q, b); }
      q * (a * b) + (a * r + lo);
    }
    MulMono(r + 1, b, a);
    assert a * r + a == (r + 1) * a;
    assert b * a == a * b;
    DivModUnique(x, a * b, q, a * r + lo);
  }

  lemma MulDistribute(a: int, x: int, y: int)
    ensures a * (x + y) == a * x + a * y
  {
  }

  lemma MulAssoc(a: int, q: int, b: int)
    ensures a * (q * b) == q * (a * b)
  {
  }

  /** Quotient and remainder are the only numbers with their defining property. */
  lemma DivModUnique(x: int, d: int, q: int, r: int)
    requires d > 0 && 0 <= r < d && x == q * d + r
    ensures x / d == q && x % d == r
  {
    var q', r' := x / d, x % d;
    assert x == q' * d + r';
    assert (q + 1) * d == q * d + d && (q' + 1) * d == q' * d + d;
    if q < q' {
      MulMono(q + 1, q', d);
    } else if q' < q {
      MulMono(q' + 1, q, d);
    }
  }

  lemma MulMono(a: int, b: int, d: int)
    requires a <= b && d >= 0
    ensures a * d <= b * d
  {
    assert (b - a) * d >= 0;
    assert (b - a) * d == b * d - a * d;
  }
}
