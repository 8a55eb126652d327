/** Fixed-width integers and positional notation.

    Go's unsigned words are integers in a range here.  For an unsigned `v`,
    `v & (2^k - 1)` is `v % 2^k`, `v >> k` is `v / 2^k`, and `v |= x << k` is
    `v + x * 2^k` whenever `v < 2^k`; each use of the last one states that bound. */
module Bits {
  type byte = x: int | 0 <= x < 0x100
  type uint16 = x: int | 0 <= x < 0x1_0000
  type uint32 = x: int | 0 <= x < 0x1_0000_0000
  type uint64 = x: int | 0 <= x < 0x1_0000_0000_0000_0000
  type int16 = x: int | -0x8000 <= x < 0x8000
  type int32 = x: int | -0x8000_0000 <= x < 0x8000_0000
  type int64 = x: int | -0x8000_0000_0000_0000 <= x < 0x8000_0000_0000_0000

  /** The conversions uint32(v) and int32(u) of Go: the same 32 bits. */
  function Uint32(v: int): (u: uint32)
    ensures 0 <= v < 0x1_0000_0000 ==> u == v
  {
    v % 0x1_0000_0000
  }

  function Uint16(v: int): (u: uint16)
    ensures 0 <= v < 0x1_0000 ==> u == v
  {
    v % 0x1_0000
  }

  function Int16(v: int): (i: int16)
    ensures -0x8000 <= v < 0x8000 ==> i == v
    ensures Uint16(i) == Uint16(v)
  {
    var u := Uint16(v);
    if u < 0x8000 then u else u - 0x1_0000
  }

  function Int32(v: int): (i: int32)
    ensures -0x8000_0000 <= v < 0x8000_0000 ==> i == v
    ensures Uint32(i) == Uint32(v)
  {
    var u := Uint32(v);
    if u < 0x8000_0000 then u else u - 0x1_0000_0000
  }

  lemma Int32OfUint32(i: int32)
    ensures Int32(Uint32(i)) == i
  {}

  function Uint64(v: int): (u: uint64)
    ensures 0 <= v < 0x1_0000_0000_0000_0000 ==> u == v
  {
    v % 0x1_0000_0000_0000_0000
  }

  function Int64(v: int): (i: int64)
    ensures -0x8000_0000_0000_0000 <= v < 0x8000_0000_0000_0000 ==> i == v
    ensures Uint64(i) == Uint64(v)
  {
    var u := Uint64(v);
    if u < 0x8000_0000_0000_0000 then u else u - 0x1_0000_0000_0000_0000
  }

  function Pow(b: nat, k: nat): nat {
    if k == 0 then 1 else b * Pow(b, k - 1)
  }

  lemma {:induction false} PowPositive(b: nat, k: nat)
    requires b > 0
    ensures Pow(b, k) > 0
  {
    if k > 0 {
      PowPositive(b, k - 1);
      MulPositive(b, Pow(b, k - 1));
    }
  }

  lemma MulPositive(x: int, y: int)
    requires x > 0 && y > 0
    ensures x * y > 0
  {}

  lemma MulLeft(c: nat, x: int, y: int)
    requires x <= y
    ensures c * x <= c * y
  {}

  lemma DivUnique(n: nat, d: nat, q: nat, r: nat)
    requires d > 0 && n == d * q + r && r < d
    ensures n / d == q && n % d == r
  {
    var q', r' := n / d, n % d;
    assert n == d * q' + r';
    assert d * (q + 1) == d * q + d && d * (q' + 1) == d * q' + d;
    if q' > q {
      MulLeft(d, q + 1, q');
      assert false;
    } else if q' < q {
      MulLeft(d, q' + 1, q);
      assert false;
    }
  }

  ghost predicate AreDigits(b: nat, d: seq<nat>) {
    forall i | 0 <= i < |d| :: d[i] < b
  }

  /** The number whose base-b digits are d, least significant first. */
  function FromDigits(b: nat, d: seq<nat>): nat {
    if d == [] then 0 else d[0] + b * FromDigits(b, d[1..])
  }

  lemma {:induction false} FromDigitsBound(b: nat, d: seq<nat>)
    requires b > 0 && AreDigits(b, d)
    ensures FromDigits(b, d) < Pow(b, |d|)
  {
    if d != [] {
      FromDigitsBound(b, d[1..]);
      MulLeft(b, FromDigits(b, d[1..]) + 1, Pow(b, |d| - 1));
      assert b * (FromDigits(b, d[1..]) + 1) == b * FromDigits(b, d[1..]) + b;
    }
  }

  /** OR-ing one more digit in above the others appends it. */
  lemma {:induction false} FromDigitsSnoc(b: nat, d: seq<nat>, x: nat)
    ensures FromDigits(b, d + [x]) == FromDigits(b, d) + x * Pow(b, |d|)
  {
    if d == [] {
      assert d + [x] == [x] && [x][1..] == [];
    } else {
      FromDigitsSnoc(b, d[1..], x);
      assert (d + [x])[1..] == d[1..] + [x];
      var p := Pow(b, |d| - 1);
      assert b * (FromDigits(b, d[1..]) + x * p) == b * FromDigits(b, d[1..]) + b * (x * p);
      assert b * (x * p) == x * (b * p);
    }
  }

  lemma {:induction false} FromDigitsSplit(b: nat, d: seq<nat>, j: nat)
    requires j <= |d|
    ensures FromDigits(b, d) == Pow(b, j) * FromDigits(b, d[j..]) + FromDigits(b, d[..j])
  {
    if j == 0 {
      assert d[0..] == d && d[..0] == [];
    } else {
      FromDigitsSplit(b, d[1..], j - 1);
      assert d[1..][j - 1..] == d[j..] && d[1..][..j - 1] == d[..j][1..];
      Distribute(b, Pow(b, j - 1), FromDigits(b, d[j..]), FromDigits(b, d[..j][1..]));
    }
  }

  lemma Distribute(b: int, p: int, x: int, y: int)
    ensures b * (p * x + y) == (b * p) * x + b * y
  {
    assert b * (p * x + y) == b * (p * x) + b * y;
    assert b * (p * x) == (b * p) * x;
  }

  /** Shifting right by j digits and masking one digit reads digit j. */
  lemma DigitAt(b: nat, d: seq<nat>, j: nat)
    requires b > 0 && AreDigits(b, d) && j < |d|
    ensures Pow(b, j) > 0 && (FromDigits(b, d) / Pow(b, j)) % b == d[j]
  {
    PowPositive(b, j);
    FromDigitsSplit(b, d, j);
    FromDigitsBound(b, d[..j]);
    var r := FromDigits(b, d[j..]);
    DivUnique(FromDigits(b, d), Pow(b, j), r, FromDigits(b, d[..j]));
    DivUnique(r, b, FromDigits(b, d[j..][1..]), d[j]);
  }

  lemma {:induction false} PowOfPow(b: nat, w: nat, k: nat)
    ensures Pow(b, w * k) == Pow(Pow(b, w), k)
  {
    if k > 0 {
      PowOfPow(b, w, k - 1);
      assert w * k == w + w * (k - 1);
      PowAdd(b, w, w * (k - 1));
    }
  }

  lemma {:induction false} PowAdd(b: nat, m: nat, n: nat)
    ensures Pow(b, m + n) == Pow(b, m) * Pow(b, n)
  {
    if m > 0 {
      PowAdd(b, m - 1, n);
      MulAssoc(b, Pow(b, m - 1), Pow(b, n));
    }
  }

  lemma MulAssoc(a: int, b: int, c: int)
    ensures a * (b * c) == (a * b) * c
  {}

  /** The n low bytes of x, most significant first (binary.BigEndian). */
  function BigEndian(n: nat, x: nat): (s: seq<byte>)
    ensures |s| == n
    decreases n, x
  {
    if n == 0 then [] else BigEndian(n - 1, x / 0x100) + [x % 0x100]
  }

  function FromBigEndian(s: seq<byte>): nat {
    if s == [] then 0 else FromBigEndian(s[..|s| - 1]) * 0x100 + s[|s| - 1]
  }

  lemma {:induction false} BigEndianRoundTrip(n: nat, x: nat)
    requires x < Pow(0x100, n)
    ensures FromBigEndian(BigEndian(n, x)) == x
  {
    if n > 0 {
      assert x / 0x100 < Pow(0x100, n - 1);
      BigEndianRoundTrip(n - 1, x / 0x100);
      var s := BigEndian(n, x);
      assert s[..|s| - 1] == BigEndian(n - 1, x / 0x100);
    }
  }

  lemma {:induction false} FromBigEndianRoundTrip(s: seq<byte>)
    ensures FromBigEndian(s) < Pow(0x100, |s|)
    ensures BigEndian(|s|, FromBigEndian(s)) == s
  {
    if s != [] {
      FromBigEndianRoundTrip(s[..|s| - 1]);
      assert s == s[..|s| - 1] + [s[|s| - 1]];
    }
  }

  lemma PowBytes()
    ensures Pow(0x100, 1) == 0x100 && Pow(0x100, 2) == 0x1_0000
    ensures Pow(0x100, 4) == 0x1_0000_0000
    ensures Pow(0x100, 8) == 0x1_0000_0000_0000_0000
  {
    assert Pow(0x100, 3) == 0x100_0000;
    assert Pow(0x100, 5) == 0x100_0000_0000;
    assert Pow(0x100, 6) == 0x1_0000_0000_0000;
    assert Pow(0x100, 7) == 0x100_0000_0000_0000;
  }
}
