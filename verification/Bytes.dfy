// Bytes, exclusive-or on bytes, and fixed-width integer layouts.
module Bytes {
  type byte = x: int | 0 <= x < 256

  const TWO_TO_8: int := 0x100
  const TWO_TO_16: int := 0x1_0000
  const TWO_TO_32: int := 0x1_0000_0000
  const TWO_TO_64: int := 0x1_0000_0000_0000_0000

  const NUL: byte := 0

  // A byte string as C sees it, up to its first NUL.
  function CString(s: seq<byte>): seq<byte> {
    if s == [] || s[0] == NUL then [] else [s[0]] + CString(s[1..])
  }

  // A stream put back together from the chunks it arrived in.
  function Concat(chunks: seq<seq<byte>>): seq<byte> {
    if chunks == [] then [] else chunks[0] + Concat(chunks[1..])
  }

  function Pow2(n: nat): (p: nat)
    ensures p > 0
  {
    if n == 0 then 1 else 2 * Pow2(n - 1)
  }

  // The lowest digit of an exclusive-or.
  function Parity(a: nat, b: nat): nat {
    (a % 2 + b % 2) % 2
  }

  // Exclusive-or of the low n binary digits.
  function XorDigits(a: nat, b: nat, n: nat): (r: nat)
    ensures r < Pow2(n)
  {
    if n == 0 then 0
    else Parity(a, b) + 2 * XorDigits(a / 2, b / 2, n - 1)
  }

  function Xor(a: byte, b: byte): byte {
    assert Pow2(8) == 256;
    XorDigits(a, b, 8)
  }

  lemma HalvesOf(low: nat, high: nat)
    requires low < 2
    ensures (low + 2 * high) % 2 == low && (low + 2 * high) / 2 == high
  {
  }

  lemma XorDigitsSplit(a: nat, b: nat, n: nat)
    requires n > 0
    ensures XorDigits(a, b, n) % 2 == Parity(a, b)
    ensures XorDigits(a, b, n) / 2 == XorDigits(a / 2, b / 2, n - 1)
  {
    HalvesOf(Parity(a, b), XorDigits(a / 2, b / 2, n - 1));
  }

  lemma SameHalves(x: nat, y: nat)
    requires x % 2 == y % 2 && x / 2 == y / 2
    ensures x == y
  {
  }

  lemma ParityLaws(a: nat, b: nat, c: nat, ab: nat, bc: nat)
    ensures ab % 2 == Parity(a, b) && bc % 2 == Parity(b, c) ==> Parity(ab, c) == Parity(a, bc)
    ensures ab % 2 == Parity(a, b) ==> Parity(ab, b) == a % 2
  {
  }

  lemma {:induction false} XorDigitsCancels(a: nat, b: nat, n: nat)
    requires a < Pow2(n)
    ensures XorDigits(XorDigits(a, b, n), b, n) == a
  {
    if n > 0 {
      hide XorDigits, Parity;
      var x := XorDigits(a, b, n);
      XorDigitsCancels(a / 2, b / 2, n - 1);
      XorDigitsSplit(a, b, n);
      XorDigitsSplit(x, b, n);
      ParityLaws(a, b, b, x, 0);
      SameHalves(XorDigits(x, b, n), a);
    }
  }

  lemma {:induction false} XorDigitsZero(a: nat, n: nat)
    requires a < Pow2(n)
    ensures XorDigits(a, 0, n) == a
  {
    if n > 0 {
      XorDigitsZero(a / 2, n - 1);
    }
  }

  // Masking twice with the same octet restores the byte, and a zero octet leaves it alone.
  lemma XorCancels(a: byte, b: byte)
    ensures Xor(Xor(a, b), b) == a
    ensures Xor(a, 0) == a
  {
    assert Pow2(8) == 256;
    XorDigitsCancels(a, b, 8);
    XorDigitsZero(a, 8);
  }

  // Network byte order: the value of a byte sequence, most significant byte first.
  function BigEndian(s: seq<byte>): (v: nat)
  {
    if s == [] then 0 else 256 * BigEndian(s[..|s| - 1]) + s[|s| - 1]
  }

  // The n-byte network-order layout of v, truncated to n bytes.
  function ToBigEndian(v: nat, n: nat): (s: seq<byte>)
    ensures |s| == n
  {
    if n == 0 then [] else ToBigEndian(v / 256, n - 1) + [v % 256]
  }

  function Pow256(n: nat): (p: nat)
    ensures p > 0
  {
    if n == 0 then 1 else 256 * Pow256(n - 1)
  }

  lemma {:induction false} BigEndianRoundTrip(v: nat, n: nat)
    requires v < Pow256(n)
    ensures BigEndian(ToBigEndian(v, n)) == v
  {
    if n > 0 {
      BigEndianRoundTrip(v / 256, n - 1);
      assert ToBigEndian(v, n)[..n - 1] == ToBigEndian(v / 256, n - 1);
    }
  }

  lemma {:induction false} ToBigEndianRoundTrip(s: seq<byte>)
    ensures BigEndian(s) < Pow256(|s|)
    ensures ToBigEndian(BigEndian(s), |s|) == s
  {
    if s != [] {
      ToBigEndianRoundTrip(s[..|s| - 1]);
    }
  }

  lemma Distribute(x: nat, p: nat, y: nat, z: nat)
    ensures 256 * (x * p + y) + z == x * (256 * p) + (256 * y + z)
  {
  }

  lemma {:induction false} BigEndianConcat(a: seq<byte>, b: seq<byte>)
    ensures BigEndian(a + b) == BigEndian(a) * Pow256(|b|) + BigEndian(b)
  {
    if b == [] {
      assert a + b == a;
    } else {
      BigEndianConcat(a, b[..|b| - 1]);
      assert (a + b)[..|a + b| - 1] == a + b[..|b| - 1];
      Distribute(BigEndian(a), Pow256(|b| - 1), BigEndian(b[..|b| - 1]), b[|b| - 1]);
    }
  }

  // The n-byte layout of v on a little-endian machine, and reading it back.
  function ToLittleEndian(v: nat, n: nat): (s: seq<byte>)
    ensures |s| == n
  {
    if n == 0 then [] else [v % 256] + ToLittleEndian(v / 256, n - 1)
  }

  function Native(s: seq<byte>): (v: nat)
    ensures v < Pow256(|s|)
  {
    if s == [] then 0 else s[0] + 256 * Native(s[1..])
  }

  lemma {:induction false} NativeRoundTrip(v: nat, n: nat)
    requires v < Pow256(n)
    ensures Native(ToLittleEndian(v, n)) == v
  {
    if n > 0 {
      NativeRoundTrip(v / 256, n - 1);
      assert ToLittleEndian(v, n)[1..] == ToLittleEndian(v / 256, n - 1);
    }
  }

  // ---- Exclusive-or digit by digit ----

  lemma {:induction false} XorDigitsCommutes(a: nat, b: nat, n: nat)
    ensures XorDigits(a, b, n) == XorDigits(b, a, n)
  {
    if n > 0 {
      XorDigitsCommutes(a / 2, b / 2, n - 1);
    }
  }

  lemma {:induction false} XorDigitsAssociates(a: nat, b: nat, c: nat, n: nat)
    ensures XorDigits(XorDigits(a, b, n), c, n) == XorDigits(a, XorDigits(b, c, n), n)
  {
    if n > 0 {
      hide XorDigits, Parity;
      var ab, bc := XorDigits(a, b, n), XorDigits(b, c, n);
      XorDigitsAssociates(a / 2, b / 2, c / 2, n - 1);
      XorDigitsSplit(a, b, n);
      XorDigitsSplit(b, c, n);
      XorDigitsSplit(ab, c, n);
      XorDigitsSplit(a, bc, n);
      ParityLaws(a, b, c, ab, bc);
      SameHalves(XorDigits(ab, c, n), XorDigits(a, bc, n));
    }
  }

  function ShiftRight(a: nat, m: nat): nat {
    if m == 0 then a else ShiftRight(a / 2, m - 1)
  }

  // Shifting right by m digits distributes over exclusive-or.
  lemma {:induction false} XorDigitsShifts(a: nat, b: nat, n: nat, m: nat)
    requires m <= n
    ensures ShiftRight(XorDigits(a, b, n), m) == XorDigits(ShiftRight(a, m), ShiftRight(b, m), n - m)
  {
    if m > 0 {
      XorDigitsShifts(a / 2, b / 2, n - 1, m - 1);
      HalvesOf((a % 2 + b % 2) % 2, XorDigits(a / 2, b / 2, n - 1));
    }
  }

  lemma {:induction false} ShiftIsDivision(a: nat, m: nat)
    ensures ShiftRight(a, m) == a / Pow2(m)
  {
    if m > 0 {
      ShiftIsDivision(a / 2, m - 1);
      DivideTwice(a, Pow2(m - 1));
    }
  }

  lemma DivideTwice(a: nat, p: nat)
    requires p > 0
    ensures a / (2 * p) == a / 2 / p
  {
    var h := a / 2;
    var q, r := h / p, h % p;
    assert h == p * q + r;
    assert (2 * p) * q == 2 * (p * q);
    QuotientOf(2 * p, q, 2 * r + a % 2, a);
  }

  lemma QuotientOf(p: nat, q: nat, r: nat, a: nat)
    requires r < p && a == p * q + r
    ensures a / p == q
  {
    var d := a / p;
    assert a == p * d + a % p;
    assert d < q ==> p * (d + 1) <= p * q;
    assert d > q ==> p * (q + 1) <= p * d;
  }

  // Digits that are zero on both sides do not matter.
  lemma {:induction false} XorDigitsWidens(a: nat, b: nat, n: nat, m: nat)
    requires a < Pow2(n) && b < Pow2(n) && n <= m
    ensures XorDigits(a, b, m) == XorDigits(a, b, n)
    decreases m
  {
    if n == 0 {
      if m > 0 {
        XorDigitsWidens(0, 0, 0, m - 1);
      }
    } else {
      XorDigitsWidens(a / 2, b / 2, n - 1, m - 1);
    }
  }
}
