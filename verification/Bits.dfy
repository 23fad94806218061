// What exclusive-or comes to, bit by bit, and on longer numbers byte by byte.
module Bits {
  import opened Bytes

  // ---- Bytes ----

  function Num(x: bv8): nat { x as int }
  function Low(x: bv8): bv8 { x & 1 }
  function High(x: bv8): bv8 { x >> 1 }
  function Either(x: bv8, y: bv8): bv8 { x ^ y }

  lemma Digits(x: bv8)
    ensures Num(x) == 2 * Num(High(x)) + Num(Low(x)) && Num(Low(x)) < 2
  {
  }

  lemma DigitsMeet(x: bv8, y: bv8)
    ensures Low(Either(x, y)) == Either(Low(x), Low(y)) && High(Either(x, y)) == Either(High(x), High(y))
  {
  }

  lemma DigitsAdd(x: bv8, y: bv8)
    requires Num(x) < 2 && Num(y) < 2
    ensures Num(Either(x, y)) == (Num(x) + Num(y)) % 2
  {
  }

  lemma Zeros(x: bv8, y: bv8)
    requires Num(x) == 0 == Num(y)
    ensures Num(Either(x, y)) == 0
  {
  }

  lemma OneDigit(a: nat, b: nat, n: nat, low: nat, low': nat, rest: nat, rest': nat)
    requires a == 2 * rest + low && b == 2 * rest' + low' && low < 2 && low' < 2
    ensures XorDigits(a, b, n + 1) == (low + low') % 2 + 2 * XorDigits(rest, rest', n)
  {
    HalvesOf(low, rest);
    HalvesOf(low', rest');
  }

  lemma Smaller(rest: nat, low: nat, n: nat)
    requires n > 0 && 2 * rest + low < Pow2(n)
    ensures rest < Pow2(n - 1)
  {
  }

  lemma NoDigits(a: nat, b: nat)
    requires a < Pow2(0) && b < Pow2(0)
    ensures a == b == 0 && XorDigits(a, b, 0) == 0
  {
  }

  lemma {:induction false} XorBits(x: bv8, y: bv8, n: nat)
    requires Num(x) < Pow2(n) && Num(y) < Pow2(n)
    ensures XorDigits(Num(x), Num(y), n) == Num(Either(x, y))
    decreases n
  {
    hide *;
    if n == 0 {
      NoDigits(Num(x), Num(y));
      Zeros(x, y);
    } else {
      var z := Either(x, y);
      Digits(x);
      Digits(y);
      Digits(z);
      DigitsMeet(x, y);
      DigitsAdd(Low(x), Low(y));
      Smaller(Num(High(x)), Num(Low(x)), n);
      Smaller(Num(High(y)), Num(Low(y)), n);
      XorBits(High(x), High(y), n - 1);
      OneDigit(Num(x), Num(y), n - 1, Num(Low(x)), Num(Low(y)), Num(High(x)), Num(High(y)));
    }
  }

  lemma AsBits(a: byte)
    ensures (a as bv8) as int == a
  {
    assert a % 256 == a;
  }

  // Octets are combined bit by bit.
  lemma XorIsBitwise(a: byte, b: byte)
    ensures Xor(a, b) == ((a as bv8) ^ (b as bv8)) as int
  {
    assert Pow2(8) == 256;
    AsBits(a);
    AsBits(b);
    XorBits(a as bv8, b as bv8, 8);
  }

  // ---- Longer numbers ----

  lemma OneDigitMore(low: nat, high: nat, p: nat)
    ensures low + 2 * p * high == 2 * (low / 2 + p * high) + low % 2
  {
    assert 2 * p * high == 2 * (p * high);
  }

  lemma Twice(p: nat, x: nat, r: nat, s: nat)
    ensures r + 2 * (s + p * x) == (r + 2 * s) + 2 * p * x
  {
    assert 2 * p * x == 2 * (p * x);
  }

  lemma Halves(low: nat, m: nat)
    requires m > 0 && low < Pow2(m)
    ensures low / 2 < Pow2(m - 1) && Pow2(m) == 2 * Pow2(m - 1)
  {
  }

  lemma NoLowDigits(low: nat, low': nat, high: nat, high': nat)
    requires low < Pow2(0) && low' < Pow2(0)
    ensures low + Pow2(0) * high == high && low' + Pow2(0) * high' == high' && XorDigits(low, low', 0) == 0
  {
  }

  lemma NoShift(x: nat)
    ensures Pow2(0) * x == x
  {
  }

  // The lower digits and the higher ones are combined for themselves.
  lemma {:induction false} XorSplits(low: nat, low': nat, high: nat, high': nat, m: nat, n: nat)
    requires low < Pow2(m) && low' < Pow2(m)
    ensures XorDigits(low + Pow2(m) * high, low' + Pow2(m) * high', m + n)
         == XorDigits(low, low', m) + Pow2(m) * XorDigits(high, high', n)
    decreases m
  {
    hide *;
    if m == 0 {
      NoLowDigits(low, low', high, high');
      NoShift(XorDigits(high, high', n));
    } else {
      var p := Pow2(m - 1);
      Halves(low, m);
      Halves(low', m);
      XorSplits(low / 2, low' / 2, high, high', m - 1, n);
      OneDigitMore(low, high, p);
      OneDigitMore(low', high', p);
      OneDigit(low + 2 * p * high, low' + 2 * p * high', m - 1 + n, low % 2, low' % 2,
               low / 2 + p * high, low' / 2 + p * high');
      OneDigit(low, low', m - 1, low % 2, low' % 2, low / 2, low' / 2);
      Twice(p, XorDigits(high, high', n), (low % 2 + low' % 2) % 2, XorDigits(low / 2, low' / 2, m - 1));
    }
  }

  lemma FirstByte(a: byte, high: nat, b: byte, high': nat, n: nat)
    ensures XorDigits(a + 256 * high, b + 256 * high', 8 + n) == Xor(a, b) + 256 * XorDigits(high, high', n)
  {
    assert Pow2(8) == 256;
    hide XorDigits;
    XorSplits(a, b, high, high', 8, n);
    assert XorDigits(a, b, 8) == Xor(a, b);
  }
}
