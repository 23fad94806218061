// The hash that keys every table: MurmurHash3 over 32-bit words, with seed 0.
// Words are the numbers below 2^32; products and shifts wrap around.
module Murmur {
  import opened Bytes

  type word = x: int | 0 <= x < TWO_TO_32

  // ---- The steps ----

  function Times(x: word, c: nat): word {
    x * c % TWO_TO_32
  }

  function Plus(x: word, c: nat): word {
    (x + c) % TWO_TO_32
  }

  function XorWord(x: word, y: word): word {
    WordLimit();
    XorDigits(x, y, 32)
  }

  // The shifted halves do not overlap, so the sum is their union.
  function Rotl13(x: word): word {
    x * 0x2000 % TWO_TO_32 + x / 0x8_0000
  }

  function Rotl15(x: word): word {
    x * 0x8000 % TWO_TO_32 + x / 0x2_0000
  }

  function Fold13(x: word): word {
    XorWord(x, x / 0x2000)
  }

  function Fold16(x: word): word {
    XorWord(x, x / 0x1_0000)
  }

  function Scramble(k: word): word {
    Times(Rotl15(Times(k, 0xcc9e2d51)), 0x1b873593)
  }

  function Round(h: word, k: word): word {
    Plus(Times(Rotl13(XorWord(h, Scramble(k))), 5), 0xe6546b64)
  }

  function Finish(h: word): word {
    Fold16(Times(Fold13(Times(Fold16(h), 0x85ebca6b)), 0xc2b2ae35))
  }

  lemma WordLimit()
    ensures Pow2(32) == TWO_TO_32
    ensures Pow256(0) == 1 && Pow256(1) == 256 && Pow256(2) == TWO_TO_16 && Pow256(3) == 0x100_0000
    ensures Pow256(4) == TWO_TO_32
  {
    assert Pow2(8) == 0x100;
    assert Pow2(16) == TWO_TO_16;
    assert Pow2(24) == 0x100_0000;
  }

  lemma Powers()
    ensures Pow2(6) == 64 && Pow2(13) == 0x2000 && Pow2(16) == 0x1_0000
    ensures Pow2(19) == 0x8_0000 && Pow2(26) == 0x400_0000 && Pow2(32) == TWO_TO_32
  {
    assert Pow2(4) == 16;
    assert Pow2(10) == 0x400;
    assert Pow2(16) == 0x1_0000;
    assert Pow2(22) == 0x40_0000;
    assert Pow2(28) == 0x1000_0000;
  }

  // ---- The hash of a key ----

  function Word(s: seq<byte>): word
    requires |s| <= 4
  {
    WordLimit();
    Native(s)
  }

  // The state after all whole words.
  function Body(key: seq<byte>): word
    requires |key| % 4 == 0
  {
    if key == [] then 0
    else Round(Body(key[..|key| - 4]), Word(key[|key| - 4..]))
  }

  // The length enters as a 32-bit number.
  function Hash(key: seq<byte>): word {
    var whole := |key| / 4 * 4;
    var h := Body(key[..whole]);
    var t := if whole == |key| then h else XorWord(h, Scramble(Word(key[whole..])));
    Finish(XorWord(t, |key| % TWO_TO_32))
  }

  lemma BodyStart()
    ensures Body([]) == 0
  {
  }

  lemma BodyStep(key: seq<byte>, at: nat)
    requires at % 4 == 0 && at + 4 <= |key|
    ensures Body(key[..at + 4]) == Round(Body(key[..at]), Word(key[at..at + 4]))
  {
    var longer := key[..at + 4];
    assert longer[..|longer| - 4] == key[..at] && longer[|longer| - 4..] == key[at..at + 4];
  }

  method MurmurHash3(key: seq<byte>) returns (h: word)
    ensures h == Hash(key)
  {
    hide Times, Plus, XorWord, Rotl13, Rotl15, Fold13, Fold16, Word, Body;
    h := 0;
    BodyStart();
    var at, blocks := 0, |key| / 4 * 4;
    while at < blocks
      invariant at <= blocks && at % 4 == 0
      invariant h == Body(key[..at])
    {
      var k := Word(key[at..at + 4]);
      k := Times(k, 0xcc9e2d51);
      k := Rotl15(k);
      k := Times(k, 0x1b873593);
      h := XorWord(h, k);
      h := Rotl13(h);
      h := Plus(Times(h, 5), 0xe6546b64);
      BodyStep(key, at);
      at := at + 4;
    }
    if at < |key| {
      var k := Word(key[at..]);
      k := Times(k, 0xcc9e2d51);
      k := Rotl15(k);
      k := Times(k, 0x1b873593);
      h := XorWord(h, k);
    }
    h := XorWord(h, |key| % TWO_TO_32);
    h := Fold16(h);
    h := Times(h, 0x85ebca6b);
    h := Fold13(h);
    h := Times(h, 0xc2b2ae35);
    h := Fold16(h);
  }

  // ---- Each step can be undone ----

  function Rotr13(x: word): word {
    x % 0x2000 * 0x8_0000 + x / 0x2000
  }

  function Rotr15(x: word): word {
    x % 0x8000 * 0x2_0000 + x / 0x8000
  }

  function Minus(x: word, c: nat): word {
    (x - c) % TWO_TO_32
  }

  function Unfold13(x: word): word {
    XorWord(XorWord(x, x / 0x2000), x / 0x400_0000)
  }

  lemma Limbs(high: nat, low: nat, b: nat)
    requires 0 < b && low < b
    ensures (high * b + low) / b == high && (high * b + low) % b == low
  {
    QuotientOf(b, high, low, high * b + low);
  }

  // A rotation to the left moves the upper part of the word below the lower part.
  lemma Rotl13Is(x: word)
    ensures Rotl13(x) == x % 0x8_0000 * 0x2000 + x / 0x8_0000
  {
    var h, l := x / 0x8_0000, x % 0x8_0000;
    assert x * 0x2000 == l * 0x2000 + TWO_TO_32 * h;
    RemainderOf(l * 0x2000, h);
  }

  lemma Rotl13Inverts(x: word)
    ensures Rotr13(Rotl13(x)) == x && Rotl13(Rotr13(x)) == x
  {
    hide Rotl13;
    Rotl13Is(x);
    Limbs(x % 0x8_0000, x / 0x8_0000, 0x2000);
    Rotl13Is(Rotr13(x));
    Limbs(x % 0x2000, x / 0x2000, 0x8_0000);
  }

  // A rotation to the left moves the upper part of the word below the lower part.
  lemma Rotl15Is(x: word)
    ensures Rotl15(x) == x % 0x2_0000 * 0x8000 + x / 0x2_0000
  {
    var h, l := x / 0x2_0000, x % 0x2_0000;
    assert x * 0x8000 == l * 0x8000 + TWO_TO_32 * h;
    RemainderOf(l * 0x8000, h);
  }

  lemma Rotl15Inverts(x: word)
    ensures Rotr15(Rotl15(x)) == x && Rotl15(Rotr15(x)) == x
  {
    hide Rotl15;
    Rotl15Is(x);
    Limbs(x % 0x2_0000, x / 0x2_0000, 0x8000);
    Rotl15Is(Rotr15(x));
    Limbs(x % 0x8000, x / 0x8000, 0x2_0000);
  }

  lemma PlusInverts(x: word, c: nat)
    ensures Minus(Plus(x, c), c) == x && Plus(Minus(x, c), c) == x
  {
  }

  // A factor with an inverse modulo 2^32 can be divided out again.
  lemma TimesInverts(x: word, c: nat, d: nat)
    requires c * d % TWO_TO_32 == 1
    ensures Times(Times(x, c), d) == x
  {
    var t, q := c * d / TWO_TO_32, x * c / TWO_TO_32;
    calc {
      Times(x, c) * d;
      (x * c - TWO_TO_32 * q) * d;
      { assert (x * c - TWO_TO_32 * q) * d == x * (c * d) - TWO_TO_32 * (q * d); }
      x * (c * d) - TWO_TO_32 * (q * d);
      x * (TWO_TO_32 * t + 1) - TWO_TO_32 * (q * d);
      { assert x * (TWO_TO_32 * t + 1) == TWO_TO_32 * (x * t) + x; }
      x + TWO_TO_32 * (x * t - q * d);
    }
    RemainderOf(x, x * t - q * d);
  }

  lemma RemainderOf(x: word, k: int)
    ensures (x + TWO_TO_32 * k) % TWO_TO_32 == x
  {
  }

  lemma XorInverts(x: word, y: word)
    ensures XorWord(XorWord(x, y), y) == x
    ensures XorWord(0, x) == x
  {
    WordLimit();
    XorDigitsCancels(x, y, 32);
    XorDigitsCommutes(0, x, 32);
    XorDigitsZero(x, 32);
  }

  lemma Fold16Inverts(x: word)
    ensures Fold16(Fold16(x)) == x
  {
    hide XorDigits, ShiftRight, Pow2;
    var s := x / 0x1_0000;
    Powers();
    XorDigitsShifts(x, s, 32, 16);
    ShiftIsDivision(x, 16);
    ShiftIsDivision(s, 16);
    ShiftIsDivision(Fold16(x), 16);
    XorDigitsZero(s, 16);
    XorInverts(x, s);
  }

  // The upper digits of an exclusive-or, for the two distances that folding by 13 needs.
  lemma UpperDigits(x: word, y: word)
    ensures XorWord(x, y) / 0x2000 == XorWord(x / 0x2000, y / 0x2000)
    ensures y < 0x400_0000 ==> XorWord(x, y) / 0x400_0000 == x / 0x400_0000
  {
    hide XorDigits, ShiftRight, Pow2;
    Powers();
    XorDigitsShifts(x, y, 32, 13);
    ShiftIsDivision(x, 13);
    ShiftIsDivision(y, 13);
    ShiftIsDivision(XorWord(x, y), 13);
    XorDigitsWidens(x / 0x2000, y / 0x2000, 19, 32);
    XorDigitsShifts(x, y, 32, 26);
    ShiftIsDivision(x, 26);
    ShiftIsDivision(y, 26);
    ShiftIsDivision(XorWord(x, y), 26);
    if y < 0x400_0000 {
      XorDigitsZero(x / 0x400_0000, 6);
    }
  }

  // Folding x into itself and taking the fold out again, with s and t standing
  // for x shifted once and twice.
  lemma XorCancelsTwo(x: word, s: word, t: word)
    ensures XorWord(XorWord(XorWord(x, s), XorWord(s, t)), t) == x
    ensures XorWord(XorWord(XorWord(x, s), t), XorWord(s, t)) == x
  {
    WordLimit();
    XorDigitsAssociates(XorWord(x, s), s, t, 32);
    XorInverts(x, s);
    XorInverts(x, t);
    XorDigitsAssociates(x, s, t, 32);
    XorInverts(x, XorWord(s, t));
  }

  lemma Fold13Inverts(x: word)
    ensures Unfold13(Fold13(x)) == x && Fold13(Unfold13(x)) == x
  {
    var s, t := x / 0x2000, x / 0x400_0000;
    assert s / 0x2000 == t && t / 0x2000 == 0;
    UpperDigits(x, s);
    XorCancelsTwo(x, s, t);
    UpperDigits(XorWord(x, s), t);
    XorInverts(XorWord(s, t), 0);
    XorWordZero(XorWord(s, t));
  }

  lemma XorWordZero(x: word)
    ensures XorWord(x, 0) == x
  {
    WordLimit();
    XorDigitsZero(x, 32);
  }

  // ---- One-word keys ----

  function HashWord(k: word): word {
    Finish(XorWord(Round(0, k), 4))
  }

  function UnhashWord(h: word): word {
    Unround(XorWord(Unfinish(h), 4))
  }

  function Unround(h: word): word {
    var scrambled := Rotr13(Times(Minus(h, 0xe6546b64), 0xcccccccd));
    Times(Rotr15(Times(scrambled, 0x56ed309b)), 0xdee13bb1)
  }

  function Unfinish(h: word): word {
    Fold16(Times(Unfold13(Times(Fold16(h), 0x7ed1b41d)), 0xa5cb9243))
  }

  lemma OneWord(key: seq<byte>)
    requires |key| == 4
    ensures Hash(key) == HashWord(Word(key))
  {
    hide Round, Finish, XorWord, Word;
    assert key[..4] == key && key[..0] == [] && key[0..] == key;
    assert Body(key) == Round(Body([]), Word(key));
  }

  lemma Inverses()
    ensures 0xcc9e2d51 * 0xdee13bb1 % TWO_TO_32 == 1
    ensures 0x1b873593 * 0x56ed309b % TWO_TO_32 == 1
    ensures 0x85ebca6b * 0xa5cb9243 % TWO_TO_32 == 1
    ensures 0xc2b2ae35 * 0x7ed1b41d % TWO_TO_32 == 1
    ensures 5 * 0xcccccccd % TWO_TO_32 == 1
  {
  }

  lemma RoundInverts(k: word)
    ensures Unround(Round(0, k)) == k && Round(0, Unround(k)) == k
  {
    hide Times, Plus, Minus, XorWord, Rotl13, Rotl15, Rotr13, Rotr15;
    Inverses();
    var a := Times(k, 0xcc9e2d51);
    var b := Rotl15(a);
    var c := Times(b, 0x1b873593);
    var d := Rotl13(c);
    XorInverts(c, 0);
    PlusInverts(Times(d, 5), 0xe6546b64);
    TimesInverts(d, 5, 0xcccccccd);
    Rotl13Inverts(c);
    TimesInverts(b, 0x1b873593, 0x56ed309b);
    Rotl15Inverts(a);
    TimesInverts(k, 0xcc9e2d51, 0xdee13bb1);
    var m := Minus(k, 0xe6546b64);
    var n := Times(m, 0xcccccccd);
    var o := Rotr13(n);
    var p := Times(o, 0x56ed309b);
    var q := Rotr15(p);
    TimesInverts(q, 0xdee13bb1, 0xcc9e2d51);
    Rotl15Inverts(p);
    TimesInverts(o, 0x56ed309b, 0x1b873593);
    XorInverts(o, 0);
    Rotl13Inverts(n);
    TimesInverts(m, 0xcccccccd, 5);
    PlusInverts(k, 0xe6546b64);
  }

  lemma FinishInverts(h: word)
    ensures Unfinish(Finish(h)) == h && Finish(Unfinish(h)) == h
  {
    hide Times, Fold13, Fold16, Unfold13;
    Inverses();
    var a := Fold16(h);
    var b := Times(a, 0x85ebca6b);
    var c := Fold13(b);
    var d := Times(c, 0xc2b2ae35);
    Fold16Inverts(d);
    TimesInverts(c, 0xc2b2ae35, 0x7ed1b41d);
    Fold13Inverts(b);
    TimesInverts(a, 0x85ebca6b, 0xa5cb9243);
    Fold16Inverts(h);
    var e := Times(a, 0x7ed1b41d);
    var f := Unfold13(e);
    var g := Times(f, 0xa5cb9243);
    Fold16Inverts(g);
    TimesInverts(f, 0xa5cb9243, 0x85ebca6b);
    Fold13Inverts(e);
    TimesInverts(a, 0x7ed1b41d, 0xc2b2ae35);
  }

  // On one-word keys the hash is a bijection of the 32-bit values.
  lemma HashWordIsBijection(k: word)
    ensures UnhashWord(HashWord(k)) == k && HashWord(UnhashWord(k)) == k
  {
    hide Finish, Unfinish, Round, Unround, XorWord;
    FinishInverts(XorWord(Round(0, k), 4));
    XorInverts(Round(0, k), 4);
    RoundInverts(k);
    FinishInverts(k);
    RoundInverts(XorWord(Unfinish(k), 4));
    XorInverts(Unfinish(k), 4);
  }

  // ---- Keys that differ in one place ----

  // The state before a round, from the state after it.
  function RoundBack(g: word, k: word): word {
    XorWord(Rotr13(Times(Minus(g, 0xe6546b64), 0xcccccccd)), Scramble(k))
  }

  lemma RoundUndone(h: word, k: word)
    ensures RoundBack(Round(h, k), k) == h
  {
    hide Times, Plus, Minus, XorWord, Rotl13, Rotr13, Scramble;
    Inverses();
    var x := XorWord(h, Scramble(k));
    var d := Rotl13(x);
    PlusInverts(Times(d, 5), 0xe6546b64);
    TimesInverts(d, 5, 0xcccccccd);
    Rotl13Inverts(x);
    XorInverts(h, Scramble(k));
  }

  lemma ScrambleIsInjective(k: word, l: word)
    requires Scramble(k) == Scramble(l)
    ensures k == l
  {
    hide Times, Plus, XorWord, Rotl13, Scramble, Unround;
    RoundInverts(k);
    RoundInverts(l);
  }

  lemma FirstOfWord(s: seq<byte>)
    requires 0 < |s| <= 4
    ensures Word(s) % 256 == s[0]
  {
  }

  // Whole words that agree but for the first one give different states if it differs.
  lemma {:induction false} FirstWordMatters(a: seq<byte>, b: seq<byte>)
    requires |a| == |b| > 0 && |a| % 4 == 0 && a[4..] == b[4..]
    requires Body(a) == Body(b)
    ensures Word(a[..4]) == Word(b[..4])
    decreases |a|
  {
    hide Round, RoundBack, Word;
    var n := |a| - 4;
    if n == 0 {
      assert a[..4] == a && b[..4] == b && a[n..] == a && b[n..] == b;
      assert a[..n] == [] == b[..n];
      RoundInverts(Word(a));
      RoundInverts(Word(b));
    } else {
      assert a[n..] == a[4..][n - 4..] == b[4..][n - 4..] == b[n..];
      RoundUndone(Body(a[..n]), Word(a[n..]));
      RoundUndone(Body(b[..n]), Word(b[n..]));
      assert a[..n][4..] == a[4..][..n - 4] == b[4..][..n - 4] == b[..n][4..];
      FirstWordMatters(a[..n], b[..n]);
      assert a[..n][..4] == a[..4] && b[..n][..4] == b[..4];
    }
  }

  lemma FinishIsInjective(g: word, h: word)
    requires Finish(g) == Finish(h)
    ensures g == h
  {
    hide Finish, Unfinish;
    FinishInverts(g);
    FinishInverts(h);
  }

  lemma SlicesAgree(a: seq<byte>, b: seq<byte>, n: nat)
    requires 4 <= n <= |a| == |b| && a[1..] == b[1..]
    ensures a[n..] == b[n..] && a[..n][4..] == b[..n][4..]
  {
    forall k | 0 < k < |a|
      ensures a[k] == b[k]
    {
      assert a[1..][k - 1] == b[1..][k - 1];
    }
  }

  // Keys that differ in their first byte alone have different hashes.
  lemma FirstByteMatters(a: seq<byte>, b: seq<byte>)
    requires |a| == |b| > 0 && a[1..] == b[1..] && Hash(a) == Hash(b)
    ensures a == b
  {
    hide Body, Finish, XorWord, Scramble, Word, Round;
    var n := |a| / 4 * 4;
    var ha, hb := Body(a[..n]), Body(b[..n]);
    var ta := if n == |a| then ha else XorWord(ha, Scramble(Word(a[n..])));
    var tb := if n == |b| then hb else XorWord(hb, Scramble(Word(b[n..])));
    FinishIsInjective(XorWord(ta, |a| % TWO_TO_32), XorWord(tb, |b| % TWO_TO_32));
    XorInverts(ta, |a| % TWO_TO_32);
    XorInverts(tb, |a| % TWO_TO_32);
    if n == 0 {
      assert a[..n] == b[..n] == [] && a[n..] == a && b[n..] == b;
      BodyStart();
      XorInverts(Scramble(Word(a)), 0);
      XorInverts(Scramble(Word(b)), 0);
      ScrambleIsInjective(Word(a), Word(b));
      FirstOfWord(a);
      FirstOfWord(b);
    } else {
      SlicesAgree(a, b, n);
      if n < |a| {
        XorInverts(ha, Scramble(Word(a[n..])));
        XorInverts(hb, Scramble(Word(a[n..])));
      }
      FirstWordMatters(a[..n], b[..n]);
      FirstOfWord(a[..n][..4]);
      FirstOfWord(b[..n][..4]);
    }
    assert a == [a[0]] + a[1..] && b == [b[0]] + b[1..];
  }

  // ---- Client numbers as keys ----

  // The key under which a client is filed: the hash of the four bytes of its number.
  function IdKey(id: word): word {
    Hash(ToLittleEndian(id, 4))
  }

  // Distinct numbers are filed under distinct keys.
  lemma IdKeyIsInjective(a: word, b: word)
    ensures IdKey(a) == IdKey(b) ==> a == b
  {
    hide Hash, HashWord, UnhashWord;
    WordLimit();
    NativeRoundTrip(a, 4);
    NativeRoundTrip(b, 4);
    OneWord(ToLittleEndian(a, 4));
    OneWord(ToLittleEndian(b, 4));
    HashWordIsBijection(a);
    HashWordIsBijection(b);
  }
}
