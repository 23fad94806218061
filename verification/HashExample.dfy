// Hashes of some keys, worked out.
module HashExamples {
  import opened Bytes
  import opened Murmur
  import opened Bits

  // ---- Exclusive-or on words, byte by byte ----

  // The word with these bytes, the highest first.
  function Of(a: bv8, b: bv8, c: bv8, d: bv8): word {
    Num(d) + 256 * (Num(c) + 256 * (Num(b) + 256 * Num(a)))
  }

  lemma XorOf(a: bv8, b: bv8, c: bv8, d: bv8, a': bv8, b': bv8, c': bv8, d': bv8)
    ensures XorWord(Of(a, b, c, d), Of(a', b', c', d'))
         == Of(Either(a, a'), Either(b, b'), Either(c, c'), Either(d, d'))
  {
    XorWordIs(Of(a, b, c, d), Of(a', b', c', d'));
    hide XorDigits, XorWord, Num, Either, Pow2;
    XorByte(a, a', 0, 0, 0);
    XorByte(b, b', Num(a), Num(a'), 8);
    XorByte(c, c', Num(b) + 256 * Num(a), Num(b') + 256 * Num(a'), 16);
    XorByte(d, d', Num(c) + 256 * (Num(b) + 256 * Num(a)), Num(c') + 256 * (Num(b') + 256 * Num(a')), 24);
    NoDigits();
  }

  lemma XorWordIs(x: word, y: word)
    ensures XorWord(x, y) == XorDigits(x, y, 32)
  {
  }

  lemma XorByte(x: bv8, y: bv8, high: nat, high': nat, n: nat)
    ensures XorDigits(Num(x) + 256 * high, Num(y) + 256 * high', 8 + n) == Num(Either(x, y)) + 256 * XorDigits(high, high', n)
  {
    hide XorDigits, Pow2, Num, Either;
    Bound(x);
    Bound(y);
    XorBits(x, y, 8);
    XorSplits(Num(x), Num(y), high, high', 8, n);
  }

  lemma Bound(x: bv8)
    ensures Num(x) < Pow2(8) == 256
  {
  }

  lemma NoDigits()
    ensures XorDigits(0, 0, 0) == 0
  {
  }

  // ---- The steps, with what comes out in between ----

  lemma ScrambleIs(k: word, a: word, b: word, c: word)
    requires k * 0xcc9e2d51 % 0x1_0000_0000 == a && a % 0x2_0000 * 0x8000 + a / 0x2_0000 == b
    requires b * 0x1b873593 % 0x1_0000_0000 == c
    ensures Scramble(k) == c
  {
    Rotl15Is(a);
    hide Rotl15;
  }

  lemma RoundIs(h: word, k: word, c: word, x: word, d: word, y: word)
    requires x % 0x8_0000 * 0x2000 + x / 0x8_0000 == d && (d * 5 + 0xe6546b64) % 0x1_0000_0000 == y
    requires Scramble(k) == c && XorWord(h, c) == x
    ensures Round(h, k) == y
  {
    hide XorWord, Rotl13, Scramble;
    Rotl13Is(x);
  }

  lemma FinishIs(h: word, g: word, m: word, q: word, r: word, z: word)
    requires XorWord(h, h / 0x1_0000) == g && g * 0x85ebca6b % 0x1_0000_0000 == m
    requires XorWord(m, m / 0x2000) == q && q * 0xc2b2ae35 % 0x1_0000_0000 == r
    requires XorWord(r, r / 0x1_0000) == z
    ensures Finish(h) == z
  {
    hide XorWord;
  }

  // ---- Keys word by word ----

  lemma NoWords(key: seq<byte>)
    ensures Body(key[..0]) == 0
  {
  }

  function At(s: seq<byte>, i: nat): nat {
    if i < |s| then s[i] else 0
  }

  lemma WordIs(s: seq<byte>)
    requires |s| <= 4
    ensures Word(s) == At(s, 0) + 0x100 * At(s, 1) + 0x1_0000 * At(s, 2) + 0x100_0000 * At(s, 3)
  {
    hide Pow256;
    NativeIs(s);
  }

  lemma NativeIs(s: seq<byte>)
    ensures s == [] ==> Native(s) == 0
    ensures |s| == 1 ==> Native(s) == s[0]
    ensures |s| == 2 ==> Native(s) == At(s, 0) + 0x100 * At(s, 1)
    ensures |s| == 3 ==> Native(s) == At(s, 0) + 0x100 * At(s, 1) + 0x1_0000 * At(s, 2)
    ensures |s| == 4 ==> Native(s) == At(s, 0) + 0x100 * At(s, 1) + 0x1_0000 * At(s, 2) + 0x100_0000 * At(s, 3)
  {
  }

  // One more word of the key.
  lemma Onward(key: seq<byte>, at: nat, k: word)
    requires at % 4 == 0 && at + 4 <= |key|
    requires At(key, at) + 0x100 * At(key, at + 1) + 0x1_0000 * At(key, at + 2) + 0x100_0000 * At(key, at + 3) == k
    ensures Body(key[..at + 4]) == Round(Body(key[..at]), k)
  {
    hide Body, Round, Word;
    WordIs(key[at..at + 4]);
    BodyStep(key, at);
  }

  // The end of the key: what the tail gives is combined with the state, then the length.
  lemma HashIs(key: seq<byte>, n: nat, h: word, t: word, f: word, z: word)
    requires n == |key| / 4 * 4 && Body(key[..n]) == h && |key| < 100
    requires t == if n == |key| then h else XorWord(h, Scramble(Word(key[n..])))
    requires XorWord(t, |key|) == f && Finish(f) == z
    ensures Hash(key) == z
  {
    hide Body, Finish, XorWord, Scramble, Word;
  }

  // "hello"
  const HELLO: seq<byte> := [0x68, 0x65, 0x6c, 0x6c, 0x6f]

  lemma HelloScrambled()
    ensures Scramble(0x6c6c6568) == 0xa0ae7465
    ensures Scramble(0x6f) == 0x73bcd07e
  {
    hide Scramble;
    ScrambleIs(0x6c6c6568, 0xd24f5de8, 0xaef46927, 0xa0ae7465);
    ScrambleIs(0x6f, 0xb895a61f, 0xd30fdc4a, 0x73bcd07e);
  }

  lemma HelloWords()
    ensures Body(HELLO[..4]) == 0xef13efcd
  {
    hide Body, Round, XorWord, Scramble;
    NoWords(HELLO);
    HelloScrambled();
    assert Body(HELLO[..4]) == 0xef13efcd by {
      Onward(HELLO, 0, 0x6c6c6568);
      XorOf(0x00, 0x00, 0x00, 0x00, 0xa0, 0xae, 0x74, 0x65);
      RoundIs(0x0, 0x6c6c6568, 0xa0ae7465, 0xa0ae7465, 0xce8cb415, 0xef13efcd);
    }
  }

  lemma HelloFinish()
    ensures Finish(0x9caf3fb6) == 0x248bfa47
  {
    hide Finish, XorWord;
    XorOf(0x9c, 0xaf, 0x3f, 0xb6, 0x00, 0x00, 0x9c, 0xaf);
    XorOf(0xc9, 0x0d, 0xe5, 0x73, 0x00, 0x06, 0x48, 0x6f);
    XorOf(0x24, 0x8b, 0xde, 0xcc, 0x00, 0x00, 0x24, 0x8b);
    FinishIs(0x9caf3fb6, 0x9cafa319, 0xc90de573, 0xc90bad1c, 0x248bdecc, 0x248bfa47);
  }

  lemma Hello()
    ensures Hash(HELLO) == 0x248bfa47
  {
    hide Hash, Body, Finish, XorWord, Scramble, Word;
    HelloWords();
    HelloScrambled();
    assert Word(HELLO[4..]) == 0x6f by {
      assert HELLO[4..] == [0x6f];
      WordIs(HELLO[4..]);
    }
    XorOf(0xef, 0x13, 0xef, 0xcd, 0x73, 0xbc, 0xd0, 0x7e);
    XorOf(0x9c, 0xaf, 0x3f, 0xb3, 0x00, 0x00, 0x00, 0x05);
    HelloFinish();
    HashIs(HELLO, 4, 0xef13efcd, 0x9caf3fb3, 0x9caf3fb6, 0x248bfa47);
  }

  // "Upgrade", with the zero byte behind it
  const UPGRADE: seq<byte> := [0x55, 0x70, 0x67, 0x72, 0x61, 0x64, 0x65, 0x00]

  lemma UpgradeScrambled()
    ensures Scramble(0x72677055) == 0xe9ec58d5
    ensures Scramble(0x656461) == 0xb8a98d11
  {
    hide Scramble;
    ScrambleIs(0x72677055, 0x71ef7be5, 0xbdf2b8f7, 0xe9ec58d5);
    ScrambleIs(0x656461, 0x3297cfb1, 0xe7d8994b, 0xb8a98d11);
  }

  lemma UpgradeWords()
    ensures Body(UPGRADE[..8]) == 0x20a702ca
  {
    hide Body, Round, XorWord, Scramble;
    NoWords(UPGRADE);
    UpgradeScrambled();
    assert Body(UPGRADE[..4]) == 0x9dda1d95 by {
      Onward(UPGRADE, 0, 0x72677055);
      XorOf(0x00, 0x00, 0x00, 0x00, 0xe9, 0xec, 0x58, 0xd5);
      RoundIs(0x0, 0x72677055, 0xe9ec58d5, 0xe9ec58d5, 0x8b1abd3d, 0x9dda1d95);
    }
    assert Body(UPGRADE[..8]) == 0x20a702ca by {
      Onward(UPGRADE, 4, 0x656461);
      XorOf(0x9d, 0xda, 0x1d, 0x95, 0xb8, 0xa9, 0x8d, 0x11);
      RoundIs(0x9dda1d95, 0x656461, 0xb8a98d11, 0x25739084, 0x721084ae, 0x20a702ca);
    }
  }

  lemma UpgradeFinish()
    ensures Finish(0x20a702c2) == 0x40f19002
  {
    hide Finish, XorWord;
    XorOf(0x20, 0xa7, 0x02, 0xc2, 0x00, 0x00, 0x20, 0xa7);
    XorOf(0x92, 0xb6, 0x12, 0x37, 0x00, 0x04, 0x95, 0xb0);
    XorOf(0x40, 0xf1, 0xd0, 0xf3, 0x00, 0x00, 0x40, 0xf1);
    FinishIs(0x20a702c2, 0x20a72265, 0x92b61237, 0x92b28787, 0x40f1d0f3, 0x40f19002);
  }

  lemma Upgrade()
    ensures Hash(UPGRADE) == 0x40f19002
  {
    hide Hash, Body, Finish, XorWord, Scramble, Word;
    UpgradeWords();
    XorOf(0x20, 0xa7, 0x02, 0xca, 0x00, 0x00, 0x00, 0x08);
    UpgradeFinish();
    HashIs(UPGRADE, 8, 0x20a702ca, 0x20a702ca, 0x20a702c2, 0x40f19002);
  }

  // "Connection", with the zero byte behind it
  const CONNECTION: seq<byte> := [0x43, 0x6f, 0x6e, 0x6e, 0x65, 0x63, 0x74, 0x69, 0x6f, 0x6e, 0x00]

  lemma ConnectionScrambled()
    ensures Scramble(0x6e6e6f43) == 0xbe2bbf84
    ensures Scramble(0x69746365) == 0x9718e603
    ensures Scramble(0x6e6f) == 0x47837f05
  {
    hide Scramble;
    ScrambleIs(0x6e6e6f43, 0x69d9fb33, 0xfd99b4ec, 0xbe2bbf84);
    ScrambleIs(0x69746365, 0xa7a233f5, 0x19fad3d1, 0x9718e603);
    ScrambleIs(0x6e6f, 0xb00e741f, 0x3a0fd807, 0x47837f05);
  }

  lemma ConnectionWords()
    ensures Body(CONNECTION[..8]) == 0x98fb9513
  {
    hide Body, Round, XorWord, Scramble;
    NoWords(CONNECTION);
    ConnectionScrambled();
    assert Body(CONNECTION[..4]) == 0x3e07623d by {
      Onward(CONNECTION, 0, 0x6e6e6f43);
      XorOf(0x00, 0x00, 0x00, 0x00, 0xbe, 0x2b, 0xbf, 0x84);
      RoundIs(0x0, 0x6e6e6f43, 0xbe2bbf84, 0xbe2bbf84, 0x77f097c5, 0x3e07623d);
    }
    assert Body(CONNECTION[..8]) == 0x98fb9513 by {
      Onward(CONNECTION, 4, 0x69746365);
      XorOf(0x3e, 0x07, 0x62, 0x3d, 0x97, 0x18, 0xe6, 0x03);
      RoundIs(0x3e07623d, 0x69746365, 0x9718e603, 0xa91f843e, 0xf087d523, 0x98fb9513);
    }
  }

  lemma ConnectionFinish()
    ensures Finish(0xdf78ea1d) == 0xf2e56c7e
  {
    hide Finish, XorWord;
    XorOf(0xdf, 0x78, 0xea, 0x1d, 0x00, 0x00, 0xdf, 0x78);
    XorOf(0xbe, 0x17, 0x03, 0x37, 0x00, 0x05, 0xf0, 0xb8);
    XorOf(0xf2, 0xe5, 0x9e, 0x9b, 0x00, 0x00, 0xf2, 0xe5);
    FinishIs(0xdf78ea1d, 0xdf783565, 0xbe170337, 0xbe12f38f, 0xf2e59e9b, 0xf2e56c7e);
  }

  lemma Connection()
    ensures Hash(CONNECTION) == 0xf2e56c7e
  {
    hide Hash, Body, Finish, XorWord, Scramble, Word;
    ConnectionWords();
    ConnectionScrambled();
    assert Word(CONNECTION[8..]) == 0x6e6f by {
      assert CONNECTION[8..] == [0x6f, 0x6e, 0x00];
      WordIs(CONNECTION[8..]);
    }
    XorOf(0x98, 0xfb, 0x95, 0x13, 0x47, 0x83, 0x7f, 0x05);
    XorOf(0xdf, 0x78, 0xea, 0x16, 0x00, 0x00, 0x00, 0x0b);
    ConnectionFinish();
    HashIs(CONNECTION, 8, 0x98fb9513, 0xdf78ea16, 0xdf78ea1d, 0xf2e56c7e);
  }

  // "Sec-WebSocket-Accept", with the zero byte behind it
  const ACCEPT: seq<byte> := [
    0x53, 0x65, 0x63, 0x2d, 0x57, 0x65, 0x62, 0x53, 0x6f, 0x63, 0x6b, 0x65,
    0x74, 0x2d, 0x41, 0x63, 0x63, 0x65, 0x70, 0x74, 0x00]

  lemma AcceptScrambled()
    ensures Scramble(0x2d636553) == 0x2b15cc9a
    ensures Scramble(0x53626557) == 0xce52a496
    ensures Scramble(0x656b636f) == 0x8a657321
    ensures Scramble(0x63412d74) == 0x755447ee
    ensures Scramble(0x74706563) == 0xe440119a
    ensures Scramble(0x0) == 0x0
  {
    hide Scramble;
    ScrambleIs(0x2d636553, 0x827ca643, 0x5321c13e, 0x2b15cc9a);
    ScrambleIs(0x53626557, 0x8da45b87, 0x2dc3c6d2, 0xce52a496);
    ScrambleIs(0x656b636f, 0xc9f6f91f, 0x7c8fe4fb, 0x8a657321);
    ScrambleIs(0x63412d74, 0x5a34c5b4, 0x62da2d1a, 0x755447ee);
    ScrambleIs(0x74706563, 0x107c7b53, 0x3da9883e, 0xe440119a);
    ScrambleIs(0x0, 0x0, 0x0, 0x0);
  }

  lemma AcceptTwoWords()
    ensures Body(ACCEPT[..8]) == 0xe41b98a0
  {
    hide Body, Round, XorWord, Scramble;
    NoWords(ACCEPT);
    AcceptScrambled();
    assert Body(ACCEPT[..4]) == 0x8634c64e by {
      Onward(ACCEPT, 0, 0x2d636553);
      XorOf(0x00, 0x00, 0x00, 0x00, 0x2b, 0x15, 0xcc, 0x9a);
      RoundIs(0x0, 0x2d636553, 0x2b15cc9a, 0x2b15cc9a, 0xb9934562, 0x8634c64e);
    }
    assert Body(ACCEPT[..8]) == 0xe41b98a0 by {
      Onward(ACCEPT, 4, 0x53626557);
      XorOf(0x86, 0x34, 0xc6, 0x4e, 0xce, 0x52, 0xa4, 0x96);
      RoundIs(0x8634c64e, 0x53626557, 0xce52a496, 0x486662d8, 0xcc5b090c, 0xe41b98a0);
    }
  }

  lemma AcceptFourWords()
    ensures Body(ACCEPT[..16]) == 0x95053b66
  {
    hide Body, Round, XorWord, Scramble;
    AcceptTwoWords();
    AcceptScrambled();
    assert Body(ACCEPT[..12]) == 0x3985506f by {
      Onward(ACCEPT, 8, 0x656b636f);
      XorOf(0xe4, 0x1b, 0x98, 0xa0, 0x8a, 0x65, 0x73, 0x21);
      RoundIs(0xe41b98a0, 0x656b636f, 0x8a657321, 0x6e7eeb81, 0xdd702dcf, 0x3985506f);
    }
    assert Body(ACCEPT[..16]) == 0x95053b66 by {
      Onward(ACCEPT, 12, 0x63412d74);
      XorOf(0x39, 0x85, 0x50, 0x6f, 0x75, 0x54, 0x47, 0xee);
      RoundIs(0x3985506f, 0x63412d74, 0x755447ee, 0x4cd11781, 0x22f0299a, 0x95053b66);
    }
  }

  lemma AcceptWords()
    ensures Body(ACCEPT[..20]) == 0x2132322c
  {
    hide Body, Round, XorWord, Scramble;
    AcceptFourWords();
    AcceptScrambled();
    assert Body(ACCEPT[..20]) == 0x2132322c by {
      Onward(ACCEPT, 16, 0x74706563);
      XorOf(0x95, 0x05, 0x3b, 0x66, 0xe4, 0x40, 0x11, 0x9a);
      RoundIs(0x95053b66, 0x74706563, 0xe440119a, 0x71452afc, 0xa55f8e28, 0x2132322c);
    }
  }

  lemma AcceptFinish()
    ensures Finish(0x21323239) == 0x38a76923
  {
    hide Finish, XorWord;
    XorOf(0x21, 0x32, 0x32, 0x39, 0x00, 0x00, 0x21, 0x32);
    XorOf(0x95, 0x0d, 0xa3, 0x99, 0x00, 0x04, 0xa8, 0x6d);
    XorOf(0x38, 0xa7, 0x51, 0x84, 0x00, 0x00, 0x38, 0xa7);
    FinishIs(0x21323239, 0x2132130b, 0x950da399, 0x95090bf4, 0x38a75184, 0x38a76923);
  }

  lemma Accept()
    ensures Hash(ACCEPT) == 0x38a76923
  {
    hide Hash, Body, Finish, XorWord, Scramble, Word;
    AcceptWords();
    AcceptScrambled();
    assert Word(ACCEPT[20..]) == 0x0 by {
      assert ACCEPT[20..] == [0x00];
      WordIs(ACCEPT[20..]);
    }
    XorOf(0x21, 0x32, 0x32, 0x2c, 0x00, 0x00, 0x00, 0x00);
    XorOf(0x21, 0x32, 0x32, 0x2c, 0x00, 0x00, 0x00, 0x15);
    AcceptFinish();
    HashIs(ACCEPT, 20, 0x2132322c, 0x2132322c, 0x21323239, 0x38a76923);
  }

  // "HOST", with the zero byte behind it
  const HOST: seq<byte> := [0x48, 0x4f, 0x53, 0x54, 0x00]

  lemma HostScrambled()
    ensures Scramble(0x54534f48) == 0x35632fe7
    ensures Scramble(0x0) == 0x0
  {
    hide Scramble;
    ScrambleIs(0x54534f48, 0xa1bbbdc8, 0xdee450dd, 0x35632fe7);
    ScrambleIs(0x0, 0x0, 0x0, 0x0);
  }

  lemma HostWords()
    ensures Body(HOST[..4]) == 0xe444ecc0
  {
    hide Body, Round, XorWord, Scramble;
    NoWords(HOST);
    HostScrambled();
    assert Body(HOST[..4]) == 0xe444ecc0 by {
      Onward(HOST, 0, 0x54534f48);
      XorOf(0x00, 0x00, 0x00, 0x00, 0x35, 0x63, 0x2f, 0xe7);
      RoundIs(0x0, 0x54534f48, 0x35632fe7, 0x35632fe7, 0x65fce6ac, 0xe444ecc0);
    }
  }

  lemma HostFinish()
    ensures Finish(0xe444ecc5) == 0x2697342a
  {
    hide Finish, XorWord;
    XorOf(0xe4, 0x44, 0xec, 0xc5, 0x00, 0x00, 0xe4, 0x44);
    XorOf(0xea, 0x90, 0x57, 0xeb, 0x00, 0x07, 0x54, 0x82);
    XorOf(0x26, 0x97, 0x12, 0xbd, 0x00, 0x00, 0x26, 0x97);
    FinishIs(0xe444ecc5, 0xe4440881, 0xea9057eb, 0xea970369, 0x269712bd, 0x2697342a);
  }

  lemma Host()
    ensures Hash(HOST) == 0x2697342a
  {
    hide Hash, Body, Finish, XorWord, Scramble, Word;
    HostWords();
    HostScrambled();
    assert Word(HOST[4..]) == 0x0 by {
      assert HOST[4..] == [0x00];
      WordIs(HOST[4..]);
    }
    XorOf(0xe4, 0x44, 0xec, 0xc0, 0x00, 0x00, 0x00, 0x00);
    XorOf(0xe4, 0x44, 0xec, 0xc0, 0x00, 0x00, 0x00, 0x05);
    HostFinish();
    HashIs(HOST, 4, 0xe444ecc0, 0xe444ecc0, 0xe444ecc5, 0x2697342a);
  }

  // "SEC-WEBSOCKET-KEY", with the zero byte behind it
  const KEY: seq<byte> := [
    0x53, 0x45, 0x43, 0x2d, 0x57, 0x45, 0x42, 0x53, 0x4f, 0x43, 0x4b, 0x45,
    0x54, 0x2d, 0x4b, 0x45, 0x59, 0x00]

  lemma KeyScrambled()
    ensures Scramble(0x2d434553) == 0x4ea04b1b
    ensures Scramble(0x53424557) == 0xf1dd2317
    ensures Scramble(0x454b434f) == 0x3604d549
    ensures Scramble(0x454b2d54) == 0x57fe2324
    ensures Scramble(0x59) == 0xbae0a15a
  {
    hide Scramble;
    ScrambleIs(0x2d434553, 0x12b28643, 0x43218959, 0x4ea04b1b);
    ScrambleIs(0x53424557, 0x1dda3b87, 0x1dc38eed, 0xf1dd2317);
    ScrambleIs(0x454b434f, 0xa6672eff, 0x977fd333, 0x3604d549);
    ScrambleIs(0x454b2d54, 0xd991b94, 0x8dca06cc, 0x57fe2324);
    ScrambleIs(0x59, 0x22fdc129, 0xe094917e, 0xbae0a15a);
  }

  lemma KeyTwoWords()
    ensures Body(KEY[..8]) == 0x22185a43
  {
    hide Body, Round, XorWord, Scramble;
    NoWords(KEY);
    KeyScrambled();
    assert Body(KEY[..4]) == 0x15457c88 by {
      Onward(KEY, 0, 0x2d434553);
      XorOf(0x00, 0x00, 0x00, 0x00, 0x4e, 0xa0, 0x4b, 0x1b);
      RoundIs(0x0, 0x2d434553, 0x4ea04b1b, 0x4ea04b1b, 0x96369d4, 0x15457c88);
    }
    assert Body(KEY[..8]) == 0x22185a43 by {
      Onward(KEY, 4, 0x53424557);
      XorOf(0x15, 0x45, 0x7c, 0x88, 0xf1, 0xdd, 0x23, 0x17);
      RoundIs(0x15457c88, 0x53424557, 0xf1dd2317, 0xe4985f9f, 0xbf3fc93, 0x22185a43);
    }
  }

  lemma KeyWords()
    ensures Body(KEY[..16]) == 0xc35b5c8c
  {
    hide Body, Round, XorWord, Scramble;
    KeyTwoWords();
    KeyScrambled();
    assert Body(KEY[..12]) == 0xbfbab7f3 by {
      Onward(KEY, 8, 0x454b434f);
      XorOf(0x22, 0x18, 0x5a, 0x43, 0x36, 0x04, 0xd5, 0x49);
      RoundIs(0x22185a43, 0x454b434f, 0x3604d549, 0x141c8f0a, 0x91e14283, 0xbfbab7f3);
    }
    assert Body(KEY[..16]) == 0xc35b5c8c by {
      Onward(KEY, 12, 0x454b2d54);
      XorOf(0xbf, 0xba, 0xb7, 0xf3, 0x57, 0xfe, 0x23, 0x24);
      RoundIs(0xbfbab7f3, 0x454b2d54, 0x57fe2324, 0xe84494d7, 0x929afd08, 0xc35b5c8c);
    }
  }

  lemma KeyFinish()
    ensures Finish(0x79bbfdc4) == 0xf6d9bcf4
  {
    hide Finish, XorWord;
    XorOf(0x79, 0xbb, 0xfd, 0xc4, 0x00, 0x00, 0x79, 0xbb);
    XorOf(0x73, 0x81, 0x97, 0x15, 0x00, 0x03, 0x9c, 0x0c);
    XorOf(0xf6, 0xd9, 0x4a, 0x2d, 0x00, 0x00, 0xf6, 0xd9);
    FinishIs(0x79bbfdc4, 0x79bb847f, 0x73819715, 0x73820b19, 0xf6d94a2d, 0xf6d9bcf4);
  }

  lemma Key()
    ensures Hash(KEY) == 0xf6d9bcf4
  {
    hide Hash, Body, Finish, XorWord, Scramble, Word;
    KeyWords();
    KeyScrambled();
    assert Word(KEY[16..]) == 0x59 by {
      assert KEY[16..] == [0x59, 0x00];
      WordIs(KEY[16..]);
    }
    XorOf(0xc3, 0x5b, 0x5c, 0x8c, 0xba, 0xe0, 0xa1, 0x5a);
    XorOf(0x79, 0xbb, 0xfd, 0xd6, 0x00, 0x00, 0x00, 0x12);
    KeyFinish();
    HashIs(KEY, 16, 0xc35b5c8c, 0x79bbfdd6, 0x79bbfdc4, 0xf6d9bcf4);
  }
}
