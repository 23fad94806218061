// The UTF-8 automaton that runs while a payload is unmasked, against the
// definition of UTF-8 in sections 3 and 4 of RFC 3629.
module Utf8 {
  import opened Bytes
  import opened Wrappers

  // What the next octet is expected to be. `Anything` switches validation off.
  datatype State =
    | Anything
    | Char
    | Octets3First   // after E0
    | Octets3Second  // after ED
    | Octets4First   // after F0
    | Octets4Second  // after F4
    | Tail
    | TailX2
    | TailX3

  predicate IsTail(b: byte) {
    0x80 <= b <= 0xBF
  }

  function Step(s: State, b: byte): Option<State> {
    match s
    case Anything => Some(Anything)
    case Char =>
      if b <= 0x7F then Some(Char)
      else if 0xC2 <= b <= 0xDF then Some(Tail)
      else if b == 0xE0 then Some(Octets3First)
      else if 0xE1 <= b <= 0xEC then Some(TailX2)
      else if b == 0xED then Some(Octets3Second)
      else if 0xEE <= b <= 0xEF then Some(TailX2)
      else if b == 0xF0 then Some(Octets4First)
      else if 0xF1 <= b <= 0xF3 then Some(TailX3)
      else if b == 0xF4 then Some(Octets4Second)
      else None
    case Octets3First => if 0xA0 <= b <= 0xBF then Some(Tail) else None
    case Octets3Second => if 0x80 <= b <= 0x9F then Some(Tail) else None
    case Octets4First => if 0x90 <= b <= 0xBF then Some(TailX2) else None
    case Octets4Second => if 0x80 <= b <= 0x8F then Some(TailX2) else None
    case Tail => if IsTail(b) then Some(Char) else None
    case TailX2 => if IsTail(b) then Some(Tail) else None
    case TailX3 => if IsTail(b) then Some(TailX2) else None
  }

  // The state after all of bs, or None once an octet is refused.
  function Run(s: State, bs: seq<byte>): Option<State> {
    if bs == [] then Some(s)
    else
      match Run(s, bs[..|bs| - 1])
      case None => None
      case Some(t) => Step(t, bs[|bs| - 1])
  }

  // A message may only end between two characters.
  predicate MayEnd(s: State) {
    s == Char || s == Anything
  }

  // ---- The definition of UTF-8 ----

  type Scalar = c: int | 0 <= c < 0xD800 || 0xE000 <= c <= 0x10FFFF

  // Section 3 of RFC 3629: the octets of one character number.
  function EncodeScalar(c: Scalar): seq<byte> {
    if c < 0x80 then [c]
    else if c < 0x800 then [0xC0 + c / 64, 0x80 + c % 64]
    else if c < 0x10000 then [0xE0 + c / 64 / 64, 0x80 + c / 64 % 64, 0x80 + c % 64]
    else [0xF0 + c / 64 / 64 / 64, 0x80 + c / 64 / 64 % 64, 0x80 + c / 64 % 64, 0x80 + c % 64]
  }

  function EncodeAll(cs: seq<Scalar>): seq<byte> {
    if cs == [] then [] else EncodeScalar(cs[0]) + EncodeAll(cs[1..])
  }

  ghost predicate Valid(bs: seq<byte>) {
    exists cs: seq<Scalar> :: EncodeAll(cs) == bs
  }

  // Some continuation makes bs valid.
  ghost predicate Viable(bs: seq<byte>) {
    exists more: seq<byte> :: Valid(bs + more)
  }

  // ---- Running the automaton in pieces ----

  lemma {:induction false} RunConcat(s: State, a: seq<byte>, b: seq<byte>)
    ensures Run(s, a + b) == match Run(s, a) case None => None case Some(t) => Run(t, b)
  {
    if b == [] {
      assert a + b == a;
    } else {
      RunConcat(s, a, b[..|b| - 1]);
      assert (a + b)[..|a + b| - 1] == a + b[..|b| - 1];
    }
  }

  lemma RunCons(s: State, b: byte, rest: seq<byte>)
    ensures Run(s, [b] + rest) == match Step(s, b) case None => None case Some(t) => Run(t, rest)
  {
    RunConcat(s, [b], rest);
    RunOne(s, b);
  }

  lemma RunOne(s: State, b: byte)
    ensures Run(s, [b]) == Step(s, b)
  {
    assert [b][..0] == [];
  }

  lemma RunEmpty(s: State, bs: seq<byte>)
    ensures Run(s, bs[..0]) == Some(s)
  {
  }

  // One more octet of a longer run; once refused, the whole run is refused.
  lemma RunNext(s: State, bs: seq<byte>, i: nat)
    requires i < |bs|
    ensures Run(s, bs[..i + 1]) == match Run(s, bs[..i]) case None => None case Some(t) => Step(t, bs[i])
    ensures Run(s, bs[..i + 1]).None? ==> Run(s, bs).None?
  {
    assert bs[..i + 1][..i] == bs[..i];
    RunConcat(s, bs[..i + 1], bs[i + 1..]);
    assert bs == bs[..i + 1] + bs[i + 1..];
  }

  lemma {:induction false} RunAnything(bs: seq<byte>)
    ensures Run(Anything, bs) == Some(Anything)
  {
    if bs != [] {
      RunAnything(bs[..|bs| - 1]);
    }
  }

  lemma {:induction false} RunNeverAnything(s: State, bs: seq<byte>)
    requires s != Anything
    ensures Run(s, bs) != Some(Anything)
  {
    if bs != [] {
      RunNeverAnything(s, bs[..|bs| - 1]);
    }
  }

  // ---- Every encoded character is accepted ----

  // Splitting a number into its last six bits and the rest.
  lemma SixBits(high: int, low: int)
    requires 0 <= low < 64
    ensures (high * 64 + low) / 64 == high && (high * 64 + low) % 64 == low
  {
  }

  lemma RunScalar(c: Scalar)
    ensures Run(Char, EncodeScalar(c)) == Some(Char)
  {
    if c < 0x80 {
      RunOne(Char, c);
    } else if c < 0x800 {
      RunTwo(c / 64, c % 64);
    } else {
      var q := c / 64;
      assert c < 0x10000 ==> q < 0x400;
      assert c < 0xD800 || 0xE000 <= c;
      assert q < 0x360 || 0x380 <= q;
      if c < 0x10000 {
        LeadOfThree(q / 64, q % 64);
        RunThree(Char, 0xE0 + q / 64, 0x80 + q % 64, 0x80 + c % 64);
      } else {
        RunLong(q, c % 64);
      }
    }
  }

  lemma RunTwo(high: nat, low: nat)
    requires 2 <= high < 32 && low < 64
    ensures Run(Char, [0xC0 + high, 0x80 + low]) == Some(Char)
  {
    assert [0xC0 + high, 0x80 + low] == [0xC0 + high] + [0x80 + low];
    RunCons(Char, 0xC0 + high, [0x80 + low]);
    RunOne(Tail, 0x80 + low);
  }

  lemma RunLong(q: nat, low: nat)
    requires 0x400 <= q < 0x4400 && low < 64
    ensures Run(Char, [0xF0 + q / 64 / 64, 0x80 + q / 64 % 64, 0x80 + q % 64, 0x80 + low]) == Some(Char)
  {
    var p := q / 64;
    assert 0x10 <= p < 0x110;
    LeadOfFour(p / 64, p % 64);
    RunFour(0xF0 + p / 64, 0x80 + p % 64, 0x80 + q % 64, 0x80 + low);
  }

  lemma LeadOfThree(z: nat, y: nat)
    requires z < 16 && y < 64
    requires 0x20 <= 64 * z + y && !(0x360 <= 64 * z + y < 0x380)
    ensures var s := Step(Char, 0xE0 + z); s.Some? && Step(s.value, 0x80 + y) == Some(Tail)
  {
  }

  lemma LeadOfFour(u: nat, z: nat)
    requires u < 5 && z < 64
    requires 0x10 <= 64 * u + z <= 0x10F
    ensures var s := Step(Char, 0xF0 + u); s.Some? && Step(s.value, 0x80 + z) == Some(TailX2)
  {
  }

  lemma RunFour(a: byte, b: byte, c: byte, d: byte)
    requires var s := Step(Char, a); s.Some? && Step(s.value, b) == Some(TailX2)
    requires IsTail(c) && IsTail(d)
    ensures Run(Char, [a, b, c, d]) == Some(Char)
  {
    assert [a, b, c, d] == [a] + [b, c, d];
    RunCons(Char, a, [b, c, d]);
    RunThree(Step(Char, a).value, b, c, d);
  }

  lemma RunThree(s: State, a: byte, b: byte, c: byte)
    ensures Run(s, [a, b, c]) ==
            match Step(s, a)
            case None => None
            case Some(t) =>
              match Step(t, b)
              case None => None
              case Some(u) => Step(u, c)
  {
    assert [a, b, c] == [a] + [b, c] && [b, c] == [b] + [c];
    RunCons(s, a, [b, c]);
    if Step(s, a).Some? {
      var t := Step(s, a).value;
      RunCons(t, b, [c]);
      if Step(t, b).Some? {
        RunOne(Step(t, b).value, c);
      }
    }
  }

  lemma {:induction false} RunScalars(cs: seq<Scalar>)
    ensures Run(Char, EncodeAll(cs)) == Some(Char)
  {
    if cs != [] {
      RunScalar(cs[0]);
      RunScalars(cs[1..]);
      RunConcat(Char, EncodeScalar(cs[0]), EncodeAll(cs[1..]));
    }
  }

  // ---- Everything accepted is a sequence of encoded characters ----

  // The character at the front of an accepted, non-empty byte sequence.
  lemma FirstScalar(bs: seq<byte>) returns (c: Scalar, rest: seq<byte>)
    requires bs != []
    requires Run(Char, bs) == Some(Char)
    ensures bs == EncodeScalar(c) + rest
    ensures Run(Char, rest) == Some(Char)
  {
    PeelOne(Char, bs);
    if bs[0] <= 0x7F {
      c, rest := bs[0], bs[1..];
    } else {
      PeelOne(Step(Char, bs[0]).value, bs[1..]);
      if Step(Char, bs[0]) == Some(Tail) {
        SixBits(bs[0] - 0xC0, bs[1] - 0x80);
        rest := bs[2..];
        var high: int := bs[0] - 0xC0;
        c := high * 64 + (bs[1] - 0x80);
        assert bs == [bs[0], bs[1]] + rest;
      } else {
        c, rest := FirstLongScalar(bs, Step(Char, bs[0]).value);
      }
    }
  }

  // Taking one octet off an accepted, non-empty byte sequence.
  lemma PeelOne(s: State, bs: seq<byte>)
    requires Run(s, bs) == Some(Char) && (s != Char || bs != [])
    ensures bs != [] && Step(s, bs[0]).Some? && Run(Step(s, bs[0]).value, bs[1..]) == Some(Char)
  {
    assert bs == [bs[0]] + bs[1..];
    RunCons(s, bs[0], bs[1..]);
  }

  // The same for a character of three or four octets, s being the state after its first.
  lemma FirstLongScalar(bs: seq<byte>, s: State) returns (c: Scalar, rest: seq<byte>)
    requires |bs| >= 2 && Step(Char, bs[0]) == Some(s) && s != Char && s != Tail
    requires Step(s, bs[1]).Some? && Run(Step(s, bs[1]).value, bs[2..]) == Some(Char)
    ensures bs == EncodeScalar(c) + rest
    ensures Run(Char, rest) == Some(Char)
  {
    PeelOne(Step(s, bs[1]).value, bs[2..]);
    if Step(s, bs[1]) == Some(Tail) {
      c := Join3(bs[0], bs[1], bs[2]);
      rest := bs[3..];
      assert bs == [bs[0], bs[1], bs[2]] + rest;
    } else {
      PeelOne(Tail, bs[3..]);
      c := Join4(bs[0], bs[1], bs[2], bs[3]);
      rest := bs[4..];
      assert bs == [bs[0], bs[1], bs[2], bs[3]] + rest;
    }
  }

  lemma Join3(a: byte, b: byte, d: byte) returns (c: Scalar)
    requires 0xE0 <= a <= 0xEF && IsTail(b) && IsTail(d)
    requires a == 0xE0 ==> 0xA0 <= b
    requires a == 0xED ==> b <= 0x9F
    ensures EncodeScalar(c) == [a, b, d]
  {
    var high := (a - 0xE0) * 64 + (b - 0x80);
    SixBits(a - 0xE0, b - 0x80);
    SixBits(high, d - 0x80);
    c := high * 64 + (d - 0x80);
  }

  lemma Join4(a: byte, b: byte, d: byte, e: byte) returns (c: Scalar)
    requires 0xF0 <= a <= 0xF4 && IsTail(b) && IsTail(d) && IsTail(e)
    requires a == 0xF0 ==> 0x90 <= b
    requires a == 0xF4 ==> b <= 0x8F
    ensures EncodeScalar(c) == [a, b, d, e]
  {
    var top := (a - 0xF0) * 64 + (b - 0x80);
    var high := top * 64 + (d - 0x80);
    SixBits(a - 0xF0, b - 0x80);
    SixBits(top, d - 0x80);
    SixBits(high, e - 0x80);
    c := high * 64 + (e - 0x80);
  }

  lemma {:induction false} AcceptedIsValid(bs: seq<byte>) returns (cs: seq<Scalar>)
    requires Run(Char, bs) == Some(Char)
    ensures EncodeAll(cs) == bs
    decreases |bs|
  {
    if bs == [] {
      cs := [];
    } else {
      var c, rest := FirstScalar(bs);
      var more := AcceptedIsValid(rest);
      cs := [c] + more;
    }
  }

  // The automaton accepts exactly the encodings of sequences of Unicode
  // scalar values: no surrogates, no overlong forms, nothing above U+10FFFF.
  lemma Exact(bs: seq<byte>)
    ensures Run(Char, bs) == Some(Char) <==> Valid(bs)
  {
    if Run(Char, bs) == Some(Char) {
      var cs := AcceptedIsValid(bs);
    }
    if Valid(bs) {
      var cs: seq<Scalar> :| EncodeAll(cs) == bs;
      RunScalars(cs);
    }
  }

  // ---- The automaton refuses an octet only when no continuation could help ----

  // Octets that lead from s back to the boundary between two characters.
  function Completion(s: State): seq<byte> {
    match s
    case Anything => []
    case Char => []
    case Octets3First => [0xA0, 0x80]
    case Octets3Second => [0x80, 0x80]
    case Octets4First => [0x90, 0x80, 0x80]
    case Octets4Second => [0x80, 0x80, 0x80]
    case Tail => [0x80]
    case TailX2 => [0x80, 0x80]
    case TailX3 => [0x80, 0x80, 0x80]
  }

  lemma CompletionCompletes(s: State)
    requires s != Anything
    ensures Run(s, Completion(s)) == Some(Char)
  {
    match s
    case Anything =>
    case Char =>
    case Octets3First => CompleteTwo(s, 0xA0);
    case Octets3Second => CompleteTwo(s, 0x80);
    case Octets4First => RunThree(s, 0x90, 0x80, 0x80);
    case Octets4Second => RunThree(s, 0x80, 0x80, 0x80);
    case Tail => RunOne(s, 0x80);
    case TailX2 => CompleteTwo(s, 0x80);
    case TailX3 => RunThree(s, 0x80, 0x80, 0x80);
  }

  lemma CompleteTwo(s: State, b: byte)
    requires Step(s, b) == Some(Tail)
    ensures Run(s, [b, 0x80]) == Some(Char)
  {
    assert [b, 0x80] == [b] + [0x80];
    RunCons(s, b, [0x80]);
    RunOne(Tail, 0x80);
  }

  lemma RefusesOnlyHopeless(bs: seq<byte>)
    ensures Run(Char, bs).Some? <==> Viable(bs)
  {
    if Run(Char, bs).Some? {
      var s := Run(Char, bs).value;
      RunNeverAnything(Char, bs);
      CompletionCompletes(s);
      RunConcat(Char, bs, Completion(s));
      Exact(bs + Completion(s));
    }
    if Viable(bs) {
      var more: seq<byte> :| Valid(bs + more);
      Exact(bs + more);
      RunConcat(Char, bs, more);
    }
  }
}
