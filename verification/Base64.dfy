// Base64, against section 4 of RFC 4648.
module Base64 {
  import opened Bytes
  import opened Wrappers

  const PAD: byte := '=' as int

  type sextet = x: int | 0 <= x < 64

  // The standard alphabet.
  function Basis(v: sextet): byte {
    if v < 26 then 'A' as int + v
    else if v < 52 then 'a' as int + (v - 26)
    else if v < 62 then '0' as int + (v - 52)
    else if v == 62 then '+' as int
    else '/' as int
  }

  function Value(c: byte): Option<sextet> {
    if 'A' as int <= c <= 'Z' as int then Some(c - 'A' as int)
    else if 'a' as int <= c <= 'z' as int then Some(c - 'a' as int + 26)
    else if '0' as int <= c <= '9' as int then Some(c - '0' as int + 52)
    else if c == '+' as int then Some(62)
    else if c == '/' as int then Some(63)
    else None
  }

  // The four sextets that three bytes spread over.
  function Quad(a: byte, b: byte, c: byte): (r: seq<byte>)
    ensures |r| == 4
  {
    [Basis(a / 4), Basis(a % 4 * 16 + b / 16), Basis(b % 16 * 4 + c / 64), Basis(c % 64)]
  }

  function Encode(s: seq<byte>): (r: seq<byte>) {
    if s == [] then []
    else if |s| == 1 then Quad(s[0], 0, 0)[..2] + [PAD, PAD]
    else if |s| == 2 then Quad(s[0], s[1], 0)[..3] + [PAD]
    else Quad(s[0], s[1], s[2]) + Encode(s[3..])
  }

  // Four characters of the alphabet give three bytes.
  function DecodeQuad(t: seq<byte>): Option<seq<byte>>
    requires |t| == 4
  {
    var p, q, r, s := Value(t[0]), Value(t[1]), Value(t[2]), Value(t[3]);
    if p.None? || q.None? || r.None? || s.None? then None
    else Some([p.value * 4 + q.value / 16, q.value % 16 * 16 + r.value / 4, r.value % 4 * 64 + s.value])
  }

  // A padded group gives one or two bytes; the bits left over have to be zero.
  function DecodePadded(t: seq<byte>): Option<seq<byte>>
    requires |t| == 4 && t[3] == PAD
  {
    var p, q, r := Value(t[0]), Value(t[1]), Value(t[2]);
    if p.None? || q.None? then None
    else if t[2] == PAD then
      if q.value % 16 == 0 then Some([p.value * 4 + q.value / 16]) else None
    else if r.None? || r.value % 4 != 0 then None
    else Some([p.value * 4 + q.value / 16, q.value % 16 * 16 + r.value / 4])
  }

  // The decoder of section 4 of RFC 4648; padding is only taken at the end.
  function Decode(t: seq<byte>): Option<seq<byte>> {
    if t == [] then Some([])
    else if |t| < 4 then None
    else if |t| == 4 && t[3] == PAD then DecodePadded(t)
    else
      match DecodeQuad(t[..4])
      case None => None
      case Some(group) =>
        match Decode(t[4..])
        case None => None
        case Some(more) => Some(group + more)
  }

  // ---- The encoder ----

  lemma EncodeInGroups(s: seq<byte>)
    ensures s == [] ==> Encode(s) == []
    ensures |s| >= 3 ==> Encode(s) == Quad(s[0], s[1], s[2]) + Encode(s[3..])
  {
  }

  // Writes the encoding of src to the front of dst.
  method EncodeBase64(dst: array<byte>, src: seq<byte>) returns (length: nat)
    requires (|src| + 2) / 3 * 4 <= dst.Length
    modifies dst
    ensures length == (|src| + 2) / 3 * 4
    ensures dst[..length] == Encode(src) && dst[length..] == old(dst[length..])
  {
    EncodedLength(src);
    hide Quad, Encode;
    var d, s, len := 0, 0, |src|;
    while len > 2
      invariant 0 <= s && s + len == |src| && 0 <= len && 3 * d == 4 * s && 0 <= d <= dst.Length
      invariant dst[..d] + Encode(src[s..]) == Encode(src)
      invariant dst[d..] == old(dst[d..])
    {
      EncodeInGroups(src[s..]);
      WriteQuad(dst, d, src[s..s + 3]);
      assert src[s..][3..] == src[s + 3..];
      d, s, len := d + 4, s + 3, len - 3;
    }
    if len > 0 {
      WriteLast(dst, d, src[s..]);
      d := d + 4;
    } else {
      EncodeInGroups(src[s..]);
    }
    length := d;
  }

  method WriteQuad(dst: array<byte>, d: nat, s: seq<byte>)
    requires |s| == 3 && d + 4 <= dst.Length
    modifies dst
    ensures dst[..d + 4] == old(dst[..d]) + Quad(s[0], s[1], s[2])
    ensures dst[d + 4..] == old(dst[d + 4..])
  {
    ghost var done := dst[..d];
    dst[d] := Basis(s[0] / 4);
    dst[d + 1] := Basis(s[0] % 4 * 16 + s[1] / 16);
    dst[d + 2] := Basis(s[1] % 16 * 4 + s[2] / 64);
    dst[d + 3] := Basis(s[2] % 64);
    hide Basis;
    assert dst[..d + 4] == done + [dst[d], dst[d + 1], dst[d + 2], dst[d + 3]];
  }

  // The last one or two bytes, padded.
  method WriteLast(dst: array<byte>, d: nat, s: seq<byte>)
    requires 1 <= |s| <= 2 && d + 4 <= dst.Length
    modifies dst
    ensures dst[..d + 4] == old(dst[..d]) + Encode(s)
    ensures dst[d + 4..] == old(dst[d + 4..])
  {
    ghost var done := dst[..d];
    dst[d] := Basis(s[0] / 4);
    if |s| == 1 {
      dst[d + 1] := Basis(s[0] % 4 * 16);
      dst[d + 2] := PAD;
    } else {
      dst[d + 1] := Basis(s[0] % 4 * 16 + s[1] / 16);
      dst[d + 2] := Basis(s[1] % 16 * 4);
    }
    dst[d + 3] := PAD;
    assert dst[..d + 4] == done + [dst[d], dst[d + 1], dst[d + 2], dst[d + 3]];
  }

  // ---- Decoding gives back what was encoded ----

  lemma {:induction false} EncodedLength(s: seq<byte>)
    ensures |Encode(s)| == (|s| + 2) / 3 * 4
  {
    if |s| >= 3 {
      EncodedLength(s[3..]);
    }
  }

  lemma BasisValue(v: sextet)
    ensures Value(Basis(v)) == Some(v) && Basis(v) != PAD
  {
  }

  lemma ValueBasis(c: byte)
    ensures Value(c).Some? ==> Basis(Value(c).value) == c && c != PAD
  {
  }

  lemma SplitThenJoin(a: byte, b: byte, c: byte)
    ensures var p, q, r, s := a / 4, a % 4 * 16 + b / 16, b % 16 * 4 + c / 64, c % 64;
            p * 4 + q / 16 == a && q % 16 * 16 + r / 4 == b && r % 4 * 64 + s == c
  {
  }

  lemma JoinThenSplit(p: sextet, q: sextet, r: sextet, s: sextet)
    ensures var a, b, c := p * 4 + q / 16, q % 16 * 16 + r / 4, r % 4 * 64 + s;
            a / 4 == p && a % 4 * 16 + b / 16 == q && b % 16 * 4 + c / 64 == r && c % 64 == s
  {
  }

  lemma QuadValues(a: byte, b: byte, c: byte)
    ensures var g := Quad(a, b, c);
            && (forall i | 0 <= i < 4 :: g[i] != PAD && Value(g[i]).Some?)
            && Value(g[0]).value == a / 4 && Value(g[1]).value == a % 4 * 16 + b / 16
            && Value(g[2]).value == b % 16 * 4 + c / 64 && Value(g[3]).value == c % 64
  {
    BasisValue(a / 4);
    BasisValue(a % 4 * 16 + b / 16);
    BasisValue(b % 16 * 4 + c / 64);
    BasisValue(c % 64);
    hide Basis, Value;
  }

  lemma GroupDecodes(a: byte, b: byte, c: byte)
    ensures DecodeQuad(Quad(a, b, c)) == Some([a, b, c])
    ensures DecodePadded(Quad(a, 0, 0)[..2] + [PAD, PAD]) == Some([a])
    ensures DecodePadded(Quad(a, b, 0)[..3] + [PAD]) == Some([a, b])
  {
    QuadValues(a, b, c);
    SplitThenJoin(a, b, c);
    QuadValues(a, 0, 0);
    SplitThenJoin(a, 0, 0);
    QuadValues(a, b, 0);
    SplitThenJoin(a, b, 0);
    hide Quad, Value;
  }

  lemma QuadOfJoined(p: sextet, q: sextet, r: sextet, s: sextet)
    ensures Quad(p * 4 + q / 16, q % 16 * 16 + r / 4, r % 4 * 64 + s) == [Basis(p), Basis(q), Basis(r), Basis(s)]
  {
    hide Basis;
    JoinThenSplit(p, q, r, s);
  }

  lemma GroupEncodes(t: seq<byte>)
    requires |t| == 4
    ensures DecodeQuad(t).Some? ==> var g := DecodeQuad(t).value; |g| == 3 && Quad(g[0], g[1], g[2]) == t && t[3] != PAD
  {
    if DecodeQuad(t).Some? {
      ValueBasis(t[0]);
      ValueBasis(t[1]);
      ValueBasis(t[2]);
      ValueBasis(t[3]);
      hide Basis, Value, Quad;
      QuadOfJoined(Value(t[0]).value, Value(t[1]).value, Value(t[2]).value, Value(t[3]).value);
    }
  }

  lemma PaddedEncodes(t: seq<byte>)
    requires |t| == 4 && t[3] == PAD
    ensures DecodePadded(t).Some? ==> Encode(DecodePadded(t).value) == t
  {
    if DecodePadded(t).Some? {
      ValueBasis(t[0]);
      ValueBasis(t[1]);
      ValueBasis(t[2]);
      hide Basis, Value;
      var r := if t[2] == PAD then 0 else Value(t[2]).value;
      JoinThenSplit(Value(t[0]).value, Value(t[1]).value, r, 0);
    }
  }

  lemma {:induction false} DecodeEncoded(s: seq<byte>)
    ensures Decode(Encode(s)) == Some(s)
  {
    hide DecodeQuad, DecodePadded, Quad;
    if |s| == 1 {
      GroupDecodes(s[0], 0, 0);
      assert s == [s[0]];
    } else if |s| == 2 {
      GroupDecodes(s[0], s[1], 0);
      assert s == [s[0], s[1]];
    } else if |s| >= 3 {
      DecodeEncoded(s[3..]);
      GroupDecodes(s[0], s[1], s[2]);
      var group := Quad(s[0], s[1], s[2]);
      GroupEncodes(group);
      assert Encode(s)[..4] == group && Encode(s)[4..] == Encode(s[3..]);
      assert Encode(s)[3] == Encode(s)[..4][3];
      assert s == [s[0], s[1], s[2]] + s[3..];
    }
  }

  // Every text the decoder takes is the encoding of what it gives.
  lemma {:induction false} EncodeDecoded(t: seq<byte>)
    ensures Decode(t).Some? ==> Encode(Decode(t).value) == t
  {
    hide DecodeQuad, DecodePadded, Quad;
    if Decode(t).Some? && t != [] {
      if |t| == 4 && t[3] == PAD {
        PaddedEncodes(t);
      } else {
        var group, more := DecodeQuad(t[..4]).value, Decode(t[4..]).value;
        GroupEncodes(t[..4]);
        EncodeDecoded(t[4..]);
        assert (group + more)[3..] == more;
        assert t == t[..4] + t[4..];
      }
    }
  }

  // Only the alphabet, and at most two padding characters, at the end.
  lemma {:induction false} OnlyAlphabet(s: seq<byte>, i: nat)
    requires i < |Encode(s)|
    ensures Encode(s)[i] == PAD || Value(Encode(s)[i]).Some?
    ensures Encode(s)[i] == PAD <==> i >= |Encode(s)| - (3 - |s| % 3) % 3
    decreases |s|
  {
    hide Quad, Value;
    EncodedLength(s);
    if |s| == 1 {
      QuadValues(s[0], 0, 0);
    } else if |s| == 2 {
      QuadValues(s[0], s[1], 0);
    } else {
      QuadValues(s[0], s[1], s[2]);
      EncodedLength(s[3..]);
      if i >= 4 {
        OnlyAlphabet(s[3..], i - 4);
      }
    }
  }

  // Examples of section 10 of RFC 4648, "f", "fo" and "foo".
  lemma Section10()
    ensures Encode([0x66]) == [0x5a, 0x67, 0x3d, 0x3d]
    ensures Encode([0x66, 0x6f]) == [0x5a, 0x6d, 0x38, 0x3d]
    ensures Encode([0x66, 0x6f, 0x6f]) == [0x5a, 0x6d, 0x39, 0x76]
  {
  }

  // And "foobar".
  lemma Section10Long()
    ensures Encode([0x66, 0x6f, 0x6f, 0x62, 0x61, 0x72]) == [0x5a, 0x6d, 0x39, 0x76, 0x59, 0x6d, 0x46, 0x79]
  {
    hide Encode, Quad;
    var all: seq<byte> := [0x66, 0x6f, 0x6f, 0x62, 0x61, 0x72];
    var bar: seq<byte> := [0x62, 0x61, 0x72];
    assert all[3..] == bar && bar[3..] == [];
    EncodeInGroups(all);
    EncodeInGroups(bar);
    EncodeInGroups([]);
    Foo();
    Bar();
  }

  lemma Foo()
    ensures Quad(0x66, 0x6f, 0x6f) == [0x5a, 0x6d, 0x39, 0x76]
  {
  }

  lemma Bar()
    ensures Quad(0x62, 0x61, 0x72) == [0x59, 0x6d, 0x46, 0x79]
  {
  }

  // The last two characters of the alphabet.
  lemma LastInAlphabet()
    ensures Encode([0xfb, 0xef, 0xbe]) == [0x2b, 0x2b, 0x2b, 0x2b]
    ensures Encode([0xff, 0xff, 0xff]) == [0x2f, 0x2f, 0x2f, 0x2f]
  {
  }
}
