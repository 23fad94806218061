// What the server asks of a completed opening request.
module Validation {
  import opened Bytes
  import opened Wrappers
  import opened Handshake
  import opened HeaderPrint
  import Murmur

  function Ascii(s: string): (r: seq<byte>)
    requires forall i | 0 <= i < |s| :: s[i] < 128 as char
    ensures |r| == |s| && forall i | 0 <= i < |s| :: r[i] == s[i] as int
  {
    seq(|s|, i requires 0 <= i < |s| => s[i] as int)
  }

  const WS_KEY := Ascii("SEC-WEBSOCKET-KEY")
  const WS_VERSION := Ascii("SEC-WEBSOCKET-VERSION")
  const WS_ORIGIN := Ascii("ORIGIN")

  // Headers are filed under the hash of their name, terminating NUL included.
  function HeaderKey(name: seq<byte>): Murmur.word {
    Murmur.Hash(name + [NUL])
  }

  // Of headers under the same key, the first one added is found.
  function FindKey(hs: seq<Header>, key: Murmur.word): (r: Option<Header>) {
    if hs == [] then None
    else if HeaderKey(hs[0].name) == key then Some(hs[0])
    else FindKey(hs[1..], key)
  }

  function FindHeader(hs: seq<Header>, name: seq<byte>): (r: Option<Header>) {
    FindKey(hs, HeaderKey(name))
  }

  lemma {:induction false} FirstWins(hs: seq<Header>, h: Header, key: Murmur.word)
    ensures FindKey(hs + [h], key)
         == if FindKey(hs, key).None? && HeaderKey(h.name) == key then Some(h) else FindKey(hs, key)
  {
    if hs != [] {
      FirstWins(hs[1..], h, key);
      assert (hs + [h])[1..] == hs[1..] + [h];
    }
  }

  lemma {:induction false} FindsMatching(hs: seq<Header>, key: Murmur.word)
    ensures FindKey(hs, key).Some? ==> FindKey(hs, key).value in hs && HeaderKey(FindKey(hs, key).value.name) == key
    ensures FindKey(hs, key).None? ==> forall h | h in hs :: HeaderKey(h.name) != key
  {
    if hs != [] {
      FindsMatching(hs[1..], key);
    }
  }

  // The keys of the configured origins, or None when any origin may connect.
  type Origins = Option<set<Murmur.word>>

  predicate VersionAccepted(value: seq<byte>) {
    |value| >= 2 && value[0] == '1' as int && value[1] == '3' as int
  }

  predicate OriginAccepted(hs: seq<Header>, origins: Origins) {
    origins.Some? ==>
      match FindHeader(hs, WS_ORIGIN)
      case None => false
      case Some(h) => Murmur.Hash(CString(h.value)) in origins.value
  }

  predicate Validates(hs: seq<Header>, origins: Origins) {
    && FindHeader(hs, WS_KEY).Some?
    && (match FindHeader(hs, WS_VERSION) case None => false case Some(h) => VersionAccepted(h.value))
    && OriginAccepted(hs, origins)
  }

  // What section 4.2.1 of RFC 6455 asks of the version: exactly 13.
  predicate ValidatesThirteen(hs: seq<Header>, origins: Origins) {
    && FindHeader(hs, WS_KEY).Some?
    && (match FindHeader(hs, WS_VERSION) case None => false case Some(h) => h.value == THIRTEEN)
    && OriginAccepted(hs, origins)
  }

  const THIRTEEN: seq<byte> := ['1' as int, '3' as int]

  lemma BeginsWithThirteen(value: seq<byte>)
    ensures VersionAccepted(value) <==> THIRTEEN <= value
    ensures THIRTEEN < value <==> THIRTEEN <= value && value != THIRTEEN
  {
  }

  // The server takes another version exactly when it begins with 13 and goes on.
  lemma OtherVersionExactly(hs: seq<Header>, origins: Origins)
    ensures ValidatesThirteen(hs, origins) ==> Validates(hs, origins)
    ensures Validates(hs, origins) && !ValidatesThirteen(hs, origins) <==>
              && FindHeader(hs, WS_KEY).Some? && OriginAccepted(hs, origins)
              && FindHeader(hs, WS_VERSION).Some?
              && THIRTEEN < FindHeader(hs, WS_VERSION).value.value
  {
    hide FindHeader, OriginAccepted, Ascii, VersionAccepted;
    var version := FindHeader(hs, WS_VERSION);
    if version.Some? {
      BeginsWithThirteen(version.value.value);
    }
  }

  // ---- Which headers are enough ----

  // The first header filed under the key of this name.
  ghost predicate FirstUnder(hs: seq<Header>, name: seq<byte>, i: nat) {
    && i < |hs| && Murmur.Hash(hs[i].name + [0]) == Murmur.Hash(name + [0])
    && forall j | 0 <= j < i :: Murmur.Hash(hs[j].name + [0]) != Murmur.Hash(name + [0])
  }

  lemma {:induction false} FoundFirst(hs: seq<Header>, name: seq<byte>) returns (i: nat)
    ensures FindHeader(hs, name).Some? ==> FirstUnder(hs, name, i) && FindHeader(hs, name).value == hs[i]
    ensures FindHeader(hs, name).None? ==> forall j | 0 <= j < |hs| :: HeaderKey(hs[j].name) != HeaderKey(name)
  {
    hide Murmur.Hash;
    i := 0;
    if hs != [] && HeaderKey(hs[0].name) != HeaderKey(name) {
      var rest := hs[1..];
      i := FoundFirst(rest, name);
      assert forall j | 0 < j < |hs| :: rest[j - 1] == hs[j];
      assert FindHeader(hs, name) == FindHeader(rest, name);
      i := i + 1;
    }
  }

  lemma FirstIsFound(hs: seq<Header>, name: seq<byte>, i: nat)
    requires FirstUnder(hs, name, i)
    ensures FindHeader(hs, name) == Some(hs[i])
  {
    hide Murmur.Hash, FindHeader;
    var j := FoundFirst(hs, name);
    assert HeaderKey(hs[i].name) == HeaderKey(name);
    if j < i || i < j {
      assert false;
    }
  }

  // What a finished request has to be to open a conversation: it has a header under
  // the name of the key; the first one under that of the version begins with 13; and
  // if there are origins, the first one under that name is among them.
  ghost predicate Qualifies(hs: seq<Header>, origins: Origins, key: seq<byte>, version: seq<byte>, origin: seq<byte>) {
    && (exists i: nat :: FirstUnder(hs, key, i))
    && (exists i: nat :: FirstUnder(hs, version, i) && [0x31, 0x33] <= hs[i].value)
    && (origins.Some? ==>
          exists i: nat :: FirstUnder(hs, origin, i) && Murmur.Hash(CString(hs[i].value)) in origins.value)
  }

  lemma FirstExactly(hs: seq<Header>, name: seq<byte>)
    ensures FindHeader(hs, name).Some? <==> exists i: nat :: FirstUnder(hs, name, i)
    ensures forall i: nat | FirstUnder(hs, name, i) :: FindHeader(hs, name) == Some(hs[i])
  {
    hide Murmur.Hash, FindHeader;
    var i := FoundFirst(hs, name);
    forall j: nat | FirstUnder(hs, name, j)
      ensures FindHeader(hs, name) == Some(hs[j])
    {
      FirstIsFound(hs, name, j);
    }
  }

  lemma QualifiesExactly(hs: seq<Header>, origins: Origins)
    ensures Validates(hs, origins) <==> Qualifies(hs, origins, WS_KEY, WS_VERSION, WS_ORIGIN)
  {
    hide Murmur.Hash, FindHeader, Ascii, FirstUnder;
    FirstExactly(hs, WS_KEY);
    FirstExactly(hs, WS_VERSION);
    FirstExactly(hs, WS_ORIGIN);
    if FindHeader(hs, WS_VERSION).Some? {
      BeginsWithThirteen(FindHeader(hs, WS_VERSION).value.value);
      assert THIRTEEN == [0x31, 0x33];
    }
  }

  // ---- Spellings ----

  // A header is filed where it is looked for exactly if its name does not begin
  // with a small letter, however the rest of it is spelled.
  lemma FoundExactly(name: seq<byte>)
    requires name != []
    ensures HeaderKey(Spelled(name)) == HeaderKey(UpperAll(name)) <==> !IsLowerCase(name[0])
  {
    hide Murmur.Hash;
    var a, b := Spelled(name) + [NUL], UpperAll(name) + [NUL];
    assert a[1..] == b[1..] by {
      assert forall i | 0 < i < |name| :: Spelled(name)[i] == UpperAll(name)[i];
    }
    assert a[0] == name[0] && b[0] == ToUpper(name[0]);
    if Murmur.Hash(a) == Murmur.Hash(b) {
      Murmur.FirstByteMatters(a, b);
    }
    if a[0] == b[0] {
      assert a == [a[0]] + a[1..] && b == [b[0]] + b[1..];
    }
  }

  lemma ValidNeedsHeaders(origins: Origins)
    ensures !Validates([], origins)
  {
    hide HeaderKey;
    assert FindHeader([], WS_KEY).None?;
  }
}
