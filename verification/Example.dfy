// Opening requests at work: one that is accepted, and what becomes of it when it
// is cut or spelled otherwise.
module Examples {
  import opened Bytes
  import opened Wrappers
  import opened Handshake
  import opened HeaderPrint
  import opened Validation
  import opened Conversations
  import Murmur
  import HashExamples
  import Sessions

  // The usual spelling of the two headers that are always asked for.
  const KEY_NAME := "Sec-WebSocket-Key"
  const VERSION_NAME := "Sec-WebSocket-Version"
  const SMALL_KEY_NAME := "sec-websocket-key"

  function Headers(keyName: string, value: seq<byte>): seq<Header>
    requires forall i | 0 <= i < |keyName| :: keyName[i] < 128 as char
  {
    [Header(Ascii(keyName), value), Header(Ascii(VERSION_NAME), value)]
  }

  // The name is `upper` in other letters, but for the first.
  predicate Spells(name: string, upper: string) {
    && |name| == |upper| > 0 && name[0] == upper[0]
    && forall i | 0 <= i < |name| ::
         name[i] < 128 as char && upper[i] < 128 as char && upper[i] as int == ToUpper(name[i] as int)
  }

  lemma SpelledAs(name: string, upper: string)
    requires Spells(name, upper)
    ensures Spelled(Ascii(name)) == Ascii(upper)
  {
    var a := Ascii(name);
    forall i | 0 < i < |a|
      ensures Spelled(a)[i] == Ascii(upper)[i]
    {
      assert a[1..][i - 1] == a[i];
    }
  }

  lemma KeySpells()
    ensures Spells(KEY_NAME, "SEC-WEBSOCKET-KEY")
  {
  }

  lemma VersionSpells()
    ensures Spells(VERSION_NAME, "SEC-WEBSOCKET-VERSION")
  {
  }

  // The parser turns the usual spellings into those the server looks for.
  lemma UsualSpellings()
    ensures Spelled(Ascii(KEY_NAME)) == WS_KEY
    ensures Spelled(Ascii(VERSION_NAME)) == WS_VERSION
  {
    hide Spelled, Ascii, Spells;
    KeySpells();
    VersionSpells();
    SpelledAs(KEY_NAME, "SEC-WEBSOCKET-KEY");
    SpelledAs(VERSION_NAME, "SEC-WEBSOCKET-VERSION");
  }

  // ---- A request that is accepted ----

  predicate IsNameText(name: string) {
    name != "" && forall i | 0 <= i < |name| :: 'A' <= name[i] <= 'Z' || 'a' <= name[i] <= 'z' || name[i] == '-'
  }

  lemma NameIsLegal(name: string, value: seq<byte>)
    requires IsNameText(name) && LegalValue(value)
    ensures Legal(Header(Ascii(name), value))
  {
  }

  lemma UsualNamesAreLegal()
    ensures IsNameText(KEY_NAME) && IsNameText(VERSION_NAME) && IsNameText(SMALL_KEY_NAME)
  {
  }

  lemma UsualHeadersParsed(value: seq<byte>)
    ensures AllAsParsed(Headers(KEY_NAME, value)) == [Header(WS_KEY, value), Header(WS_VERSION, value)]
  {
    hide Ascii, Spelled;
    UsualSpellings();
    var hs := Headers(KEY_NAME, value);
    assert hs[1..] == [hs[1]] && hs[1..][1..] == [];
  }

  // Both headers are found, even if their names were to have the same hash.
  lemma BothAreFound(hs: seq<Header>, value: seq<byte>)
    requires hs == [Header(WS_KEY, value), Header(WS_VERSION, value)]
    ensures FindHeader(hs, WS_KEY) == Some(hs[0])
    ensures FindHeader(hs, WS_VERSION).Some? && FindHeader(hs, WS_VERSION).value.value == value
  {
    hide Ascii, HeaderKey;
    assert hs[1..] == [hs[1]];
    assert FindKey([hs[1]], HeaderKey(WS_VERSION)) == Some(hs[1]);
  }

  lemma UsualHeadersValidate(value: seq<byte>)
    requires VersionAccepted(value)
    ensures Validates(AllAsParsed(Headers(KEY_NAME, value)), None)
    ensures value != THIRTEEN ==> !ValidatesThirteen(AllAsParsed(Headers(KEY_NAME, value)), None)
  {
    hide Ascii, HeaderKey, AllAsParsed, FindHeader, VersionAccepted;
    UsualHeadersParsed(value);
    BothAreFound(AllAsParsed(Headers(KEY_NAME, value)), value);
  }

  function Request(hs: seq<Header>): seq<byte> {
    RequestLine([SLASH]) + PrintHeaders(hs)
  }

  // Version 13 opens the conversation.
  lemma UsualRequestOpens(value: seq<byte>)
    requires VersionAccepted(value) && LegalValue(value)
    ensures ConverseAll(Shaking([]), [Request(Headers(KEY_NAME, value))], None) == Talking(Sessions.START)
  {
    hide Ascii, Spelled, Validates, FindHeader, RequestLine, PrintHeaders, AllAsParsed, Legal, IsNameText;
    UsualNamesAreLegal();
    UsualHeadersValidate(value);
    NameIsLegal(KEY_NAME, value);
    NameIsLegal(VERSION_NAME, value);
    PrintedRequestParses([SLASH], Headers(KEY_NAME, value));
    OneRequest(Request(Headers(KEY_NAME, value)), None);
  }

  lemma OneRequest(request: seq<byte>, origins: Origins)
    ensures ConverseAll(Shaking([]), [request], origins) == OnRequest(request, origins)
  {
    assert [] + request == request;
    var c := Converse(Shaking([]), request, origins);
    assert [request][1..] == [] && ConverseAll(c, [], origins) == c;
  }

  // A version that is not 13 does, too.
  lemma OtherVersionOpens()
    ensures var value: seq<byte> := THIRTEEN + ['0' as int];
            && ConverseAll(Shaking([]), [Request(Headers(KEY_NAME, value))], None) == Talking(Sessions.START)
            && !ValidatesThirteen(AllAsParsed(Headers(KEY_NAME, value)), None)
  {
    hide ConverseAll, ValidatesThirteen, Headers, AllAsParsed;
    var value: seq<byte> := THIRTEEN + ['0' as int];
    UsualRequestOpens(value);
    UsualHeadersValidate(value);
  }

  // ---- A request that is not ----

  // The key is found under its usual spelling; a small letter in front hides it,
  // whatever other headers there are, unless one of them is filed in its place.
  lemma SmallLetterHides(value: seq<byte>, more: seq<Header>)
    ensures FindHeader(AllAsParsed([Header(Ascii(KEY_NAME), value)] + more), WS_KEY) == Some(Header(WS_KEY, value))
    ensures FindHeader(AllAsParsed([Header(Ascii(SMALL_KEY_NAME), value)] + more), WS_KEY)
         == FindHeader(AllAsParsed(more), WS_KEY)
  {
    hide Ascii, Spelled, HeaderKey, UpperAll;
    UsualSpellings();
    SmallSpelling();
    var a, b := [Header(Ascii(KEY_NAME), value)] + more, [Header(Ascii(SMALL_KEY_NAME), value)] + more;
    assert a[1..] == more && b[1..] == more;
    FoundExactly(Ascii(SMALL_KEY_NAME));
    assert AllAsParsed(b)[1..] == AllAsParsed(more);
  }

  lemma SmallSpelling()
    ensures UpperAll(Ascii(SMALL_KEY_NAME)) == WS_KEY
    ensures Ascii(SMALL_KEY_NAME)[0] == 's' as int && IsLowerCase('s' as int)
  {
    assert forall i | 0 <= i < |SMALL_KEY_NAME| :: "SEC-WEBSOCKET-KEY"[i] as int == ToUpper(SMALL_KEY_NAME[i] as int);
  }

  // A request whose headers do not validate makes the server drop the client.
  lemma InvalidDrops(hs: seq<Header>, origins: Origins)
    requires (forall i | 0 <= i < |hs| :: Legal(hs[i])) && !Validates(AllAsParsed(hs), origins) && hs != []
    ensures ConverseAll(Shaking([]), [Request(hs)], origins) == DROPPED
  {
    hide Validates, Legal, RequestLine, PrintHeaders, AllAsParsed;
    PrintedRequestParses([SLASH], hs);
    OneRequest(Request(hs), origins);
  }

  // With a single Host header, as a browser sends it with more to load a page.
  lemma HostAloneDrops(value: seq<byte>)
    requires LegalValue(value)
    ensures ConverseAll(Shaking([]), [Request([Header(Ascii("Host"), value)])], None) == DROPPED
  {
    hide ConverseAll, Ascii, Legal, Request, Spelled, FindHeader, IsNameText, Spells;
    var hs := [Header(Ascii("Host"), value)];
    HostSpelled();
    NameIsLegal("Host", value);
    SpelledAs("Host", "HOST");
    assert AllAsParsed(hs) == [Header(Ascii("HOST"), value)];
    HostIsNotKey(value);
    InvalidDrops(hs, None);
  }

  lemma HostSpelled()
    ensures IsNameText("Host") && Spells("Host", "HOST")
  {
  }

  lemma HostIsNotKey(value: seq<byte>)
    ensures FindHeader([Header(Ascii("HOST"), value)], WS_KEY) == None
  {
    hide Murmur.Hash, Ascii;
    NamesInBytes();
    HashExamples.Host();
    HashExamples.Key();
    var hs := [Header(Ascii("HOST"), value)];
    assert HeaderKey(hs[0].name) == 0x2697342a && HeaderKey(WS_KEY) == 0xf6d9bcf4;
    assert hs[1..] == [] && FindKey([], HeaderKey(WS_KEY)) == None;
  }

  lemma NamesInBytes()
    ensures Ascii("HOST") + [NUL] == HashExamples.HOST && WS_KEY + [NUL] == HashExamples.KEY
  {
    assert Ascii("SEC-WEBSOCKET-KEY") == HashExamples.KEY[..17];
    assert WS_KEY == HashExamples.KEY[..17];
    assert HashExamples.KEY[..17] + [NUL] == HashExamples.KEY;
  }

  // Without the key in its usual spelling, or one that begins alike.
  lemma NoKeyDrops(value: seq<byte>)
    requires LegalValue(value)
    ensures ConverseAll(Shaking([]), [Request([Header(Ascii(SMALL_KEY_NAME), value)])], None) == DROPPED
  {
    hide ConverseAll, Ascii, Legal, Request, AllAsParsed, FindHeader, IsNameText;
    var hs := [Header(Ascii(SMALL_KEY_NAME), value)];
    UsualNamesAreLegal();
    NameIsLegal(SMALL_KEY_NAME, value);
    SmallLetterHides(value, []);
    assert hs + [] == hs;
    NoHeaders();
    InvalidDrops(hs, None);
  }

  lemma NoHeaders()
    ensures FindHeader(AllAsParsed([]), WS_KEY) == None
  {
    hide HeaderKey;
  }

  // With another version than one that begins with 13.
  lemma OldVersionDrops()
    ensures var value: seq<byte> := [0x31, 0x32];
            ConverseAll(Shaking([]), [Request(Headers(KEY_NAME, value))], None) == DROPPED
  {
    hide ConverseAll, Ascii, Legal, Request, AllAsParsed, FindHeader, IsNameText;
    var value: seq<byte> := [0x31, 0x32];
    UsualNamesAreLegal();
    NameIsLegal(KEY_NAME, value);
    NameIsLegal(VERSION_NAME, value);
    UsualHeadersParsed(value);
    BothAreFound(AllAsParsed(Headers(KEY_NAME, value)), value);
    InvalidDrops(Headers(KEY_NAME, value), None);
  }

  // With an origin that is not among those configured.
  lemma ForeignOriginDrops(more: seq<Header>)
    requires forall i | 0 <= i < |more| :: Legal(more[i])
    ensures ConverseAll(Shaking([]), [Request([Header(Ascii("Origin"), [0x62])] + more)], Some({Murmur.Hash([0x61])}))
         == DROPPED
  {
    hide ConverseAll, Ascii, Legal, Request, Spelled, IsNameText, Murmur.Hash;
    var h := Header(Ascii("Origin"), [0x62]);
    var hs, origins := [h] + more, Some({Murmur.Hash([0x61])});
    assert IsNameText("Origin") && Spells("Origin", "ORIGIN") by { OriginSpelled(); }
    NameIsLegal("Origin", [0x62]);
    SpelledAs("Origin", "ORIGIN");
    assert hs[1..] == more;
    assert AllAsParsed(hs) == [Header(WS_ORIGIN, [0x62])] + AllAsParsed(more);
    assert CString([0x62]) == [0x62];
    if Murmur.Hash([0x61]) == Murmur.Hash([0x62]) {
      Murmur.FirstByteMatters([0x61], [0x62]);
    }
    InvalidDrops(hs, origins);
  }

  lemma OriginSpelled()
    ensures IsNameText("Origin") && Spells("Origin", "ORIGIN")
  {
  }

  lemma GetIsCut()
    ensures EndsInRequestLine(GET)
  {
    var k1 := Step(INITIAL, GET[0]).scan;
    var k2 := Step(k1, GET[1]).scan;
    var k3 := Step(k2, GET[2]).scan;
    RunStep(k2, GET[2], []);
    RunStep(k1, GET[1], [GET[2]]);
    RunStep(INITIAL, GET[0], [GET[1], GET[2]]);
    assert [GET[0]] + [GET[1], GET[2]] == GET && [GET[1]] + [GET[2]] == [GET[1], GET[2]] && [GET[2]] + [] == [GET[2]];
  }

  lemma GetDrops(rest: seq<byte>, origins: Origins)
    ensures ConverseAll(Shaking([]), [GET, rest], origins) == DROPPED
  {
    var c := Converse(Shaking([]), GET, origins);
    assert [] + GET == GET;
    GetIsCut();
    ParseByPrefix(GET);
    assert c == DROPPED;
    assert [GET, rest][1..] == [rest];
    TalksOn(DROPPED.progress, [rest], origins);
    Sessions.DroppedIgnores(DROPPED.progress, [rest]);
  }

  // In one piece the request opens the conversation; cut behind its third byte,
  // it makes the server drop the client.
  lemma OneCutDecides()
    ensures var request := Request(Headers(KEY_NAME, THIRTEEN));
            && |request| > 3
            && ConverseAll(Shaking([]), [request], None) == Talking(Sessions.START)
            && ConverseAll(Shaking([]), [request[..3], request[3..]], None) == DROPPED
  {
    hide ConverseAll, Headers, PrintHeaders;
    var request := Request(Headers(KEY_NAME, THIRTEEN));
    UsualRequestOpens(THIRTEEN);
    assert request[..3] == GET;
    GetDrops(request[3..], None);
  }
}
