// Printing a set of headers, and the opening request that parses back to it.
module HeaderPrint {
  import opened Bytes
  import opened Wrappers
  import opened Buffers
  import opened Handshake

  const CRLF: seq<byte> := [CR, LF]
  const COLON_SPACE: seq<byte> := [COLON, SPACE]

  function PrintHeaders(hs: seq<Header>): seq<byte> {
    if hs == [] then CRLF
    else hs[0].name + COLON_SPACE + hs[0].value + CRLF + PrintHeaders(hs[1..])
  }

  // ---- The printer ----

  function CHeaders(hs: seq<Header>): (r: seq<Header>)
    ensures |r| == |hs|
  {
    seq(|hs|, i requires 0 <= i < |hs| => Header(CString(hs[i].name), CString(hs[i].value)))
  }

  // The lines of all headers, without the empty line that ends the block.
  function PrintLines(hs: seq<Header>): seq<byte> {
    if hs == [] then []
    else PrintLines(hs[..|hs| - 1]) + HeaderLine(hs[|hs| - 1])
  }

  function HeaderLine(h: Header): seq<byte> {
    h.name + COLON_SPACE + h.value + CRLF
  }

  lemma {:induction false} LinesThenEnd(hs: seq<Header>, more: seq<Header>)
    ensures PrintLines(hs) + PrintHeaders(more) == PrintHeaders(hs + more)
  {
    if hs == [] {
      assert hs + more == more;
    } else {
      var init, last := hs[..|hs| - 1], hs[|hs| - 1];
      LinesThenEnd(init, [last] + more);
      assert init + ([last] + more) == hs + more;
      assert ([last] + more)[1..] == more;
      assert PrintLines(hs) + PrintHeaders(more) == PrintLines(init) + (HeaderLine(last) + PrintHeaders(more));
    }
  }

  method AppendLine(buffer: Buffer, h: Header)
    requires buffer.Valid()
    modifies buffer, buffer.mem
    ensures buffer.Valid() && (buffer.mem == old(buffer.mem) || fresh(buffer.mem))
    ensures buffer.Content() == old(buffer.Content()) + HeaderLine(Header(CString(h.name), CString(h.value)))
  {
    ghost var name, value := CString(h.name), CString(h.value);
    ghost var before := buffer.Content();
    buffer.Append(CString(h.name));
    buffer.Append(COLON_SPACE);
    ghost var half := buffer.Content();
    assert half == before + name + COLON_SPACE;
    buffer.Append(CString(h.value));
    buffer.Append(CRLF);
    assert buffer.Content() == half + value + CRLF;
    Regroup(before, name, value);
  }

  lemma Regroup(before: seq<byte>, name: seq<byte>, value: seq<byte>)
    ensures before + name + COLON_SPACE + value + CRLF == before + HeaderLine(Header(name, value))
  {
  }

  // ---- Headers that survive printing and parsing ----

  predicate LegalNameChar(c: byte) {
    !IsSeparator(c) && c != COLON
  }

  // The first character of a name is not looked at that closely.
  predicate LegalFirstChar(c: byte) {
    !IsBlank(c) && c != CR && c != LF
  }

  predicate LegalValueChar(c: byte) {
    c != CR && c != LF
  }

  predicate LegalUriChar(c: byte) {
    c != SPACE && c != CR && c != LF && c != NUL
  }

  predicate LegalValue(value: seq<byte>) {
    value != [] && !IsBlank(value[0]) && forall i | 0 <= i < |value| :: LegalValueChar(value[i])
  }

  predicate Legal(h: Header) {
    && h.name != [] && LegalFirstChar(h.name[0]) && (forall i | 0 < i < |h.name| :: LegalNameChar(h.name[i]))
    && LegalValue(h.value)
  }

  // Nor is it cut short when it is printed from C strings.
  predicate Printable(h: Header) {
    Legal(h) && (forall i | 0 <= i < |h.name| :: h.name[i] != NUL) && forall i | 0 <= i < |h.value| :: h.value[i] != NUL
  }

  predicate LegalUri(uri: seq<byte>) {
    uri != [] && uri[0] == SLASH && forall i | 0 <= i < |uri| :: LegalUriChar(uri[i])
  }

  function UpperAll(s: seq<byte>): (r: seq<byte>)
    ensures |r| == |s| && forall i | 0 <= i < |s| :: r[i] == ToUpper(s[i])
  {
    seq(|s|, i requires 0 <= i < |s| => ToUpper(s[i]))
  }

  // A name as the parser leaves it: its first character as it was sent, the
  // others in upper case.
  function Spelled(name: seq<byte>): (r: seq<byte>)
    ensures |r| == |name| && (name != [] ==> r[0] == name[0])
  {
    if name == [] then [] else [name[0]] + UpperAll(name[1..])
  }

  function AsParsed(h: Header): Header {
    Header(Spelled(h.name), h.value)
  }

  function AllAsParsed(hs: seq<Header>): (r: seq<Header>)
    ensures |r| == |hs|
  {
    if hs == [] then [] else [AsParsed(hs[0])] + AllAsParsed(hs[1..])
  }

  // Two spellings of one name are parsed alike exactly if they begin alike.
  lemma SpelledAlike(a: seq<byte>, b: seq<byte>)
    requires a != [] && UpperAll(a) == UpperAll(b)
    ensures Spelled(a) == Spelled(b) <==> a[0] == b[0]
  {
    assert |a| == |UpperAll(a)| == |UpperAll(b)| == |b|;
    forall i | 0 <= i < |a|
      ensures ToUpper(a[i]) == ToUpper(b[i])
    {
      assert UpperAll(a)[i] == UpperAll(b)[i];
    }
    if a[0] == b[0] {
      assert forall i | 0 <= i < |a| - 1 :: UpperAll(a[1..])[i] == UpperAll(b[1..])[i];
    } else {
      assert Spelled(a)[0] != Spelled(b)[0];
    }
  }

  // A name comes through as it was sent exactly if no small letter follows its first character.
  lemma SpelledAsSent(name: seq<byte>)
    ensures Spelled(name) == name <==> forall i | 0 < i < |name| :: !IsLowerCase(name[i])
  {
    assert forall i {:trigger name[i]} | 0 < i < |name| :: Spelled(name)[i] == ToUpper(name[i]) by {
      forall i {:trigger name[i]} | 0 < i < |name|
        ensures Spelled(name)[i] == ToUpper(name[i])
      {
        assert name[1..][i - 1] == name[i];
      }
    }
    hide Spelled;
    if forall i | 0 < i < |name| :: !IsLowerCase(name[i]) {
      assert forall i | 0 <= i < |name| :: Spelled(name)[i] == name[i];
    }
  }

  function RequestLine(uri: seq<byte>): seq<byte> {
    GET + [SPACE] + uri + [SPACE] + HTTP_1_1 + CRLF
  }

  // ---- Running over printed text ----

  predicate Stays(k: Scan, c: byte) {
    match k.sw
    case AfterSlash => LegalUriChar(c)
    case HeaderValue => !k.crlf && LegalValueChar(c)
    case _ => false
  }

  // Characters that only extend what has been read since the left marker.
  lemma {:induction false} RunOver(k: Scan, text: seq<byte>, rest: seq<byte>)
    requires WellFormed(k) && forall i | 0 <= i < |text| :: Stays(k, text[i])
    ensures WellFormed(k.(token := k.token + text))
    ensures ScanAll(k, text + rest) == ScanAll(k.(token := k.token + text), rest)
    decreases |text|
  {
    if text == [] {
      assert text + rest == rest && k.token + text == k.token;
    } else {
      var next := k.(token := k.token + [text[0]]);
      assert Step(k, text[0]) == Go(next);
      assert (text + rest)[1..] == text[1..] + rest;
      RunOver(next, text[1..], rest);
      assert k.token + text == next.token + text[1..];
    }
  }

  // The characters of a name are stored in upper case.
  lemma {:induction false} RunName(k: Scan, text: seq<byte>, rest: seq<byte>)
    requires k.sw == HeaderName && k.trailing == 0 && forall i | 0 <= i < |text| :: LegalNameChar(text[i])
    ensures ScanAll(k, text + rest) == ScanAll(k.(token := k.token + UpperAll(text)), rest)
    decreases |text|
  {
    if text == [] {
      assert text + rest == rest && k.token + UpperAll(text) == k.token;
    } else {
      var next := k.(token := k.token + [ToUpper(text[0])]);
      NameStep(k, text[0]);
      hide Step, IsSeparator;
      assert (text + rest)[1..] == text[1..] + rest;
      RunName(next, text[1..], rest);
      assert k.token + UpperAll(text) == next.token + UpperAll(text[1..]);
    }
  }

  lemma NameStep(k: Scan, c: byte)
    requires k.sw == HeaderName && k.trailing == 0 && LegalNameChar(c)
    ensures Step(k, c) == Go(k.(token := k.token + [ToUpper(c)]))
  {
  }

  lemma RunStep(k: Scan, c: byte, rest: seq<byte>)
    requires WellFormed(k)
    ensures Step(k, c).Go? ==> ScanAll(k, [c] + rest) == ScanAll(Step(k, c).scan, rest)
    ensures Step(k, c).Halt? ==> ScanAll(k, [c] + rest) == Step(k, c)
  {
    assert ([c] + rest)[1..] == rest;
  }

  // Behind the line of h, the last header so far.
  function Behind(uri: seq<byte>, hs: seq<Header>, h: Header): (k: Scan)
    requires h.value != []
    ensures WellFormed(k)
  {
    Scan(HeaderValue, h.value + CRLF, true, 2, Some(h.name), Some(uri), hs)
  }

  // The first character of h has been taken as the beginning of a name.
  lemma RunLine(k: Scan, uri: seq<byte>, h: Header, rest: seq<byte>)
    requires Legal(h)
    requires k.sw == HeaderName && k.token == h.name[..1] && !k.crlf && k.trailing == 0 && k.uri == Some(uri)
    ensures ScanAll(k, HeaderLine(h)[1..] + rest) == ScanAll(Behind(uri, k.headers, AsParsed(h)), rest)
  {
    hide ScanAll;
    var name, tail := Spelled(h.name), COLON_SPACE + h.value + CRLF + rest;
    assert HeaderLine(h)[1..] + rest == h.name[1..] + tail;
    RunName(k, h.name[1..], tail);
    assert h.name[..1] + UpperAll(h.name[1..]) == name;
    var named := k.(token := name);
    RunSeparator(named, name, h.value, tail, rest);
    RunValue(named.(sw := HeaderValue, token := h.value[..1], name := Some(name)), uri, AsParsed(h), rest);
  }

  lemma RunSeparator(k: Scan, name: seq<byte>, value: seq<byte>, text: seq<byte>, rest: seq<byte>)
    requires LegalValue(value) && WellFormed(k) && k.sw == HeaderName && k.token == name
    requires text == COLON_SPACE + value + CRLF + rest
    ensures ScanAll(k, text)
         == ScanAll(k.(sw := HeaderValue, token := value[..1], name := Some(name)), value[1..] + CRLF + rest)
  {
    hide ScanAll;
    var sep := Step(k, COLON).scan;
    var first := value[0];
    assert LegalValueChar(first);
    var more := value[1..] + CRLF + rest;
    assert text == [COLON] + ([SPACE] + ([first] + more));
    RunStep(k, COLON, [SPACE] + ([first] + more));
    RunStep(sep, SPACE, [first] + more);
    RunStep(Step(sep, SPACE).scan, first, more);
    assert [first] == value[..1];
  }

  lemma RunValue(k: Scan, uri: seq<byte>, h: Header, rest: seq<byte>)
    requires LegalValue(h.value) && k.sw == HeaderValue && k.token == h.value[..1] && !k.crlf && k.trailing == 0
    requires k.name == Some(h.name) && k.uri == Some(uri)
    ensures ScanAll(k, h.value[1..] + CRLF + rest) == ScanAll(Behind(uri, k.headers, h), rest)
  {
    hide ScanAll;
    var whole := k.(token := h.value);
    assert h.value[1..] + CRLF + rest == h.value[1..] + (CRLF + rest);
    RunOver(k, h.value[1..], CRLF + rest);
    assert h.value[..1] + h.value[1..] == h.value;
    assert CRLF + rest == [CR] + ([LF] + rest);
    RunStep(whole, CR, [LF] + rest);
    RunStep(Step(whole, CR).scan, LF, rest);
    assert h.value + [CR] + [LF] == h.value + CRLF;
  }

  // Behind an ended line, or at the first one, a name begins.
  lemma RunFirstChar(k: Scan, h: Header, more: seq<byte>) returns (next: Scan)
    requires WellFormed(k) && Legal(h) && ((k.sw == HeaderValue && k.crlf) || (k.sw == HeaderCrlf && !k.crlf))
    ensures next.sw == HeaderName && next.token == h.name[..1] && !next.crlf && next.trailing == 0 && next.uri == k.uri
    ensures next.headers == if k.sw == HeaderValue then Added(k) else k.headers
    ensures ScanAll(k, HeaderLine(h) + more) == ScanAll(next, HeaderLine(h)[1..] + more)
  {
    hide ScanAll, LegalValue, Added;
    var c := h.name[0];
    assert HeaderLine(h) + more == [c] + (HeaderLine(h)[1..] + more);
    RunStep(k, c, HeaderLine(h)[1..] + more);
    next := Step(k, c).scan;
    assert [c] == h.name[..1];
  }

  // The empty line completes the request.
  lemma RunEnd(uri: seq<byte>, done: seq<Header>, last: Header, rest: seq<byte>)
    requires LegalValue(last.value)
    ensures ScanAll(Behind(uri, done, last), CRLF + rest) == Halt(Done, Some(uri), done + [last])
  {
    hide ScanAll;
    var k := Behind(uri, done, last);
    assert CRLF + rest == [CR] + ([LF] + rest);
    RunStep(k, CR, [LF] + rest);
    var k3 := Step(k, CR).scan;
    assert k3.token[..|k3.token| - 3] == last.value;
    RunStep(k3, LF, rest);
  }

  // So do the remaining lines and the empty line.
  lemma {:induction false} RunLines(uri: seq<byte>, done: seq<Header>, last: Header, hs: seq<Header>, rest: seq<byte>)
    requires LegalValue(last.value) && forall i | 0 <= i < |hs| :: Legal(hs[i])
    ensures ScanAll(Behind(uri, done, last), PrintHeaders(hs) + rest)
         == Halt(Done, Some(uri), done + [last] + AllAsParsed(hs))
    decreases |hs|
  {
    hide ScanAll, Legal, Spelled;
    if hs == [] {
      RunEnd(uri, done, last, rest);
      assert done + [last] + AllAsParsed(hs) == done + [last];
    } else {
      var k, h, more := Behind(uri, done, last), hs[0], PrintHeaders(hs[1..]) + rest;
      assert PrintHeaders(hs) + rest == HeaderLine(h) + more;
      var named := RunFirstChar(k, h, more);
      assert k.token[..|k.token| - 2] == last.value;
      RunLine(named, uri, h, more);
      LegalAsParsed(h);
      RunLines(uri, done + [last], AsParsed(h), hs[1..], rest);
      assert done + [last] + [AsParsed(h)] + AllAsParsed(hs[1..]) == done + [last] + AllAsParsed(hs);
    }
  }

  lemma LegalAsParsed(h: Header)
    requires Legal(h)
    ensures LegalValue(AsParsed(h).value)
  {
  }

  lemma RunRequestLine(uri: seq<byte>, rest: seq<byte>) returns (token: seq<byte>)
    requires LegalUri(uri)
    ensures ScanAll(INITIAL, RequestLine(uri) + rest)
         == ScanAll(Scan(HeaderCrlf, token, false, 0, None, Some(uri), []), rest)
  {
    hide ScanAll;
    var behindUri := [SPACE] + HTTP_1_1 + CRLF + rest;
    assert RequestLine(uri) + rest == GET + [SPACE, SLASH] + (uri[1..] + behindUri);
    RunGet(uri[1..] + behindUri);
    var slash := Scan(AfterSlash, [SLASH], false, 0, None, None, []);
    RunOver(slash, uri[1..], behindUri);
    assert [SLASH] + uri[1..] == uri;
    token := RunVersion(slash.(token := uri), rest, behindUri);
  }

  lemma RunGet(rest: seq<byte>)
    ensures ScanAll(INITIAL, GET + [SPACE, SLASH] + rest)
         == ScanAll(Scan(AfterSlash, [SLASH], false, 0, None, None, []), rest)
  {
    hide ScanAll;
    var text := GET + [SPACE, SLASH] + rest;
    assert text == [71] + ([69] + ([84] + ([SPACE] + ([SLASH] + rest))));
    var k1 := Step(INITIAL, 71).scan;
    var k2 := Step(k1, 69).scan;
    var k3 := Step(k2, 84).scan;
    var k4 := Step(k3, SPACE).scan;
    RunStep(INITIAL, 71, [69] + ([84] + ([SPACE] + ([SLASH] + rest))));
    RunStep(k1, 69, [84] + ([SPACE] + ([SLASH] + rest)));
    RunStep(k2, 84, [SPACE] + ([SLASH] + rest));
    assert k3.token == GET;
    RunStep(k3, SPACE, [SLASH] + rest);
    RunStep(k4, SLASH, rest);
  }

  lemma RunVersion(k: Scan, rest: seq<byte>, text: seq<byte>) returns (token: seq<byte>)
    requires k.sw == AfterSlash && WellFormed(k)
    requires text == [SPACE] + HTTP_1_1 + CRLF + rest
    ensures ScanAll(k, text) == ScanAll(k.(sw := HeaderCrlf, token := token, trailing := 0, uri := Some(k.token)), rest)
  {
    hide ScanAll;
    assert text == [SPACE] + ([72] + (HTTP_1_1[1..] + (CRLF + rest)));
    RunStep(k, SPACE, [72] + (HTTP_1_1[1..] + (CRLF + rest)));
    var k0 := Step(k, SPACE).scan;
    RunStep(k0, 72, HTTP_1_1[1..] + (CRLF + rest));
    var k1 := Step(k0, 72).scan;
    var k8 := RunRest(k1, 1, CRLF + rest);
    assert CRLF + rest == [CR] + ([LF] + rest);
    RunStep(k8, CR, [LF] + rest);
    var k9 := Step(k8, CR).scan;
    RunStep(k9, LF, rest);
    token := Step(k9, LF).scan.token;
  }

  lemma {:induction false} RunRest(k: Scan, i: nat, rest: seq<byte>) returns (end: Scan)
    requires 1 <= i < 8 && k.sw == Http && WellFormed(k) && k.token == HTTP_1_1[..i]
    ensures WellFormed(end) && end == k.(sw := HeaderCrlf, token := HTTP_1_1)
    ensures ScanAll(k, HTTP_1_1[i..] + rest) == ScanAll(end, rest)
    decreases 8 - i
  {
    hide ScanAll;
    var c := HTTP_1_1[i];
    assert IsVersionChar(c);
    assert HTTP_1_1[i..] + rest == [c] + (HTTP_1_1[i + 1..] + rest);
    assert k.token + [c] == HTTP_1_1[..i + 1];
    RunStep(k, c, HTTP_1_1[i + 1..] + rest);
    var next := Step(k, c).scan;
    if i == 7 {
      end := next;
      assert HTTP_1_1[8..] + rest == rest;
    } else {
      assert |HTTP_1_1[..i + 1]| != |HTTP_1_1|;
      end := RunRest(next, i + 1, rest);
    }
  }

  // ---- Print, then parse ----

  // A GET line followed by printed headers parses to that URI and those headers,
  // in order and unclipped, their names in upper case but for the first character;
  // without any header it never completes.
  lemma PrintedRequestParses(uri: seq<byte>, hs: seq<Header>)
    requires LegalUri(uri) && forall i | 0 <= i < |hs| :: Legal(hs[i])
    ensures Parse(RequestLine(uri) + PrintHeaders(hs))
         == if hs == [] then Incomplete else Finished(Done, Some(uri), AllAsParsed(hs))
  {
    hide ScanAll, RequestLine, PrintHeaders, AllAsParsed, Legal, LegalUri;
    var text := PrintHeaders(hs) + [NUL];
    assert RequestLine(uri) + PrintHeaders(hs) + [NUL] == RequestLine(uri) + text;
    var token := RunRequestLine(uri, text);
    RunHeaders(Scan(HeaderCrlf, token, false, 0, None, Some(uri), []), uri, hs, text);
  }

  lemma RunHeaders(k: Scan, uri: seq<byte>, hs: seq<Header>, text: seq<byte>)
    requires k.sw == HeaderCrlf && !k.crlf && k.uri == Some(uri) && k.headers == []
    requires text == PrintHeaders(hs) + [NUL] && forall i | 0 <= i < |hs| :: Legal(hs[i])
    ensures if hs == [] then ScanAll(k, text).Go? else ScanAll(k, text) == Halt(Done, Some(uri), AllAsParsed(hs))
  {
    hide ScanAll, Legal, LegalValue, Spelled;
    if hs == [] {
      RunNoHeaders(k);
    } else {
      var h, more := hs[0], PrintHeaders(hs[1..]) + [NUL];
      assert text == HeaderLine(h) + more;
      var named := RunFirstChar(k, h, more);
      RunLine(named, uri, h, more);
      LegalAsParsed(h);
      RunLines(uri, [], AsParsed(h), hs[1..], [NUL]);
      assert [] + [AsParsed(h)] + AllAsParsed(hs[1..]) == AllAsParsed(hs);
    }
  }

  lemma RunNoHeaders(k: Scan)
    requires k.sw == HeaderCrlf
    ensures ScanAll(k, PrintHeaders([]) + [NUL]).Go?
  {
    assert PrintHeaders([]) + [NUL] == [CR] + ([LF] + ([NUL] + []));
    RunStep(k, CR, [LF] + ([NUL] + []));
    var k1 := Step(k, CR).scan;
    RunStep(k1, LF, [NUL] + []);
    RunStep(Step(k1, LF).scan, NUL, []);
  }

  // What holds no zero byte is printed whole.
  lemma {:induction false} LegalIsWhole(s: seq<byte>)
    requires forall i | 0 <= i < |s| :: s[i] != NUL
    ensures CString(s) == s
  {
    if s != [] {
      LegalIsWhole(s[1..]);
    }
  }
}
