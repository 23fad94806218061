// What an accepted opening request looks like: its request line, its header names
// and values, and its end.
module RequestShapes {
  import opened Bytes
  import opened Wrappers
  import opened Handshake
  import P = HeaderPrint

  // ---- The request line ----

  // Line ends and zero bytes, then "GET ", letters and blanks, the URI, a blank and
  // more, then "HTTP/1.1" and the rest.
  datatype Parts = Parts(lead: seq<byte>, pad: seq<byte>, uri: seq<byte>, gap: seq<byte>, rest: seq<byte>)

  predicate IsLead(s: seq<byte>) {
    forall i | 0 <= i < |s| :: s[i] == 13 || s[i] == 10 || s[i] == 0
  }

  predicate IsPad(s: seq<byte>) {
    forall i | 0 <= i < |s| :: s[i] == 32 || 65 <= s[i] <= 90 || 97 <= s[i] <= 122
  }

  predicate IsUri(s: seq<byte>) {
    s != [] && s[0] == 47 && forall i | 0 <= i < |s| :: s[i] != 32 && s[i] != 13 && s[i] != 10 && s[i] != 0
  }

  predicate IsGap(s: seq<byte>) {
    forall i | 0 <= i < |s| :: s[i] == 32
  }

  const METHOD_TEXT: seq<byte> := [71, 69, 84, 32]
  const VERSION_TEXT: seq<byte> := [72, 84, 84, 80, 47, 49, 46, 49]

  predicate InOrder(p: Parts) {
    IsLead(p.lead) && IsPad(p.pad) && IsUri(p.uri) && IsGap(p.gap)
  }

  function BeforeUri(p: Parts): seq<byte> {
    p.lead + METHOD_TEXT + p.pad
  }

  function BeforeVersion(p: Parts): seq<byte> {
    BeforeUri(p) + p.uri + [32] + p.gap
  }

  function Text(p: Parts): seq<byte> {
    BeforeVersion(p) + VERSION_TEXT + p.rest
  }

  // ---- Names, values and the end ----

  // The first character of a name or a value is no line end and no blank.
  predicate StartsWell(s: seq<byte>) {
    s != [] && s[0] != 13 && s[0] != 10 && s[0] != 32 && s[0] != 9
  }

  // Behind it, a name has no separators, no colon and no small letters.
  predicate IsName(s: seq<byte>) {
    StartsWell(s) && forall i | 0 < i < |s| :: !IsSeparator(s[i]) && s[i] != 58 && !(97 <= s[i] <= 122)
  }

  predicate IsHeader(h: Header) {
    IsName(h.name) && StartsWell(h.value)
  }

  // A line feed, with carriage returns behind it at most.
  predicate LineEnded(v: seq<byte>) {
    v != [] && (v[|v| - 1] == 10 || (v[|v| - 1] == 13 && LineEnded(v[..|v| - 1])))
  }

  // ---- What the scan knows of the text it has run over ----

  predicate Line(k: Scan, v: seq<byte>, p: Parts) {
    match k.sw
    case Start => v == p.lead && IsLead(p.lead)
    case Method => v == p.lead + k.token && IsLead(p.lead)
    case SpacesBeforeUri => v == BeforeUri(p) && IsLead(p.lead) && IsPad(p.pad)
    case AfterSlash => v == BeforeUri(p) + k.token && IsLead(p.lead) && IsPad(p.pad) && IsUri(k.token)
    case SpacesBeforeHttp => v == BeforeVersion(p) && InOrder(p) && k.uri == Some(p.uri)
    case Http => v == BeforeVersion(p) + k.token && InOrder(p) && k.uri == Some(p.uri)
    case _ => v == Text(p) && InOrder(p) && k.uri == Some(p.uri)
  }

  predicate InHeaders(sw: Switch) {
    sw == HeaderCrlf || sw == HeaderLws || sw == HeaderName || sw == Separator || sw == HeaderValue
  }

  predicate Headers(k: Scan, v: seq<byte>) {
    && (InHeaders(k.sw) ==> StartsWell(k.token))
    && (k.sw == HeaderName ==> IsName(k.token))
    && (k.name.Some? ==> IsName(k.name.value))
    && (forall i | 0 <= i < |k.headers| :: IsHeader(k.headers[i]))
    && (k.crlf ==> (k.sw == HeaderLws || k.sw == HeaderValue) && LineEnded(v))
  }

  lemma MethodLine(k: Scan, v: seq<byte>, p: Parts, c: byte) returns (q: Parts)
    requires WellFormed(k) && (k.sw == Start || k.sw == Method) && Line(k, v, p) && Step(k, c).Go?
    ensures Line(Step(k, c).scan, v + [c], q)
  {
    q := p;
    if k.sw == Start {
      if c == LF || c == CR || c == NUL { q := p.(lead := p.lead + [c]); }
    } else if c == SPACE {
      q := p.(pad := []);
      assert p.lead + GET + [SPACE] == p.lead + METHOD_TEXT + [];
    } else {
      assert p.lead + k.token + [c] == p.lead + (k.token + [c]);
    }
  }

  lemma UriLine(k: Scan, v: seq<byte>, p: Parts, c: byte) returns (q: Parts)
    requires WellFormed(k) && (k.sw == SpacesBeforeUri || k.sw == AfterSlash) && Line(k, v, p) && Step(k, c).Go?
    ensures Line(Step(k, c).scan, v + [c], q)
  {
    q := p;
    if k.sw == SpacesBeforeUri {
      if c != SLASH {
        q := p.(pad := p.pad + [c]);
        assert BeforeUri(p) + [c] == BeforeUri(q);
      }
    } else if c == SPACE {
      q := p.(uri := k.token, gap := []);
      assert BeforeUri(p) + k.token + [c] == BeforeUri(q) + q.uri + [32] + q.gap;
    } else {
      assert BeforeUri(p) + k.token + [c] == BeforeUri(p) + (k.token + [c]);
    }
  }

  lemma VersionLine(k: Scan, v: seq<byte>, p: Parts, c: byte) returns (q: Parts)
    requires WellFormed(k) && (k.sw == SpacesBeforeHttp || k.sw == Http) && Line(k, v, p) && Step(k, c).Go?
    ensures Line(Step(k, c).scan, v + [c], q)
  {
    hide BeforeUri;
    q := p;
    if k.sw == SpacesBeforeHttp {
      if c == SPACE {
        q := p.(gap := p.gap + [c]);
        assert BeforeUri(q) == BeforeUri(p) by { SameBefore(p, q); }
        assert BeforeVersion(p) + [c] == BeforeVersion(q);
      }
    } else if k.token + [c] == HTTP_1_1 {
      q := p.(rest := []);
      SameBefore(p, q);
      assert BeforeVersion(p) + k.token + [c] == BeforeVersion(p) + (k.token + [c]) + [];
    } else {
      assert BeforeVersion(p) + k.token + [c] == BeforeVersion(p) + (k.token + [c]);
    }
  }

  lemma SameBefore(p: Parts, q: Parts)
    requires q.lead == p.lead && q.pad == p.pad
    ensures BeforeUri(q) == BeforeUri(p)
    ensures q.uri == p.uri && q.gap == p.gap ==> BeforeVersion(q) == BeforeVersion(p)
  {
  }

  lemma RestLine(k: Scan, v: seq<byte>, p: Parts, c: byte) returns (q: Parts)
    requires WellFormed(k) && InHeaders(k.sw) && Line(k, v, p) && Step(k, c).Go?
    ensures Line(Step(k, c).scan, v + [c], q)
  {
    q := p.(rest := p.rest + [c]);
    SameBefore(p, q);
    assert Text(p) + [c] == Text(q);
    StaysInHeaders(k, c);
  }

  lemma StaysInHeaders(k: Scan, c: byte)
    requires WellFormed(k) && InHeaders(k.sw) && Step(k, c).Go?
    ensures InHeaders(Step(k, c).scan.sw) && Step(k, c).scan.uri == k.uri
  {
  }

  lemma StepLine(k: Scan, v: seq<byte>, p: Parts, c: byte) returns (q: Parts)
    requires WellFormed(k) && Line(k, v, p) && Step(k, c).Go?
    ensures Line(Step(k, c).scan, v + [c], q)
  {
    hide Line, Step;
    match k.sw
    case Start => q := MethodLine(k, v, p, c);
    case Method => q := MethodLine(k, v, p, c);
    case SpacesBeforeUri => q := UriLine(k, v, p, c);
    case AfterSlash => q := UriLine(k, v, p, c);
    case SpacesBeforeHttp => q := VersionLine(k, v, p, c);
    case Http => q := VersionLine(k, v, p, c);
    case _ => q := RestLine(k, v, p, c);
  }

  // ---- What it knows of the headers ----

  lemma Grows(s: seq<byte>, c: byte)
    requires StartsWell(s)
    ensures StartsWell(s + [c])
    ensures IsName(s) && !IsSeparator(c) && c != COLON ==> IsName(s + [ToUpper(c)])
  {
    assert forall i | 0 <= i < |s| :: (s + [ToUpper(c)])[i] == s[i];
  }

  lemma EndsOn(v: seq<byte>, c: byte)
    ensures c == LF ==> LineEnded(v + [c])
    ensures c == CR && LineEnded(v) ==> LineEnded(v + [c])
  {
    assert (v + [c])[..|v + [c]| - 1] == v;
  }

  lemma AddedIsHeader(k: Scan)
    requires WellFormed(k) && k.sw == HeaderValue && StartsWell(k.token) && (k.name.Some? ==> IsName(k.name.value))
    requires forall i | 0 <= i < |k.headers| :: IsHeader(k.headers[i])
    ensures forall i | 0 <= i < |Added(k)| :: IsHeader(Added(k)[i])
  {
    var value := k.token[..|k.token| - k.trailing];
    assert value[0] == k.token[0];
  }

  lemma StepHeaders(k: Scan, v: seq<byte>, c: byte)
    requires WellFormed(k) && Headers(k, v) && Step(k, c).Go?
    ensures Headers(Step(k, c).scan, v + [c])
  {
    EndsOn(v, c);
    if StartsWell(k.token) { Grows(k.token, c); }
    if k.sw == HeaderValue { AddedIsHeader(k); }
    hide IsName, LineEnded, Added, IsHeader;
    if !InHeaders(k.sw) {
      FirstStep(k, v, c);
    }
  }

  lemma FirstStep(k: Scan, v: seq<byte>, c: byte)
    requires WellFormed(k) && Headers(k, v) && !InHeaders(k.sw) && Step(k, c).Go?
    ensures Headers(Step(k, c).scan, v + [c])
  {
    hide IsName, LineEnded, IsHeader;
    if k.sw == Http && k.token + [c] == HTTP_1_1 {
      assert (k.token + [c])[0] == 72;
    }
  }

  // ---- Accepted requests ----

  // The step that ends a request: a line feed behind an ended line.
  lemma LastStep(k: Scan, v: seq<byte>, c: byte)
    requires WellFormed(k) && Headers(k, v) && Step(k, c).Halt? && Step(k, c).code == Done
    ensures InHeaders(k.sw) && c == 10 && LineEnded(v) && Step(k, c).uri == k.uri
    ensures forall i | 0 <= i < |Step(k, c).headers| :: IsHeader(Step(k, c).headers[i])
  {
    if k.sw == HeaderValue { AddedIsHeader(k); }
    hide IsName, LineEnded, Added, IsHeader;
  }

  lemma {:induction false} ScanShape(k: Scan, v: seq<byte>, p: Parts, text: seq<byte>) returns (q: Parts, n: nat)
    requires WellFormed(k) && Line(k, v, p) && Headers(k, v)
    requires ScanAll(k, text).Halt? && ScanAll(k, text).code == Done
    ensures n < |text| && text[n] == 10 && LineEnded(v + text[..n])
    ensures v + text[..n] == Text(q) && InOrder(q) && ScanAll(k, text).uri == Some(q.uri)
    ensures forall i | 0 <= i < |ScanAll(k, text).headers| :: IsHeader(ScanAll(k, text).headers[i])
    decreases |text|
  {
    hide Step, Line, Headers, LineEnded, IsHeader;
    var c := text[0];
    if Step(k, c).Go? {
      var next := StepLine(k, v, p, c);
      StepHeaders(k, v, c);
      q, n := ScanShape(Step(k, c).scan, v + [c], next, text[1..]);
      assert v + [c] + text[1..][..n] == v + text[..n + 1];
      n := n + 1;
    } else {
      LastStep(k, v, c);
      LateLine(k, v, p);
      q, n := p, 0;
      assert v + text[..0] == v;
    }
  }

  lemma LateLine(k: Scan, v: seq<byte>, p: Parts)
    requires Line(k, v, p) && InHeaders(k.sw)
    ensures v == Text(p) && InOrder(p) && k.uri == Some(p.uri)
  {
  }

  // A request that is accepted begins with a GET line of version 1.1, and the URI is
  // the one in it; all its headers have proper names and values; and it is complete
  // with an empty line.
  lemma AcceptedShape(u: seq<byte>) returns (p: Parts, n: nat)
    requires Accepted(Parse(u))
    ensures n < |u| && u[..n] == Text(p) && InOrder(p) && Parse(u).uri == Some(p.uri)
    ensures LineEnded(u[..n]) && u[n] == 10
    ensures forall i | 0 <= i < |Parse(u).headers| :: IsHeader(Parse(u).headers[i])
  {
    hide Step, Line, Headers, LineEnded, IsHeader, ScanAll;
    ParseByPrefix(u);
    var none := Parts([], [], [], [], []);
    AtFirst(none);
    p, n := ScanShape(INITIAL, [], none, u);
    assert [] + u[..n] == u[..n];
  }

  lemma AtFirst(p: Parts)
    requires p == Parts([], [], [], [], [])
    ensures WellFormed(INITIAL) && Line(INITIAL, [], p) && Headers(INITIAL, [])
  {
  }

  // ---- Request lines that are taken ----

  lemma {:induction false} RunLead(k: Scan, lead: seq<byte>, more: seq<byte>) returns (token: seq<byte>)
    requires k.sw == Start && WellFormed(k) && IsLead(lead)
    ensures ScanAll(k, lead + more) == ScanAll(k.(token := token), more)
    decreases |lead|
  {
    if lead == [] {
      token := k.token;
      assert lead + more == more;
    } else {
      assert (lead + more)[1..] == lead[1..] + more;
      assert Step(k, lead[0]) == Go(k.(token := [lead[0]]));
      token := RunLead(k.(token := [lead[0]]), lead[1..], more);
    }
  }

  lemma {:induction false} RunPad(k: Scan, pad: seq<byte>, more: seq<byte>) returns (token: seq<byte>)
    requires k.sw == SpacesBeforeUri && WellFormed(k) && IsPad(pad)
    ensures ScanAll(k, pad + more) == ScanAll(k.(token := token), more)
    decreases |pad|
  {
    if pad == [] {
      token := k.token;
      assert pad + more == more;
    } else {
      var next := k.(token := k.token + [pad[0]]);
      assert (pad + more)[1..] == pad[1..] + more;
      assert Step(k, pad[0]) == Go(next);
      token := RunPad(next, pad[1..], more);
    }
  }

  lemma {:induction false} RunUri(k: Scan, uri: seq<byte>, more: seq<byte>)
    requires k.sw == AfterSlash && WellFormed(k)
    requires forall i | 0 <= i < |uri| :: uri[i] != 32 && uri[i] != 13 && uri[i] != 10 && uri[i] != 0
    ensures ScanAll(k, uri + more) == ScanAll(k.(token := k.token + uri), more)
    decreases |uri|
  {
    if uri == [] {
      assert uri + more == more && k.token + uri == k.token;
    } else {
      var next := k.(token := k.token + [uri[0]]);
      assert (uri + more)[1..] == uri[1..] + more;
      assert Step(k, uri[0]) == Go(next);
      RunUri(next, uri[1..], more);
      assert next.token + uri[1..] == k.token + uri;
    }
  }

  lemma {:induction false} RunGap(k: Scan, gap: seq<byte>, more: seq<byte>) returns (token: seq<byte>)
    requires k.sw == SpacesBeforeHttp && WellFormed(k) && IsGap(gap)
    ensures ScanAll(k, gap + more) == ScanAll(k.(token := token), more)
    decreases |gap|
  {
    if gap == [] {
      token := k.token;
      assert gap + more == more;
    } else {
      var next := k.(token := k.token + [32]);
      assert (gap + more)[1..] == gap[1..] + more;
      assert Step(k, gap[0]) == Go(next);
      token := RunGap(next, gap[1..], more);
    }
  }

  lemma RunMethod(k: Scan, more: seq<byte>) returns (token: seq<byte>)
    requires k.sw == Start && WellFormed(k)
    ensures ScanAll(k, METHOD_TEXT + more) == ScanAll(k.(sw := SpacesBeforeUri, token := token), more)
  {
    hide ScanAll;
    var k1 := Step(k, 71).scan;
    var k2 := Step(k1, 69).scan;
    var k3 := Step(k2, 84).scan;
    assert METHOD_TEXT + more == [71] + ([69] + ([84] + ([32] + more)));
    P.RunStep(k, 71, [69] + ([84] + ([32] + more)));
    P.RunStep(k1, 69, [84] + ([32] + more));
    P.RunStep(k2, 84, [32] + more);
    assert k3.token == GET;
    P.RunStep(k3, 32, more);
    token := Step(k3, 32).scan.token;
  }

  // Every such request line is taken, and the headers begin behind it.
  lemma LineIsTaken(p: Parts) returns (k: Scan)
    requires InOrder(p)
    ensures k.sw == HeaderCrlf && !k.crlf && k.uri == Some(p.uri) && k.headers == [] && WellFormed(k)
    ensures ScanAll(INITIAL, Text(p)) == ScanAll(k, p.rest)
  {
    hide ScanAll, IsLead, IsPad, IsGap;
    var behindVersion := p.rest;
    var version := VERSION_TEXT + behindVersion;
    var behindUri := [32] + (p.gap + version);
    assert Text(p) == p.lead + (METHOD_TEXT + (p.pad + (p.uri + behindUri)));
    var t0 := RunLead(INITIAL, p.lead, METHOD_TEXT + (p.pad + (p.uri + behindUri)));
    var t1 := RunMethod(INITIAL.(token := t0), p.pad + (p.uri + behindUri));
    var k1 := INITIAL.(sw := SpacesBeforeUri, token := t1);
    var t2 := RunPad(k1, p.pad, p.uri + behindUri);
    var k2 := RunUriText(k1.(token := t2), p.uri, p.gap + version);
    var t3 := RunGap(k2, p.gap, version);
    k := RunVersionText(k2.(token := t3), behindVersion);
  }

  lemma RunUriText(k: Scan, uri: seq<byte>, more: seq<byte>) returns (next: Scan)
    requires k.sw == SpacesBeforeUri && WellFormed(k) && IsUri(uri)
    ensures next.sw == SpacesBeforeHttp && WellFormed(next) && next == k.(sw := SpacesBeforeHttp, token := next.token, uri := Some(uri))
    ensures ScanAll(k, uri + ([32] + more)) == ScanAll(next, more)
  {
    hide ScanAll;
    var tail := uri[1..] + ([32] + more);
    assert uri + ([32] + more) == [47] + tail;
    P.RunStep(k, 47, tail);
    var k1 := Step(k, 47).scan;
    RunUri(k1, uri[1..], [32] + more);
    var k2 := k1.(token := k1.token + uri[1..]);
    assert k2.token == uri;
    P.RunStep(k2, 32, more);
    next := Step(k2, 32).scan;
  }

  lemma RunVersionText(k: Scan, more: seq<byte>) returns (next: Scan)
    requires k.sw == SpacesBeforeHttp && WellFormed(k)
    ensures next == k.(sw := HeaderCrlf, token := next.token) && WellFormed(next)
    ensures ScanAll(k, VERSION_TEXT + more) == ScanAll(next, more)
  {
    hide ScanAll;
    assert VERSION_TEXT + more == [72] + (HTTP_1_1[1..] + more);
    P.RunStep(k, 72, HTTP_1_1[1..] + more);
    next := P.RunRest(Step(k, 72).scan, 1, more);
  }

  // ---- Header names ----

  // The request is accepted and one of its headers has this name.
  ghost predicate Names(u: seq<byte>, name: seq<byte>) {
    Accepted(Parse(u)) && exists i | 0 <= i < |Parse(u).headers| :: Parse(u).headers[i].name == name
  }

  lemma NameIsTaken(name: seq<byte>) returns (u: seq<byte>)
    requires IsName(name)
    ensures Names(u, name)
  {
    var h := Header(name, [120]);
    u := P.RequestLine([SLASH]) + P.PrintHeaders([h]);
    assert P.Legal(h) && P.LegalUri([SLASH]);
    P.SpelledAsSent(name);
    P.PrintedRequestParses([SLASH], [h]);
    hide P.RequestLine, P.PrintHeaders, P.Legal, P.Spelled, IsName, Parse;
    assert P.AllAsParsed([h]) == [h];
    assert Parse(u).headers[0].name == name;
  }

  // The names of headers in accepted requests are exactly these.
  lemma NamesExactly(name: seq<byte>)
    ensures IsName(name) <==> exists u :: Names(u, name)
  {
    hide Parse, IsName;
    if IsName(name) {
      var u := NameIsTaken(name);
    }
    if exists u :: Names(u, name) {
      var u :| Names(u, name);
      var p, n := AcceptedShape(u);
    }
  }

  // "(" is one of them, and "a(" is not.
  lemma FirstCharacterIsFree()
    ensures exists u :: Names(u, [40])
    ensures !exists u :: Names(u, [97, 40])
  {
    NamesExactly([40]);
    NamesExactly([97, 40]);
    assert IsSeparator([97, 40][1]);
    hide Names;
  }
}
