// The opening request: an eleven-state machine over the bytes received so far,
// restarted from the first byte whenever they do not suffice.
module Handshake {
  import opened Bytes
  import opened Wrappers

  datatype Switch =
    | Start
    | Method
    | SpacesBeforeUri
    | AfterSlash
    | SpacesBeforeHttp
    | Http
    | HeaderName
    | Separator
    | HeaderCrlf
    | HeaderLws
    | HeaderValue

  const TAB: byte := 9
  const LF: byte := 10
  const CR: byte := 13
  const SPACE: byte := 32
  const QUOTE: byte := 34
  const BACKSLASH: byte := 92
  const COLON: byte := ':' as int
  const SLASH: byte := '/' as int

  predicate IsBlank(c: byte) {
    c == SPACE || c == TAB
  }

  predicate IsUpperCase(c: byte) {
    'A' as int <= c <= 'Z' as int
  }

  predicate IsLowerCase(c: byte) {
    'a' as int <= c <= 'z' as int
  }

  function ToUpper(c: byte): byte {
    if IsLowerCase(c) then c - 32 else c
  }

  // Characters that end the parse inside a header name; the colon is not one of them.
  predicate IsSeparator(c: byte) {
    || c == '(' as int || c == ')' as int || c == '<' as int || c == '>' as int || c == '@' as int
    || c == ',' as int || c == ';' as int || c == BACKSLASH || c == QUOTE || c == SLASH
    || c == '[' as int || c == ']' as int || c == '?' as int || c == '=' as int
    || c == '{' as int || c == '}' as int || c == CR || c == LF || c == SPACE || c == TAB
  }

  // Characters allowed in the protocol version.
  predicate IsVersionChar(c: byte) {
    c == 'H' as int || c == 'T' as int || c == 'P' as int || c == SLASH || c == '1' as int || c == '.' as int
  }

  datatype Header = Header(name: seq<byte>, value: seq<byte>)

  // `token` is what was read since the left marker was last set, and `trailing`
  // counts the line-end characters at its end.
  datatype Scan = Scan(
    sw: Switch, token: seq<byte>, crlf: bool, trailing: nat, name: Option<seq<byte>>,
    uri: Option<seq<byte>>, headers: seq<Header>)

  datatype Code = Done | InvalidMethod | InvalidRequest

  datatype Next = Go(scan: Scan) | Halt(code: Code, uri: Option<seq<byte>>, headers: seq<Header>)

  const INITIAL := Scan(Start, [], false, 0, None, None, [])

  const GET: seq<byte> := [71, 69, 84]
  const HTTP_1_1: seq<byte> := [72, 84, 84, 80, 47, 49, 46, 49]

  function Stop(k: Scan, code: Code): Next {
    Halt(code, k.uri, k.headers)
  }

  // The marker stays where it is.
  function Keep(k: Scan, sw: Switch, c: byte): Next {
    Go(k.(sw := sw, token := k.token + [c]))
  }

  // The marker moves to c.
  function Mark(k: Scan, sw: Switch, c: byte): Next {
    Go(k.(sw := sw, token := [c]))
  }

  // The headers with the one that ends here; none is added before the first name.
  function Added(k: Scan): seq<Header>
    requires k.trailing <= |k.token|
  {
    match k.name
    case None => k.headers
    case Some(name) => k.headers + [Header(name, k.token[..|k.token| - k.trailing])]
  }

  // The line-end characters counted never reach back to the first byte of a value.
  predicate WellFormed(k: Scan) {
    && (k.sw == HeaderValue ==> k.trailing < |k.token|)
    && (k.sw == HeaderName || k.sw == Separator ==> k.trailing == 0)
  }

  function Step(k: Scan, c: byte): (n: Next)
    requires WellFormed(k)
    ensures n.Go? ==> WellFormed(n.scan)
  {
    match k.sw
    case Start =>
      if c == LF || c == CR || c == NUL then Mark(k, Start, c)
      else if !IsUpperCase(c) then Stop(k, InvalidMethod)
      else Mark(k, Method, c)
    case Method =>
      if c == SPACE then
        if k.token == GET then Keep(k, SpacesBeforeUri, c) else Stop(k, InvalidMethod)
      else if !IsUpperCase(c) then Stop(k, InvalidMethod)
      else Keep(k, Method, c)
    case SpacesBeforeUri =>
      if c == SLASH then Mark(k, AfterSlash, c)
      else if IsUpperCase(c) || IsLowerCase(c) || c == SPACE then Keep(k, SpacesBeforeUri, c)
      else Stop(k, InvalidRequest)
    case AfterSlash =>
      if c == SPACE then Keep(k.(uri := Some(k.token)), SpacesBeforeHttp, c)
      else if c == LF || c == CR || c == NUL then Stop(k, InvalidRequest)
      else Keep(k, AfterSlash, c)
    case SpacesBeforeHttp =>
      if c == 'H' as int then Mark(k, Http, c)
      else if c == SPACE then Keep(k, SpacesBeforeHttp, c)
      else Stop(k, InvalidRequest)
    case Http =>
      if !IsVersionChar(c) then Stop(k, InvalidRequest)
      else if k.token + [c] == HTTP_1_1 then Keep(k, HeaderCrlf, c)
      else if |k.token| > 7 then Stop(k, InvalidRequest)
      else Keep(k, Http, c)
    case HeaderCrlf =>
      var k := k.(trailing := 0);
      if c == CR || c == LF then Keep(k, HeaderCrlf, c)
      else if IsBlank(c) then Keep(k, HeaderLws, c)
      else Mark(k, HeaderName, c)
    case HeaderLws =>
      var k := k.(trailing := 0);
      if c == CR then Keep(k, HeaderLws, c)
      else if c == LF then
        if k.crlf then Stop(k, Done) else Keep(k.(crlf := true), HeaderLws, c)
      else if IsBlank(c) then Keep(k.(crlf := false), HeaderValue, c)
      else Mark(k.(crlf := false), HeaderName, c)
    case HeaderName =>
      if IsSeparator(c) then Stop(k, InvalidRequest)
      else if c == COLON then Keep(k.(name := Some(k.token)), Separator, c)
      else Keep(k, HeaderName, ToUpper(c))
    case Separator =>
      if IsBlank(c) || c == CR then Keep(k, Separator, c)
      else if c == LF then Keep(k.(crlf := true), HeaderLws, c)
      else Mark(k, HeaderValue, c)
    case HeaderValue =>
      if c == CR then Keep(k.(trailing := k.trailing + 1), HeaderValue, c)
      else if c == LF then
        if k.crlf then Halt(Done, k.uri, Added(k))
        else Keep(k.(crlf := true, trailing := k.trailing + 1), HeaderValue, c)
      else if IsBlank(c) then
        Keep(if k.crlf then k.(crlf := false, trailing := 0) else k, HeaderValue, c)
      else if k.crlf then
        Mark(k.(crlf := false, trailing := 0, headers := Added(k)), HeaderName, c)
      else Keep(k, HeaderValue, c)
  }

  // Runs over text until it is used up or the parse ends.
  function ScanAll(k: Scan, text: seq<byte>): (n: Next)
    requires WellFormed(k)
    ensures n.Go? ==> WellFormed(n.scan)
    decreases |text|
  {
    if text == [] then Go(k)
    else
      match Step(k, text[0])
      case Go(next) => ScanAll(next, text[1..])
      case halt => halt
  }

  // The text as the run leaves it: header names are upper-cased in place, all
  // but their first character.
  function Rewrite(k: Scan, text: seq<byte>): (r: seq<byte>)
    requires WellFormed(k)
    ensures |r| == |text|
    decreases |text|
  {
    if text == [] then []
    else
      match Step(k, text[0])
      case Go(next) => [Stored(k, text[0])] + Rewrite(next, text[1..])
      case _ => text
  }

  function Stored(k: Scan, c: byte): byte {
    if k.sw == HeaderName && c != COLON then ToUpper(c) else c
  }

  datatype Outcome = Incomplete | Finished(code: Code, uri: Option<seq<byte>>, headers: seq<Header>)

  // The parse of everything received; it also runs over the buffer's sentinel.
  function Parse(content: seq<byte>): Outcome {
    match ScanAll(INITIAL, content + [NUL])
    case Go(_) => Incomplete
    case Halt(code, uri, headers) => Finished(code, uri, headers)
  }

  predicate Accepted(o: Outcome) {
    o.Finished? && o.code == Done
  }

  // ---- Running in pieces ----

  lemma {:induction false} ScanConcat(k: Scan, a: seq<byte>, b: seq<byte>)
    requires WellFormed(k)
    ensures ScanAll(k, a + b) == match ScanAll(k, a) case Go(next) => ScanAll(next, b) case halt => halt
    decreases |a|
  {
    if a == [] {
      assert a + b == b;
    } else {
      assert (a + b)[1..] == a[1..] + b;
      if Step(k, a[0]).Go? {
        ScanConcat(Step(k, a[0]).scan, a[1..], b);
      }
    }
  }

  lemma StoredStepsAlike(k: Scan, c: byte)
    requires WellFormed(k) && Step(k, c).Go?
    ensures Step(k, Stored(k, c)) == Step(k, c) && Stored(k, Stored(k, c)) == Stored(k, c)
  {
  }

  // Upper-casing a name in place does not change how it is read again.
  lemma {:induction false} RewrittenScansAlike(k: Scan, a: seq<byte>, b: seq<byte>)
    requires WellFormed(k)
    ensures ScanAll(k, Rewrite(k, a) + b) == ScanAll(k, a + b)
    decreases |a|
  {
    if a == [] {
      assert Rewrite(k, a) + b == a + b;
    } else if Step(k, a[0]).Go? {
      hide Step, Stored;
      var next := Step(k, a[0]).scan;
      StoredStepsAlike(k, a[0]);
      RewrittenScansAlike(next, a[1..], b);
      assert (Rewrite(k, a) + b)[1..] == Rewrite(next, a[1..]) + b;
      assert (a + b)[1..] == a[1..] + b;
    }
  }

  lemma {:induction false} RewriteTwice(k: Scan, a: seq<byte>, b: seq<byte>)
    requires WellFormed(k)
    ensures Rewrite(k, Rewrite(k, a) + b) == Rewrite(k, a + b)
    decreases |a|
  {
    if a == [] {
      assert Rewrite(k, a) + b == a + b;
    } else if Step(k, a[0]).Go? {
      hide Step, Stored;
      var next := Step(k, a[0]).scan;
      StoredStepsAlike(k, a[0]);
      RewriteTwice(next, a[1..], b);
      assert (Rewrite(k, a) + b)[1..] == Rewrite(next, a[1..]) + b;
      assert (a + b)[1..] == a[1..] + b;
    }
  }

  // ---- Resuming ----

  // The bytes received so far stop inside the request line, behind its first character.
  predicate EndsInRequestLine(a: seq<byte>) {
    var n := ScanAll(INITIAL, a);
    n.Go? && InRequestLine(n.scan.sw)
  }

  predicate InRequestLine(sw: Switch) {
    sw == Method || sw == SpacesBeforeUri || sw == AfterSlash || sw == SpacesBeforeHttp || sw == Http
  }

  // Running over the sentinel never completes a request. It ends the parse
  // exactly when it is met inside the request line.
  lemma SentinelVerdict(k: Scan)
    requires WellFormed(k)
    ensures InRequestLine(k.sw) <==> Step(k, NUL).Halt?
    ensures Step(k, NUL).Halt? ==> Step(k, NUL).code != Done
  {
  }

  lemma ParseByPrefix(a: seq<byte>)
    ensures match ScanAll(INITIAL, a)
            case Halt(code, uri, headers) => Parse(a) == Finished(code, uri, headers)
            case Go(k) => if InRequestLine(k.sw) then Parse(a).Finished? && !Accepted(Parse(a)) else Parse(a) == Incomplete
  {
    ScanConcat(INITIAL, a, [NUL]);
    if ScanAll(INITIAL, a).Go? {
      var k := ScanAll(INITIAL, a).scan;
      SentinelVerdict(k);
      if Step(k, NUL).Go? {
        assert ScanAll(Step(k, NUL).scan, []) == Step(k, NUL);
      }
      assert [NUL][1..] == [];
    }
  }

  lemma EmptyIsIncomplete()
    ensures Parse([]) == Incomplete
    ensures Rewrite(INITIAL, []) == []
  {
    ParseByPrefix([]);
  }

  // What the server makes of a request that arrives in chunks: as long as the
  // parse is incomplete it starts again over all bytes, as the last parse left them.
  function ReceiveRequest(pending: seq<byte>, chunks: seq<seq<byte>>): Outcome
    decreases |chunks|
  {
    if chunks == [] then Incomplete
    else
      var content := pending + chunks[0];
      match Parse(content)
      case Incomplete => ReceiveRequest(Rewrite(INITIAL, content), chunks[1..])
      case finished => finished
  }

  lemma RewrittenParsesAlike(a: seq<byte>, b: seq<byte>)
    ensures Parse(Rewrite(INITIAL, a) + b) == Parse(a + b)
    ensures Rewrite(INITIAL, Rewrite(INITIAL, a) + b) == Rewrite(INITIAL, a + b)
  {
    RewrittenScansAlike(INITIAL, a, b + [NUL]);
    assert Rewrite(INITIAL, a) + b + [NUL] == Rewrite(INITIAL, a) + (b + [NUL]);
    assert a + b + [NUL] == a + (b + [NUL]);
    RewriteTwice(INITIAL, a, b);
  }

  // A verdict on the beginning, unless the sentinel caused it, is the verdict on the whole.
  lemma VerdictStands(a: seq<byte>, b: seq<byte>)
    requires Parse(a).Finished? && !EndsInRequestLine(a)
    ensures Parse(a + b) == Parse(a)
  {
    ParseByPrefix(a);
    ScanConcat(INITIAL, a, b + [NUL]);
    assert a + b + [NUL] == a + (b + [NUL]);
  }

  // No chunk but the last ends inside the request line.
  predicate CutsOutsideRequestLine(before: seq<byte>, chunks: seq<seq<byte>>)
    decreases |chunks|
  {
    |chunks| <= 1 ||
    (!EndsInRequestLine(before + chunks[0]) && CutsOutsideRequestLine(before + chunks[0], chunks[1..]))
  }

  lemma {:induction false} RequestResumes(before: seq<byte>, chunks: seq<seq<byte>>)
    requires chunks != [] && CutsOutsideRequestLine(before, chunks)
    ensures ReceiveRequest(Rewrite(INITIAL, before), chunks) == Parse(before + Concat(chunks))
    decreases |chunks|
  {
    var content, more := before + chunks[0], Concat(chunks[1..]);
    RewrittenParsesAlike(before, chunks[0]);
    assert content + more == before + Concat(chunks);
    if |chunks| == 1 {
      assert content + [] == content;
    } else if Parse(content).Finished? {
      VerdictStands(content, more);
    } else {
      RequestResumes(content, chunks[1..]);
    }
  }

  lemma {:induction false} RequestBreaks(before: seq<byte>, chunks: seq<seq<byte>>)
    requires Accepted(Parse(before + Concat(chunks))) && !CutsOutsideRequestLine(before, chunks)
    ensures !Accepted(ReceiveRequest(Rewrite(INITIAL, before), chunks))
    decreases |chunks|
  {
    var content, more := before + chunks[0], Concat(chunks[1..]);
    RewrittenParsesAlike(before, chunks[0]);
    assert content + more == before + Concat(chunks);
    if EndsInRequestLine(content) {
      ParseByPrefix(content);
    } else if Parse(content).Finished? {
      ParseByPrefix(content);
      LaterCutsDoNotMatter(content, chunks[1..]);
    } else {
      RequestBreaks(content, chunks[1..]);
    }
  }

  // Once a parse has ended by itself, nothing ends inside the request line any more.
  lemma {:induction false} LaterCutsDoNotMatter(a: seq<byte>, chunks: seq<seq<byte>>)
    requires ScanAll(INITIAL, a).Halt?
    ensures CutsOutsideRequestLine(a, chunks)
    decreases |chunks|
  {
    if |chunks| > 1 {
      ScanConcat(INITIAL, a, chunks[0]);
      LaterCutsDoNotMatter(a + chunks[0], chunks[1..]);
    }
  }

  // A request that is accepted in one piece is accepted in chunks, with the
  // same URI and headers, if and only if no chunk ends inside its request line.
  lemma ResumesExactly(chunks: seq<seq<byte>>)
    requires Accepted(Parse(Concat(chunks)))
    ensures ReceiveRequest([], chunks) == Parse(Concat(chunks)) <==> CutsOutsideRequestLine([], chunks)
  {
    assert [] + Concat(chunks) == Concat(chunks);
    if CutsOutsideRequestLine([], chunks) {
      if chunks == [] {
        ParseByPrefix([]);
      }
      RequestResumes([], chunks);
    } else {
      RequestBreaks([], chunks);
    }
  }
}
