// The opening request parsed in the input buffer: positions instead of texts,
// and header names upper-cased where they lie.
module HandshakeParser {
  import opened Bytes
  import opened Wrappers
  import opened Buffers
  import opened Handshake

  class Request {
    var uri: Option<seq<byte>>
    var headers: seq<Header>

    constructor ()
      ensures uri == None && headers == []
    {
      uri, headers := None, [];
    }

    // The header is left out when it has no name yet.
    method AddHeader(name: Option<seq<byte>>, value: seq<byte>)
      modifies this`headers
      ensures headers == match name case None => old(headers) case Some(n) => old(headers) + [Header(n, value)]
    {
      match name {
        case None =>
        case Some(n) => headers := headers + [Header(n, value)];
      }
    }
  }

  // The parser's locals: a state, the left marker, the flags, and where the
  // last header name lies.
  datatype Cursor = Cursor(
    sw: Switch, left: nat, crlf: bool, trailing: nat, nameAt: Option<nat>, nameLength: nat)

  function NameOf(cur: Cursor, mem: seq<byte>): Option<seq<byte>> {
    match cur.nameAt
    case None => None
    case Some(at) => if at + cur.nameLength <= |mem| then Some(mem[at..at + cur.nameLength]) else None
  }

  // With the read position at p, the locals stand for k.
  ghost predicate Represents(cur: Cursor, request: Request, mem: seq<byte>, p: nat, k: Scan)
    reads request
  {
    && WellFormed(k) && p <= |mem| && cur.left <= p
    && cur.sw == k.sw && cur.crlf == k.crlf && cur.trailing == k.trailing
    && mem[cur.left..p] == k.token
    && (cur.nameAt.Some? ==> cur.nameAt.value + cur.nameLength <= p)
    && NameOf(cur, mem) == k.name
    && request.uri == k.uri && request.headers == k.headers
  }

  // The outcome of one character: the parse ended, or goes on with new locals.
  ghost predicate Follows(n: Next, halt: Option<Code>, cur: Cursor, request: Request, mem: seq<byte>, p: nat)
    reads request
  {
    match n
    case Go(k) => halt == None && Represents(cur, request, mem, p + 1, k)
    case Halt(code, uri, headers) => halt == Some(code) && request.uri == uri && request.headers == headers
  }

  method MethodChar(cur: Cursor, request: Request, mem: seq<byte>, p: nat, ghost k: Scan)
    returns (next: Cursor, halt: Option<Code>)
    requires p < |mem| && Represents(cur, request, mem, p, k)
    requires cur.sw == Start || cur.sw == Method
    ensures Follows(Step(k, mem[p]), halt, next, request, mem, p)
  {
    var c := mem[p];
    next, halt := cur, None;
    assert mem[cur.left..p + 1] == k.token + [c];
    match cur.sw {
      case Start =>
        if c == LF || c == CR || c == NUL {
          next := cur.(left := p);
        } else if !IsUpperCase(c) {
          halt := Some(InvalidMethod);
        } else {
          next := cur.(left := p, sw := Method);
        }
      case Method =>
        if c == SPACE {
          if p - cur.left == 3 && mem[cur.left..p] == GET {
            next := cur.(sw := SpacesBeforeUri);
          } else {
            halt := Some(InvalidMethod);
          }
        } else if !IsUpperCase(c) {
          halt := Some(InvalidMethod);
        }
    }
  }

  method RequestLineChar(cur: Cursor, request: Request, mem: seq<byte>, p: nat, ghost k: Scan)
    returns (next: Cursor, halt: Option<Code>)
    requires p < |mem| && Represents(cur, request, mem, p, k)
    requires InRequestLine(cur.sw) && cur.sw != Method
    modifies request`uri
    ensures Follows(Step(k, mem[p]), halt, next, request, mem, p)
  {
    var c := mem[p];
    next, halt := cur, None;
    assert mem[cur.left..p + 1] == k.token + [c];
    match cur.sw {
      case SpacesBeforeUri =>
        if c == SLASH {
          next := cur.(left := p, sw := AfterSlash);
        } else if !(IsUpperCase(c) || IsLowerCase(c)) && c != SPACE {
          halt := Some(InvalidRequest);
        }
      case AfterSlash =>
        if c == SPACE {
          request.uri := Some(mem[cur.left..p]);
          next := cur.(sw := SpacesBeforeHttp);
        } else if c == LF || c == CR || c == NUL {
          halt := Some(InvalidRequest);
        }
      case SpacesBeforeHttp =>
        if c == 'H' as int {
          next := cur.(left := p, sw := Http);
        } else if c != SPACE {
          halt := Some(InvalidRequest);
        }
      case Http =>
        if !IsVersionChar(c) {
          halt := Some(InvalidRequest);
        } else if p - cur.left == 7 && mem[cur.left..p + 1] == HTTP_1_1 {
          next := cur.(sw := HeaderCrlf);
        } else if p - cur.left > 7 {
          halt := Some(InvalidRequest);
        }
    }
  }

  method BetweenHeadersChar(cur: Cursor, request: Request, mem: seq<byte>, p: nat, ghost k: Scan)
    returns (next: Cursor)
    requires p < |mem| && Represents(cur, request, mem, p, k)
    requires cur.sw == HeaderCrlf || cur.sw == Separator
    ensures Follows(Step(k, mem[p]), None, next, request, mem, p)
  {
    var c := mem[p];
    next := cur;
    assert mem[cur.left..p + 1] == k.token + [c];
    match cur.sw {
      case HeaderCrlf =>
        next := next.(trailing := 0);
        if c == CR || c == LF {
        } else if IsBlank(c) {
          next := next.(sw := HeaderLws);
        } else {
          next := next.(left := p, sw := HeaderName);
        }
      case Separator =>
        if IsBlank(c) || c == CR {
        } else if c == LF {
          next := next.(crlf := true, sw := HeaderLws);
        } else {
          next := next.(left := p, sw := HeaderValue);
        }
    }
  }

  method HeaderLwsChar(cur: Cursor, request: Request, mem: seq<byte>, p: nat, ghost k: Scan)
    returns (next: Cursor, halt: Option<Code>)
    requires p < |mem| && Represents(cur, request, mem, p, k)
    requires cur.sw == HeaderLws
    ensures Follows(Step(k, mem[p]), halt, next, request, mem, p)
  {
    var c := mem[p];
    next, halt := cur.(trailing := 0), None;
    assert mem[cur.left..p + 1] == k.token + [c];
    if c == CR {
    } else if c == LF {
      if cur.crlf {
        halt := Some(Done);
      } else {
        next := next.(crlf := true);
      }
    } else if IsBlank(c) {
      next := next.(crlf := false, sw := HeaderValue);
    } else {
      next := next.(crlf := false, left := p, sw := HeaderName);
    }
  }

  method HeaderValueChar(cur: Cursor, request: Request, mem: seq<byte>, p: nat, ghost k: Scan)
    returns (next: Cursor, halt: Option<Code>)
    requires p < |mem| && Represents(cur, request, mem, p, k)
    requires cur.sw == HeaderValue
    modifies request`headers
    ensures Follows(Step(k, mem[p]), halt, next, request, mem, p)
  {
    var c := mem[p];
    next, halt := cur, None;
    assert mem[cur.left..p + 1] == k.token + [c];
    assert mem[cur.left..p - cur.trailing] == k.token[..|k.token| - k.trailing];
    if c == CR {
      next := next.(trailing := cur.trailing + 1);
    } else if c == LF {
      if cur.crlf {
        request.AddHeader(NameOf(cur, mem), mem[cur.left..p - cur.trailing]);
        halt := Some(Done);
      } else {
        next := next.(crlf := true, trailing := cur.trailing + 1);
      }
    } else if IsBlank(c) {
      if cur.crlf {
        next := next.(crlf := false, trailing := 0);
      }
    } else if cur.crlf {
      request.AddHeader(NameOf(cur, mem), mem[cur.left..p - cur.trailing]);
      next := next.(crlf := false, trailing := 0, left := p, sw := HeaderName);
    }
  }

  // `mem` already holds the character at p as it will be stored.
  method HeaderNameChar(cur: Cursor, request: Request, mem: seq<byte>, p: nat, c: byte, ghost k: Scan)
    returns (next: Cursor, halt: Option<Code>)
    requires p < |mem| && Represents(cur, request, mem, p, k)
    requires cur.sw == HeaderName
    requires mem[p] == if IsSeparator(c) then c else Stored(k, c)
    ensures Follows(Step(k, c), halt, next, request, mem, p)
  {
    next, halt := cur, None;
    assert mem[cur.left..p + 1] == k.token + [mem[p]];
    if IsSeparator(c) {
      halt := Some(InvalidRequest);
    } else if c == COLON {
      next := cur.(nameAt := Some(cur.left), nameLength := p - cur.left, sw := Separator);
    }
  }

  // Takes one character c, which lies at p of mem as it will be stored.
  method TakeChar(cur: Cursor, request: Request, mem: seq<byte>, p: nat, c: byte, ghost k: Scan)
    returns (next: Cursor, halt: Option<Code>)
    requires p < |mem| && Represents(cur, request, mem, p, k)
    requires mem[p] == if k.sw == HeaderName && IsSeparator(c) then c else Stored(k, c)
    modifies request
    ensures Follows(Step(k, c), halt, next, request, mem, p)
  {
    match cur.sw {
      case HeaderCrlf | Separator =>
        next := BetweenHeadersChar(cur, request, mem, p, k);
        halt := None;
      case HeaderLws => next, halt := HeaderLwsChar(cur, request, mem, p, k);
      case HeaderName => next, halt := HeaderNameChar(cur, request, mem, p, c, k);
      case HeaderValue => next, halt := HeaderValueChar(cur, request, mem, p, k);
      case Start | Method => next, halt := MethodChar(cur, request, mem, p, k);
      case _ => next, halt := RequestLineChar(cur, request, mem, p, k);
    }
  }

  function OutcomeOf(n: Next): Outcome {
    match n
    case Go(_) => Incomplete
    case Halt(code, uri, headers) => Finished(code, uri, headers)
  }

  // The result of a parse, the pieces it found, and the buffer as it leaves it.
  ghost predicate Reports(o: Outcome, result: Option<Code>, request: Request)
    reads request
  {
    match o
    case Incomplete => result == None
    case Finished(code, uri, headers) => result == Some(code) && request.uri == uri && request.headers == headers
  }

  lemma {:induction false} SentinelStays(k: Scan, a: seq<byte>)
    requires WellFormed(k)
    ensures Rewrite(k, a + [NUL]) == Rewrite(k, a) + [NUL]
    decreases |a|
  {
    if a == [] {
      assert a + [NUL] == [NUL] && [NUL][1..] == [];
    } else if Step(k, a[0]).Go? {
      assert (a + [NUL])[1..] == a[1..] + [NUL];
      SentinelStays(Step(k, a[0]).scan, a[1..]);
    }
  }

  // One step of the rewriting, at the head of what is still to be read.
  lemma RewriteHead(k: Scan, rest: seq<byte>)
    requires WellFormed(k) && rest != []
    ensures Step(k, rest[0]).Go? ==>
              && Rewrite(k, rest)[0] == Stored(k, rest[0])
              && Rewrite(k, rest)[1..] == Rewrite(Step(k, rest[0]).scan, rest[1..])
              && ScanAll(k, rest) == ScanAll(Step(k, rest[0]).scan, rest[1..])
    ensures Step(k, rest[0]).Halt? ==> Rewrite(k, rest) == rest && ScanAll(k, rest) == Step(k, rest[0])
    ensures k.sw == HeaderName ==> (Step(k, rest[0]).Halt? <==> IsSeparator(rest[0]))
  {
  }

  // Reads one character, upper-cases it in a header name, and moves on behind it.
  method ScanChar(cur: Cursor, request: Request, buffer: Buffer, ghost k: Scan)
    returns (next: Cursor, halt: Option<Code>)
    requires buffer.rpos < buffer.mem.Length && Represents(cur, request, buffer.mem[..], buffer.rpos, k)
    modifies request, buffer`rpos, buffer.mem
    ensures var p := old(buffer.rpos); var c := old(buffer.mem[p]);
            && (halt.Some? ==>
                  && Step(k, c) == Halt(halt.value, request.uri, request.headers)
                  && buffer.mem[..] == old(buffer.mem[..]) && buffer.rpos == p)
            && (halt.None? ==>
                  && Step(k, c).Go? && Represents(next, request, buffer.mem[..], p + 1, Step(k, c).scan)
                  && buffer.mem[..] == old(buffer.mem[..])[p := Stored(k, c)] && buffer.rpos == p + 1)
  {
    var p := buffer.rpos;
    var c := buffer.mem[p];
    RewriteHead(k, [c]);
    if cur.sw == HeaderName && !IsSeparator(c) && c != COLON {
      buffer.mem[p] := ToUpper(c);
    }
    next, halt := TakeChar(cur, request, buffer.mem[..], p, c, k);
    if halt.None? {
      buffer.rpos := p + 1;
    }
  }

  lemma StartsRepresented(request: Request, mem: seq<byte>, p: nat)
    requires p <= |mem| && request.uri == None && request.headers == []
    ensures WellFormed(INITIAL) && Represents(Cursor(Start, p, false, 0, None, 0), request, mem, p, INITIAL)
  {
  }

  // Runs over what lies between the read position and the end of what is in use.
  method Run(request: Request, buffer: Buffer) returns (result: Option<Code>)
    requires buffer.mem.Length >= buffer.used >= buffer.rpos
    requires request.uri == None && request.headers == []
    modifies request, buffer`rpos, buffer.mem
    ensures var text := old(buffer.mem[buffer.rpos..buffer.used]);
            && Reports(OutcomeOf(ScanAll(INITIAL, text)), result, request)
            && buffer.mem[..old(buffer.rpos)] == old(buffer.mem[..buffer.rpos])
            && buffer.mem[old(buffer.rpos)..buffer.used] == Rewrite(INITIAL, text)
    ensures old(buffer.rpos) <= buffer.rpos <= buffer.used
    ensures result.Some? ==> buffer.rpos < buffer.used
  {
    hide Step, Rewrite, ScanAll, Stored, Represents;
    var start, last := buffer.rpos, buffer.used;
    ghost var text, before := buffer.mem[start..last], buffer.mem[..start];
    ghost var k, rest := INITIAL, text;
    var cur := Cursor(Start, start, false, 0, None, 0);
    StartsRepresented(request, buffer.mem[..], start);
    assert buffer.mem[start..start] + Rewrite(k, rest) == Rewrite(k, rest);
    while buffer.rpos < last
      invariant start <= buffer.rpos <= last && buffer.mem == old(buffer.mem)
      invariant WellFormed(k) && Represents(cur, request, buffer.mem[..], buffer.rpos, k)
      invariant rest == buffer.mem[buffer.rpos..last] && buffer.mem[..start] == before
      invariant ScanAll(INITIAL, text) == ScanAll(k, rest)
      invariant buffer.mem[start..buffer.rpos] + Rewrite(k, rest) == Rewrite(INITIAL, text)
    {
      ghost var p, mem := buffer.rpos, buffer.mem[..];
      var halt;
      RewriteHead(k, rest);
      cur, halt := ScanChar(cur, request, buffer, k);
      if halt.Some? {
        Joined(mem, start, p, last);
        return halt;
      }
      StoredAt(mem, buffer.mem[..], start, p, last, Stored(k, rest[0]));
      RewriteSplit(mem[start..p], k, rest);
      k, rest := Step(k, rest[0]).scan, rest[1..];
    }
    RewriteNothing(k, rest);
    return None;
  }

  lemma Joined(mem: seq<byte>, start: nat, p: nat, last: nat)
    requires start <= p <= last <= |mem|
    ensures mem[start..last] == mem[start..p] + mem[p..last]
  {
  }

  lemma SentinelLast(mem: seq<byte>, used: nat, content: seq<byte>)
    requires 0 < used <= |mem| && mem[..used] == content + [NUL]
    ensures mem[..used - 1] == content && mem[used - 1] == NUL
  {
    assert mem[..used][..used - 1] == content && mem[..used][used - 1] == NUL;
  }

  lemma StoredAt(mem: seq<byte>, after: seq<byte>, start: nat, p: nat, last: nat, b: byte)
    requires start <= p < last <= |mem| && after == mem[p := b]
    ensures after[..start] == mem[..start]
    ensures after[start..p + 1] == mem[start..p] + [b]
    ensures after[p + 1..last] == mem[p..last][1..]
  {
  }

  lemma RewriteSplit(done: seq<byte>, k: Scan, rest: seq<byte>)
    requires WellFormed(k) && rest != [] && Step(k, rest[0]).Go?
    ensures done + Rewrite(k, rest)
         == done + [Stored(k, rest[0])] + Rewrite(Step(k, rest[0]).scan, rest[1..])
  {
  }

  lemma RewriteNothing(k: Scan, rest: seq<byte>)
    requires WellFormed(k) && rest == []
    ensures Rewrite(k, rest) == [] && ScanAll(k, rest) == Go(k)
  {
  }

  // Parses what is left to read, sentinel included; None asks for more bytes.
  method ParseHandshakeRequest(request: Request, buffer: Buffer) returns (result: Option<Code>)
    requires buffer.Valid() && request.uri == None && request.headers == []
    requires buffer.rpos <= |buffer.Content()|
    modifies request, buffer`rpos, buffer.mem
    ensures buffer.Valid()
    ensures result.Some? ==> buffer.rpos <= |buffer.Content()|
    ensures Reports(Parse(old(buffer.Unread())), result, request)
    ensures buffer.Content() == old(buffer.Content()[..buffer.rpos]) + Rewrite(INITIAL, old(buffer.Unread()))
  {
    hide Step, Rewrite, ScanAll;
    if buffer.rpos >= buffer.used {
      EmptyIsIncomplete();
      return None;
    }
    ghost var start, u := buffer.rpos, buffer.Unread();
    ghost var before := buffer.mem[..start];
    assert buffer.mem[start..buffer.used] == u + [NUL];
    SentinelStays(INITIAL, u);
    result := Run(request, buffer);
    Joined(buffer.mem[..], 0, start, buffer.used);
    SentinelLast(buffer.mem[..], buffer.used, before + Rewrite(INITIAL, u));
  }
}
