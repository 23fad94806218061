// A connection from its first byte on: the opening request, then frames.
module Conversations {
  import opened Bytes
  import opened Wrappers
  import opened Sessions
  import H = Handshake
  import P = HeaderPrint
  import opened Validation
  import Reference
  import Strict
  import Wire

  datatype Conversation = Shaking(pending: seq<byte>) | Talking(progress: Progress)

  const DROPPED := Talking(Progress(Dropped, [], [Drop]))

  // All that has been done for the client so far.
  function SoFar(c: Conversation): seq<Event> {
    if c.Talking? then c.progress.events else []
  }

  // The client has been dropped.
  predicate Over(c: Conversation) {
    c.Talking? && c.progress.session.Dropped?
  }

  // The request so far, with all that has arrived: wait for more, start talking
  // with an empty buffer, or drop the client.
  function OnRequest(content: seq<byte>, origins: Origins): Conversation {
    match H.Parse(content)
    case Incomplete => Shaking(H.Rewrite(H.INITIAL, content))
    case Finished(code, uri, headers) =>
      if code == H.Done && Validates(headers, origins) then Talking(START) else DROPPED
  }

  function Converse(c: Conversation, chunk: seq<byte>, origins: Origins): Conversation {
    match c
    case Shaking(pending) => OnRequest(pending + chunk, origins)
    case Talking(p) => Talking(Receive(p, chunk))
  }

  function ConverseAll(c: Conversation, chunks: seq<seq<byte>>, origins: Origins): Conversation
    decreases |chunks|
  {
    if chunks == [] then c else ConverseAll(Converse(c, chunks[0], origins), chunks[1..], origins)
  }

  // ---- The event loop ----

  // What the event loop reports on a client: that it hung up, or that it can be
  // read. Then `pieces` is what the reads return until one returns no bytes;
  // `ended` tells whether that one returned zero or failed.
  datatype Wake = HungUp | Readable(pieces: seq<seq<byte>>, ended: bool)

  // A client whose very first read returns zero is left alone.
  predicate Ignored(wake: Wake) {
    wake.Readable? && wake.pieces == [] && wake.ended
  }

  function Woken(c: Conversation, wake: Wake, origins: Origins): Conversation {
    if wake.HungUp? then
      match c
      case Shaking(_) => DROPPED
      case Talking(p) => if p.session.Dropped? then c else Talking(Progress(Dropped, p.rest, p.events + [Drop]))
    else if Ignored(wake) then c
    else Converse(c, Concat(wake.pieces), origins)
  }

  function WokenAll(c: Conversation, wakes: seq<Wake>, origins: Origins): Conversation
    decreases |wakes|
  {
    if wakes == [] then c else WokenAll(Woken(c, wakes[0], origins), wakes[1..], origins)
  }

  // The chunks that arrive, one for each time the server acts on what it has read.
  function Chunks(wakes: seq<Wake>): seq<seq<byte>> {
    if wakes == [] then []
    else if wakes[0].HungUp? || Ignored(wakes[0]) then Chunks(wakes[1..])
    else [Concat(wakes[0].pieces)] + Chunks(wakes[1..])
  }

  // Until the client hangs up, being woken is having chunks arrive.
  lemma {:induction false} WakesAreChunks(c: Conversation, wakes: seq<Wake>, origins: Origins)
    requires forall i | 0 <= i < |wakes| :: wakes[i].Readable?
    ensures WokenAll(c, wakes, origins) == ConverseAll(c, Chunks(wakes), origins)
    decreases |wakes|
  {
    if wakes != [] {
      WakesAreChunks(Woken(c, wakes[0], origins), wakes[1..], origins);
      if !Ignored(wakes[0]) {
        assert ([Concat(wakes[0].pieces)] + Chunks(wakes[1..]))[1..] == Chunks(wakes[1..]);
      }
    }
  }

  lemma {:induction false} WokenNext(c: Conversation, wakes: seq<Wake>, i: nat, origins: Origins)
    requires i < |wakes|
    ensures WokenAll(c, wakes[..i + 1], origins) == Woken(WokenAll(c, wakes[..i], origins), wakes[i], origins)
    decreases i
  {
    hide Woken;
    if i == 0 {
      assert wakes[..1][1..] == [] && wakes[..1][0] == wakes[0];
    } else {
      WokenNext(Woken(c, wakes[0], origins), wakes[1..], i - 1, origins);
      assert wakes[..i + 1][1..] == wakes[1..][..i] && wakes[..i][1..] == wakes[1..][..i - 1];
    }
  }

  // Whoever hangs up is dropped, and nothing else is done, unless that has happened.
  lemma HangingUpEnds(c: Conversation, origins: Origins)
    ensures var d := Woken(c, HungUp, origins);
            Over(d) && SoFar(d) == if Over(c) then SoFar(c) else SoFar(c) + [Drop]
  {
  }

  // A dropped client stays as it is, whatever is reported.
  lemma {:induction false} OverForGood(c: Conversation, wakes: seq<Wake>, origins: Origins)
    requires Over(c)
    ensures WokenAll(c, wakes, origins) == c
    decreases |wakes|
  {
    hide OnData;
    if wakes != [] {
      assert Woken(c, wakes[0], origins) == c;
      OverForGood(c, wakes[1..], origins);
    }
  }

  lemma {:induction false} WokenOn(c: Conversation, a: seq<Wake>, b: seq<Wake>, origins: Origins)
    ensures WokenAll(c, a + b, origins) == WokenAll(WokenAll(c, a, origins), b, origins)
    decreases |a|
  {
    hide Woken;
    if a == [] {
      assert a + b == b;
    } else {
      assert (a + b)[0] == a[0] && (a + b)[1..] == a[1..] + b;
      WokenOn(Woken(c, a[0], origins), a[1..], b, origins);
    }
  }

  // Over a run: once a client has hung up, all that is done for it is what was done
  // before and one drop, if there has been none.
  lemma NothingAfterHangingUp(c: Conversation, before: seq<Wake>, after: seq<Wake>, origins: Origins)
    ensures var d, e := WokenAll(c, before, origins), WokenAll(c, before + [HungUp] + after, origins);
            Over(e) && SoFar(e) == if Over(d) then SoFar(d) else SoFar(d) + [Drop]
  {
    hide Woken, WokenAll;
    var d := WokenAll(c, before, origins);
    assert before + [HungUp] + after == before + ([HungUp] + after);
    WokenOn(c, before, [HungUp] + after, origins);
    WokenFirst(d, HungUp, after, origins);
    HangingUpEnds(d, origins);
    OverForGood(Woken(d, HungUp, origins), after, origins);
  }

  lemma WokenFirst(c: Conversation, wake: Wake, more: seq<Wake>, origins: Origins)
    ensures WokenAll(c, [wake] + more, origins) == WokenAll(Woken(c, wake, origins), more, origins)
  {
    assert ([wake] + more)[1..] == more;
  }

  // A first read of zero bytes changes nothing.
  lemma ReadOfZero(c: Conversation, origins: Origins)
    ensures Woken(c, Readable([], true), origins) == c
  {
  }

  // A request opens a conversation if and only if its parse ends well and its headers
  // qualify. Finished in any other way, it makes the server drop the client.
  lemma OpensExactly(content: seq<byte>, origins: Origins, key: seq<byte>, version: seq<byte>, origin: seq<byte>)
    requires key == Ascii("SEC-WEBSOCKET-KEY") && version == Ascii("SEC-WEBSOCKET-VERSION")
    requires origin == Ascii("ORIGIN")
    ensures var o, c := H.Parse(content), OnRequest(content, origins);
            && (c == Talking(START) <==>
                  o.Finished? && o.code == H.Done && Qualifies(o.headers, origins, key, version, origin))
            && (o.Finished? && c != Talking(START) ==> c == DROPPED)
            && (o.Incomplete? ==> c.Shaking?)
  {
    hide H.Parse, Validates, Qualifies, Ascii;
    var o := H.Parse(content);
    if o.Finished? {
      QualifiesExactly(o.headers, origins);
    }
  }

  lemma {:induction false} TalksOn(p: Progress, chunks: seq<seq<byte>>, origins: Origins)
    ensures ConverseAll(Talking(p), chunks, origins) == Talking(ReceiveAll(p, chunks))
    decreases |chunks|
  {
    if chunks != [] {
      TalksOn(Receive(p, chunks[0]), chunks[1..], origins);
    }
  }

  // The chunks of the request, the last of which completes it.
  ghost predicate CompletesLast(before: seq<byte>, request: seq<seq<byte>>)
    decreases |request|
  {
    && request != []
    && (|request| > 1 ==>
          H.Parse(before + request[0]) == H.Incomplete && CompletesLast(before + request[0], request[1..]))
  }

  lemma {:induction false} RequestOpens(
    before: seq<byte>, request: seq<seq<byte>>, frames: seq<seq<byte>>, origins: Origins)
    requires CompletesLast(before, request)
    requires var o := H.Parse(before + Concat(request)); H.Accepted(o) && Validates(o.headers, origins)
    ensures ConverseAll(Shaking(H.Rewrite(H.INITIAL, before)), request + frames, origins)
         == Talking(ReceiveAll(START, frames))
    decreases |request|
  {
    hide H.Parse, H.Rewrite, Validates, Receive;
    var content, more := before + request[0], Concat(request[1..]);
    H.RewrittenParsesAlike(before, request[0]);
    assert content + more == before + Concat(request);
    assert (request + frames)[1..] == request[1..] + frames;
    if |request| == 1 {
      assert content + [] == content;
      assert request[1..] + frames == frames;
      TalksOn(START, frames, origins);
    } else {
      RequestOpens(content, request[1..], frames, origins);
    }
  }

  // From the first byte on: a valid request, cut anywhere but inside its request
  // line, opens the conversation; from then on the client is sent what the
  // reference says about its frames, cut anywhere.
  lemma ConversationFollowsProtocol(request: seq<seq<byte>>, frames: seq<seq<byte>>, origins: Origins)
    requires CompletesLast([], request)
    requires var o := H.Parse(Concat(request)); H.Accepted(o) && Validates(o.headers, origins)
    requires MaskedStream(Between, Concat(frames))
    ensures var c, u := ConverseAll(Shaking([]), request + frames, origins), Concat(frames);
            c.Talking? && c.progress.events == Reference.Interpret(None, Reference.FramesOf(u), Reference.TailOf(u))
  {
    hide H.Parse, H.Rewrite, Validates, Receive, Concat, Reference.Interpret, Reference.FramesOf, Reference.TailOf;
    assert [] + Concat(request) == Concat(request);
    H.EmptyIsIncomplete();
    RequestOpens([], request, frames, origins);
    Reference.ServerFollowsProtocol(frames);
  }

  // A printed request with acceptable headers is one that opens a conversation.
  lemma PrintedRequestOpens(uri: seq<byte>, hs: seq<H.Header>, frames: seq<seq<byte>>, origins: Origins)
    requires P.LegalUri(uri) && (forall i | 0 <= i < |hs| :: P.Legal(hs[i])) && Validates(P.AllAsParsed(hs), origins)
    requires MaskedStream(Between, Concat(frames))
    ensures var request := P.RequestLine(uri) + P.PrintHeaders(hs);
            var c, u := ConverseAll(Shaking([]), [request] + frames, origins), Concat(frames);
            c.Talking? && c.progress.events == Reference.Interpret(None, Reference.FramesOf(u), Reference.TailOf(u))
  {
    hide *;
    var request := P.RequestLine(uri) + P.PrintHeaders(hs);
    PrintedIsAccepted(uri, hs, origins);
    CompletesAtOnce(request);
    ConversationFollowsProtocol([request], frames, origins);
  }

  lemma PrintedIsAccepted(uri: seq<byte>, hs: seq<H.Header>, origins: Origins)
    requires P.LegalUri(uri) && (forall i | 0 <= i < |hs| :: P.Legal(hs[i])) && Validates(P.AllAsParsed(hs), origins)
    ensures var o := H.Parse(P.RequestLine(uri) + P.PrintHeaders(hs)); H.Accepted(o) && o.headers == P.AllAsParsed(hs)
  {
    hide H.Parse, P.RequestLine, P.PrintHeaders, P.LegalUri, P.Legal, Validates;
    ValidNeedsHeaders(origins);
    P.PrintedRequestParses(uri, hs);
  }

  lemma CompletesAtOnce(request: seq<byte>)
    ensures CompletesLast([], [request]) && Concat([request]) == request
  {
    OnePiece(START, request);
  }

  // The same as the event loop sees it, for a client whose frames conform: from
  // the first report on, it is sent just what RFC 6455 says.
  lemma ConformingClientIsServed(
    wakes: seq<Wake>, request: seq<seq<byte>>, frames: seq<seq<byte>>, origins: Origins,
    ws: seq<Wire.RawFrame>, tail: seq<byte>)
    requires (forall i | 0 <= i < |wakes| :: wakes[i].Readable?) && Chunks(wakes) == request + frames
    requires CompletesLast([], request)
    requires var o := H.Parse(Concat(request)); H.Accepted(o) && Validates(o.headers, origins)
    requires (forall w :: w in ws ==> w.WellFormed() && Strict.Conforming(w)) && !Wire.HasFrame(tail)
    requires Concat(frames) == Wire.EncodeFrames(ws) + tail
    ensures var c := WokenAll(Shaking([]), wakes, origins);
            c.Talking? && c.progress.events == Strict.Receives(None, ws, tail)
  {
    hide *;
    WakesAreChunks(Shaking([]), wakes, origins);
    assert [] + Concat(request) == Concat(request);
    H.EmptyIsIncomplete();
    RequestOpens([], request, frames, origins);
    Strict.ConformingClientIsServed(frames, ws, tail);
  }
}
