// What an open connection does with the bytes it receives, as a function of
// the session and the bytes not yet read.
module Sessions {
  import opened Bytes
  import opened Wire
  import opened Frames
  import Utf8

  // Between messages; inside a fragmented one; or dropped for good.
  datatype Session =
    | Between
    | Inside(opcode: nat, utf8: Utf8.State, data: seq<byte>)
    | Dropped

  datatype Event = Message(opcode: nat, data: seq<byte>) | Pong(data: seq<byte>) | Drop

  datatype Reply = Reply(next: Session, events: seq<Event>)

  // The automaton state a new frame starts with.
  function Carry(s: Session): Utf8.State {
    if s.Inside? then s.utf8 else Utf8.Anything
  }

  const REFUSAL := Reply(Dropped, [Drop])

  // The protocol checks a structurally valid, masked frame has to pass.
  predicate Breaches(s: Session, f: Parsed) {
    || f.rsv > 0
    || (IsControl(f.opcode) && !f.fin)
    || (f.opcode == CONT && s.Between?)
    || (s.Inside? && f.opcode != CONT && !IsControl(f.opcode))
  }

  // The fragment buffer after a data frame.
  function AddFragment(s: Session, f: Parsed): Session {
    if s.Inside? then Inside(s.opcode, f.utf8, s.data + f.data) else Inside(f.opcode, f.utf8, f.data)
  }

  // A whole message or control frame, by its opcode.
  function Act(s: Session, opcode: nat, data: seq<byte>): Reply {
    if opcode == TEXT || opcode == BIN then Reply(s, [Message(opcode, data)])
    else if opcode == PING then Reply(s, [Pong(data)])
    else if opcode == CLOSE then REFUSAL
    else Reply(s, [])
  }

  // What a masked frame does to the session. The last fragment is replaced by
  // the whole message before it is acted on.
  function Handle(s: Session, f: Parsed): Reply {
    if Breaches(s, f) then REFUSAL
    else if !f.fin then Reply(AddFragment(s, f), [])
    else if f.opcode == CONT then
      var whole := AddFragment(s, f);
      Act(Between, whole.opcode, whole.data)
    else Act(s, f.opcode, f.data)
  }

  // What one call does: the session afterwards, the bytes it left unread, what it sent.
  datatype Progress = Progress(session: Session, rest: seq<byte>, events: seq<Event>)

  function Before(events: seq<Event>, p: Progress): Progress {
    Progress(p.session, p.rest, events + p.events)
  }

  // Handles frames until one is missing bytes, drops the client, or, when
  // `stall` is set, came unmasked. An unmasked frame has no effect itself.
  function Consume(s: Session, u: seq<byte>, stall: bool): (p: Progress)
    ensures |p.rest| <= |u|
    decreases |u|
  {
    if s.Dropped? then Progress(s, u, [])
    else
      match Parse(u, Carry(s))
      case Incomplete => Progress(s, u, [])
      case InvalidOpcode => Progress(Dropped, u, [Drop])
      case Critical => Progress(Dropped, u, [Drop])
      case Done(f, n) =>
        ParseConsumes(u, Carry(s));
        if !f.masked then
          if stall then Progress(s, u[n..], []) else Consume(s, u[n..], stall)
        else
          var r := Handle(s, f);
          Before(r.events, Consume(r.next, u[n..], stall))
  }

  // One call of the server on what has arrived so far.
  function OnData(s: Session, u: seq<byte>): Progress {
    Consume(s, u, true)
  }

  // The one-shot decoder of a whole stream.
  function Decode(s: Session, u: seq<byte>): Progress {
    Consume(s, u, false)
  }

  // The server on a stream that arrives in chunks. Once dropped, a client is
  // no longer listened to, and what arrives is not stored.
  function Receive(p: Progress, chunk: seq<byte>): Progress {
    if p.session.Dropped? then p
    else Before(p.events, OnData(p.session, p.rest + chunk))
  }

  function ReceiveAll(p: Progress, chunks: seq<seq<byte>>): Progress
    decreases |chunks|
  {
    if chunks == [] then p else ReceiveAll(Receive(p, chunks[0]), chunks[1..])
  }

  const START := Progress(Between, [], [])

  lemma ParseConsumes(u: seq<byte>, carry: Utf8.State)
    ensures Parse(u, carry).Done? ==>
              0 < Parse(u, carry).consumed <= |u| && KnownOpcode(Parse(u, carry).frame.opcode)
  {
  }

  // One round of a call, by the parser's result.
  lemma OneRound(s: Session, u: seq<byte>)
    requires !s.Dropped?
    ensures var p, o := OnData(s, u), Parse(u, Carry(s));
            match o
            case Incomplete => p == Progress(s, u, [])
            case InvalidOpcode => p.session == Dropped && p.events == [Drop]
            case Critical => p.session == Dropped && p.events == [Drop]
            case Done(f, n) =>
              && 0 < n <= |u| && KnownOpcode(f.opcode)
              && if !f.masked then p == Progress(s, u[n..], [])
                 else if Handle(s, f).next.Dropped? then
                   p.session == Dropped && p.events == Handle(s, f).events
                 else p == Before(Handle(s, f).events, OnData(Handle(s, f).next, u[n..]))
  {
    hide Parse, Handle;
    ParseConsumes(u, Carry(s));
    var o := Parse(u, Carry(s));
    if o.Done? && o.frame.masked && Handle(s, o.frame).next.Dropped? {
      var r := Handle(s, o.frame);
      assert OnData(r.next, u[o.consumed..]) == Progress(Dropped, u[o.consumed..], []);
      assert r.events + [] == r.events;
    }
  }

  // ---- Resuming ----

  lemma BeforeBefore(a: seq<Event>, b: seq<Event>, p: Progress)
    ensures Before(a, Before(b, p)) == Before(a + b, p)
  {
    assert a + (b + p.events) == (a + b) + p.events;
  }

  // Decoding u and then, from where that stopped, the rest together with more,
  // is decoding u + more. However u was handled: all at once, or stalling.
  lemma {:induction false} Resumes(s: Session, u: seq<byte>, more: seq<byte>, stall: bool)
    ensures var p := Consume(s, u, stall);
            var whole := Decode(s, u + more);
            if p.session.Dropped? then whole.session.Dropped? && whole.events == p.events
            else whole == Before(p.events, Decode(p.session, p.rest + more))
    decreases |u|
  {
    var carry := Carry(s);
    hide Parse;
    ParseConsumes(u, carry);
    ParseIsStable(u, more, carry);
    if !s.Dropped? && Parse(u, carry).Done? {
      var Done(f, n) := Parse(u, carry);
      assert (u + more)[n..] == u[n..] + more;
      if !f.masked {
        if !stall {
          Resumes(s, u[n..], more, stall);
        }
      } else {
        var r := Handle(s, f);
        var p := Consume(r.next, u[n..], stall);
        Resumes(r.next, u[n..], more, stall);
        assert Decode(s, u + more) == Before(r.events, Decode(r.next, u[n..] + more));
        BeforeBefore(r.events, p.events, Decode(p.session, p.rest + more));
      }
    }
  }

  // Whatever the chunks, what was sent so far followed by what is still to be
  // made of the unread bytes is what the one-shot decoder makes of the stream.
  lemma {:induction false} ChunksResume(p: Progress, chunks: seq<seq<byte>>)
    ensures var q := ReceiveAll(p, chunks);
            var whole := Before(p.events, Decode(p.session, p.rest + Concat(chunks)));
            if q.session.Dropped? then whole.session.Dropped? && whole.events == q.events
            else whole == Before(q.events, Decode(q.session, q.rest))
    decreases |chunks|
  {
    if chunks == [] {
      assert p.rest + [] == p.rest;
    } else if p.session.Dropped? {
      DroppedIgnores(p, chunks);
    } else {
      var u, more := p.rest + chunks[0], Concat(chunks[1..]);
      var r := Receive(p, chunks[0]);
      assert u + more == p.rest + Concat(chunks);
      Resumes(p.session, u, more, true);
      ChunksResume(r, chunks[1..]);
      var now := OnData(p.session, u);
      BeforeBefore(p.events, now.events, Decode(now.session, now.rest + more));
      if now.session.Dropped? {
        DroppedIgnores(r, chunks[1..]);
      }
    }
  }

  lemma {:induction false} DroppedIgnores(p: Progress, chunks: seq<seq<byte>>)
    requires p.session.Dropped?
    ensures ReceiveAll(p, chunks) == p
    decreases |chunks|
  {
    if chunks != [] {
      DroppedIgnores(p, chunks[1..]);
    }
  }

  // ---- Chunk independence ----

  // Every frame the decoder gets to carries a mask, as section 5.1 of RFC 6455
  // demands of clients.
  predicate MaskedStream(s: Session, u: seq<byte>)
    decreases |u|
  {
    s.Dropped? ||
    match Parse(u, Carry(s))
    case Done(f, n) =>
      ParseConsumes(u, Carry(s));
      f.masked && MaskedStream(Handle(s, f).next, u[n..])
    case _ => true
  }

  lemma {:induction false} MaskedNeverStalls(s: Session, u: seq<byte>)
    requires MaskedStream(s, u)
    ensures OnData(s, u) == Decode(s, u)
    ensures var p := Decode(s, u); Decode(p.session, p.rest) == Progress(p.session, p.rest, [])
    decreases |u|
  {
    hide Parse;
    ParseConsumes(u, Carry(s));
    if !s.Dropped? && Parse(u, Carry(s)).Done? {
      var Done(f, n) := Parse(u, Carry(s));
      MaskedNeverStalls(Handle(s, f).next, u[n..]);
    }
  }

  // A prefix of a masked stream is masked, and so is what follows it.
  lemma {:induction false} MaskedSplits(s: Session, u: seq<byte>, more: seq<byte>)
    requires MaskedStream(s, u + more)
    ensures MaskedStream(s, u)
    ensures var p := Decode(s, u); MaskedStream(p.session, p.rest + more)
    decreases |u|
  {
    hide Parse;
    ParseConsumes(u, Carry(s));
    ParseIsStable(u, more, Carry(s));
    if !s.Dropped? && Parse(u, Carry(s)).Done? {
      var Done(f, n) := Parse(u, Carry(s));
      assert (u + more)[n..] == u[n..] + more;
      MaskedSplits(Handle(s, f).next, u[n..], more);
    }
  }

  lemma {:induction false} MaskedChunks(p: Progress, chunks: seq<seq<byte>>)
    requires MaskedStream(p.session, p.rest + Concat(chunks))
    requires !p.session.Dropped? ==> Decode(p.session, p.rest) == Progress(p.session, p.rest, [])
    ensures var q := ReceiveAll(p, chunks);
            !q.session.Dropped? ==> Decode(q.session, q.rest) == Progress(q.session, q.rest, [])
    decreases |chunks|
  {
    if p.session.Dropped? {
      DroppedIgnores(p, chunks);
    } else if chunks != [] {
      var u, more := p.rest + chunks[0], Concat(chunks[1..]);
      assert u + more == p.rest + Concat(chunks);
      MaskedSplits(p.session, u, more);
      MaskedNeverStalls(p.session, u);
      MaskedChunks(Receive(p, chunks[0]), chunks[1..]);
    }
  }

  lemma NothingToDecode()
    ensures Decode(Between, []) == Progress(Between, [], [])
  {
    assert Parse([], Utf8.Anything) == Incomplete;
  }

  // However a masked stream is cut into chunks, the client is sent the same
  // messages and pongs and is dropped in the same case as by the one-shot
  // decoder; unless it was dropped, also the same bytes are left waiting.
  lemma ChunkIndependence(chunks: seq<seq<byte>>)
    requires MaskedStream(Between, Concat(chunks))
    ensures var q := ReceiveAll(START, chunks);
            var whole := Decode(Between, Concat(chunks));
            q.events == whole.events && q.session == whole.session && (q.session.Dropped? || q.rest == whole.rest)
  {
    hide ReceiveAll, Decode, Parse, MaskedStream, Concat;
    assert START.rest + Concat(chunks) == Concat(chunks);
    ChunksResume(START, chunks);
    var q := ReceiveAll(START, chunks);
    NothingToDecode();
    MaskedChunks(START, chunks);
    var whole := Decode(Between, Concat(chunks));
    assert [] + whole.events == whole.events;
    assert q.events + [] == q.events;
  }

  // ---- Streams with unmasked frames ----

  // Nothing observable comes behind the first unmasked frame the decoder gets to.
  predicate SilentBehindUnmasked(s: Session, u: seq<byte>)
    decreases |u|
  {
    s.Dropped? ||
    match Parse(u, Carry(s))
    case Done(f, n) =>
      ParseConsumes(u, Carry(s));
      if !f.masked then Decode(s, u[n..]).events == []
      else SilentBehindUnmasked(Handle(s, f).next, u[n..])
    case _ => true
  }

  // The call stalls at an unmasked frame exactly when more bytes would not help it on.
  lemma {:induction false} StallsOrResumes(s: Session, u: seq<byte>, more: seq<byte>)
    ensures var p := OnData(s, u);
            var longer := OnData(s, u + more);
            || longer.events == p.events
            || (!p.session.Dropped? && longer == Before(p.events, OnData(p.session, p.rest + more)))
    decreases |u|
  {
    hide Parse;
    ParseConsumes(u, Carry(s));
    ParseIsStable(u, more, Carry(s));
    if !s.Dropped? && Parse(u, Carry(s)).Done? {
      var Done(f, n) := Parse(u, Carry(s));
      assert (u + more)[n..] == u[n..] + more;
      if f.masked {
        var r := Handle(s, f);
        var p := OnData(r.next, u[n..]);
        StallsOrResumes(r.next, u[n..], more);
        BeforeBefore(r.events, p.events, OnData(p.session, p.rest + more));
      }
    } else if !s.Dropped? && Parse(u, Carry(s)).Incomplete? {
      assert [] + OnData(s, u + more).events == OnData(s, u + more).events;
    }
  }

  // Arriving in one piece is the worst case: no way of cutting the stream sends less.
  lemma {:induction false} OnePieceIsLeast(p: Progress, chunks: seq<seq<byte>>)
    requires chunks != []
    ensures p.events + OnData(p.session, p.rest + Concat(chunks)).events <= ReceiveAll(p, chunks).events
    decreases |chunks|
  {
    if p.session.Dropped? {
      DroppedIgnores(p, chunks);
    } else {
      var u, more := p.rest + chunks[0], Concat(chunks[1..]);
      assert u + more == p.rest + Concat(chunks);
      var r := Receive(p, chunks[0]);
      EventsOnlyGrow(r, chunks[1..]);
      if chunks[1..] == [] {
        assert u + more == u;
      } else {
        StallsOrResumes(p.session, u, more);
        OnePieceIsLeast(r, chunks[1..]);
        var now := OnData(p.session, u);
        BeforeBefore(p.events, now.events, OnData(now.session, now.rest + more));
      }
    }
  }

  lemma {:induction false} EventsOnlyGrow(p: Progress, chunks: seq<seq<byte>>)
    ensures p.events <= ReceiveAll(p, chunks).events
    decreases |chunks|
  {
    if chunks != [] {
      EventsOnlyGrow(Receive(p, chunks[0]), chunks[1..]);
    }
  }

  lemma {:induction false} SilentIsWhatStallingMisses(s: Session, u: seq<byte>)
    ensures SilentBehindUnmasked(s, u) <==> OnData(s, u).events == Decode(s, u).events
    decreases |u|
  {
    hide Parse;
    ParseConsumes(u, Carry(s));
    if !s.Dropped? && Parse(u, Carry(s)).Done? {
      var Done(f, n) := Parse(u, Carry(s));
      if f.masked {
        var r := Handle(s, f);
        SilentIsWhatStallingMisses(r.next, u[n..]);
        var a, b := OnData(r.next, u[n..]).events, Decode(r.next, u[n..]).events;
        assert r.events + a == r.events + b ==> a == (r.events + a)[|r.events|..] == (r.events + b)[|r.events|..] == b;
      }
    }
  }

  lemma OnePiece(p: Progress, u: seq<byte>)
    ensures Concat([u]) == u && ReceiveAll(p, [u]) == Receive(p, u)
  {
    assert [u][1..] == [] && u + [] == u;
    assert ReceiveAll(p, [u]) == ReceiveAll(Receive(p, u), []);
  }

  // Whatever the chunks, no less is sent than in one piece, and no more than
  // by the one-shot decoder.
  lemma ChunksBetween(chunks: seq<seq<byte>>)
    requires chunks != []
    ensures var u, sent := Concat(chunks), ReceiveAll(START, chunks).events;
            OnData(Between, u).events <= sent <= Decode(Between, u).events
  {
    var u, q := Concat(chunks), ReceiveAll(START, chunks);
    assert START.rest + u == u;
    OnePieceIsLeast(START, chunks);
    ChunksResume(START, chunks);
    assert [] + OnData(Between, u).events == OnData(Between, u).events;
    assert [] + Decode(Between, u).events == Decode(Between, u).events;
  }

  // All ways of cutting a stream agree with the one-shot decoder if and only if
  // nothing observable comes behind the first unmasked frame.
  lemma ChunkIndependentExactly(u: seq<byte>)
    ensures (forall chunks | chunks != [] && Concat(chunks) == u ::
               ReceiveAll(START, chunks).events == Decode(Between, u).events)
            <==> SilentBehindUnmasked(Between, u)
  {
    SilentIsWhatStallingMisses(Between, u);
    if SilentBehindUnmasked(Between, u) {
      forall chunks | chunks != [] && Concat(chunks) == u
        ensures ReceiveAll(START, chunks).events == Decode(Between, u).events
      {
        ChunksBetween(chunks);
      }
    } else {
      OnePiece(START, u);
      assert START.rest + u == u;
      assert [] + OnData(Between, u).events == OnData(Between, u).events;
      assert ReceiveAll(START, [u]).events != Decode(Between, u).events;
    }
  }

  const UNMASKED_PONG := RawFrame(true, 0, PONG, false, NO_KEY, Short, [])
  const MASKED_PING := RawFrame(true, 0, PING, true, NO_KEY, Short, [])

  // The rest behind an unmasked frame waits; a ping on its own is answered.
  lemma PongThenPing()
    ensures var pong, ping := Encode(UNMASKED_PONG), Encode(MASKED_PING);
            && OnData(Between, pong + ping) == Progress(Between, ping, [])
            && OnData(Between, pong) == Progress(Between, [], [])
            && OnData(Between, ping) == Progress(Between, [], [Pong([])])
  {
    var pong, ping := Encode(UNMASKED_PONG), Encode(MASKED_PING);
    EncodedAlone(UNMASKED_PONG, ping);
    EncodedAlone(UNMASKED_PONG, []);
    EncodedAlone(MASKED_PING, []);
    assert pong + [] == pong && ping + [] == ping;
    hide Encode;
    assert OnData(Between, ping) == Before([Pong([])], OnData(Between, []));
  }

  // In one piece with an unmasked pong in front of it, a ping goes unanswered;
  // in two pieces it is answered.
  lemma UnmaskedFrameDelays()
    ensures var pong, ping := Encode(UNMASKED_PONG), Encode(MASKED_PING);
            && ReceiveAll(START, [pong + ping]).events == []
            && ReceiveAll(START, [pong, ping]).events == [Pong([])]
  {
    var pong, ping := Encode(UNMASKED_PONG), Encode(MASKED_PING);
    PongThenPing();
    hide Encode, OnData;
    OnePiece(START, pong + ping);
    assert [pong, ping][1..] == [ping];
    OnePiece(Receive(START, pong), ping);
    assert [] + (pong + ping) == pong + ping && [] + pong == pong && [] + ping == ping;
  }

  lemma EncodedAlone(w: RawFrame, rest: seq<byte>)
    requires w.WellFormed() && KnownOpcode(w.opcode)
    ensures Parse(Encode(w) + rest, Utf8.Anything) == Judge(w, |Encode(w)|, Utf8.Anything)
    ensures (Encode(w) + rest)[|Encode(w)|..] == rest
  {
    ParseEncoded(w, rest, Utf8.Anything);
  }
}
