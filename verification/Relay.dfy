// Receiving and sending on together: what the sockets of the other clients take when
// bytes of one client complete messages.
module Relays {
  import opened Bytes
  import opened Wire
  import opened FrameHead
  import opened Sessions
  import opened Storages
  import opened Conversations
  import opened Validation
  import opened Clients
  import opened Readers
  import opened Server
  import opened Broadcasts
  import opened WriteLoop
  import opened HashTable
  import opened Murmur
  import opened Runs
  import EventLoops
  import Frames
  import Reference
  import H = Handshake
  import Utf8

  // ---- What is sent on ----

  // Messages are text or binary, and their length is a machine number.
  predicate Sendable(e: Event) {
    e.Message? ==> (e.opcode == TEXT || e.opcode == BIN) && |e.data| < TWO_TO_64
  }

  function FrameOf(opcode: nat, data: seq<byte>): (w: RawFrame)
    requires (opcode == TEXT || opcode == BIN) && |data| < TWO_TO_64
    ensures w.WellFormed() && w.fin && w.rsv == 0 && w.opcode == opcode && !w.masked && w.payload == data
  {
    Outgoing(opcode, false, NO_KEY, data)
  }

  function Passed(line: Line, e: Event): Line
    requires Sendable(e)
  {
    if e.Message? then Framed(line, Header(FrameOf(e.opcode, e.data)), e.data) else line
  }

  predicate AllSendable(events: seq<Event>) {
    forall i | 0 <= i < |events| :: Sendable(events[i])
  }

  // The socket of an open client after what has been done for another one.
  function Relayed(line: Line, events: seq<Event>): Line
    requires AllSendable(events)
  {
    if events == [] then line else Passed(Relayed(line, events[..|events| - 1]), events[|events| - 1])
  }

  // ---- Messages are no longer than what has arrived ----

  predicate Within(events: seq<Event>, n: nat) {
    forall e | e in events && e.Message? :: (e.opcode == TEXT || e.opcode == BIN) && |e.data| <= n
  }

  predicate Proper(s: Session) {
    s.Inside? ==> s.opcode == TEXT || s.opcode == BIN
  }

  lemma HandleWithin(s: Session, f: Frames.Parsed)
    requires Proper(s) && !s.Dropped? && KnownOpcode(f.opcode)
    ensures var r := Handle(s, f);
            && Proper(r.next) && Within(r.events, |Pending(s)| + |f.data|) && |Pending(r.next)| <= |Pending(s)| + |f.data|
  {
  }

  lemma ParseWithin(u: seq<byte>, carry: Utf8.State)
    requires Frames.Parse(u, carry).Done?
    ensures var o := Frames.Parse(u, carry); 0 < o.consumed <= |u| && |o.frame.data| <= o.consumed
    ensures KnownOpcode(Frames.Parse(u, carry).frame.opcode)
  {
    hide Utf8.Run, ExtendedLength, ExtensionOf;
    FoundLength(u);
  }

  lemma {:induction false} ConsumeWithin(s: Session, u: seq<byte>, stall: bool)
    requires Proper(s)
    ensures Within(Consume(s, u, stall).events, |Pending(s)| + |u|) && Proper(Consume(s, u, stall).session)
    decreases |u|
  {
    hide Frames.Parse, Handle;
    var o := Frames.Parse(u, Carry(s));
    if !s.Dropped? && o.Done? {
      ParseWithin(u, Carry(s));
      if !o.frame.masked {
        if !stall {
          ConsumeWithin(s, u[o.consumed..], stall);
        }
      } else {
        HandleWithin(s, o.frame);
        ConsumeWithin(Handle(s, o.frame).next, u[o.consumed..], stall);
      }
    }
  }

  // The session of a conversation, and how many bytes are in memory for it.
  ghost predicate Sound(c: Conversation) {
    c.Talking? ==> Proper(c.progress.session)
  }

  function InMemory(c: Conversation): nat {
    if c.Talking? then |Pending(c.progress.session)| + |c.progress.rest| else |c.pending|
  }

  function Arriving(wake: Wake): nat {
    if wake.Readable? then |Concat(wake.pieces)| else 0
  }

  // What one report makes the server do: it comes behind all done before, and its
  // messages can be sent on as long as all bytes in memory can be counted.
  lemma NewsFollow(c: Conversation, wake: Wake, origins: Origins)
    requires Sound(c) && InMemory(c) + Arriving(wake) < TWO_TO_64
    ensures Sound(Woken(c, wake, origins)) && SoFar(c) <= SoFar(Woken(c, wake, origins))
    ensures AllSendable(News(c, wake, origins))
  {
    hide Consume, H.Parse, H.Rewrite, Validates, Concat;
    if c.Talking? && wake.Readable? {
      var p := c.progress;
      ConsumeWithin(p.session, p.rest + Concat(wake.pieces), true);
    }
  }

  function News(c: Conversation, wake: Wake, origins: Origins): seq<Event>
    requires Sound(c) && InMemory(c) + Arriving(wake) < TWO_TO_64
  {
    var before, after := SoFar(c), SoFar(Woken(c, wake, origins));
    if before <= after then after[|before|..] else []
  }

  // ---- Sending on ----

  // The sockets of the open ones among these people have gone from `before` to what
  // these events make of them; all others are as they were.
  ghost predicate PassedOn(sockets: map<Client, Socket>, before: map<Client, Line>, events: seq<Event>,
                           people: set<Client>)
    requires AllSendable(events)
    reads sockets.Keys`state, sockets.Values
  {
    && before.Keys == sockets.Keys
    && forall c | c in sockets ::
         LineOf(sockets[c]) == if c in people && c.state == Opened then Relayed(before[c], events) else before[c]
  }

  ghost function Lines(sockets: map<Client, Socket>): (m: map<Client, Line>)
    reads sockets.Values
    ensures m.Keys == sockets.Keys && forall c | c in sockets :: m[c] == LineOf(sockets[c])
  {
    map c | c in sockets :: LineOf(sockets[c])
  }

  lemma OneMoreEvent(line: Line, events: seq<Event>, i: nat)
    requires i < |events| && AllSendable(events)
    ensures AllSendable(events[..i]) && AllSendable(events[..i + 1])
    ensures Relayed(line, events[..i + 1]) == Passed(Relayed(line, events[..i]), events[i])
  {
    hide Framed, Header;
    assert events[..i + 1][..i] == events[..i];
  }

  // Sends on one event, if it is a message.
  method PassOn(reader: Reader, sockets: map<Client, Socket>, e: Event, ghost before: map<Client, Line>)
    requires reader.Valid() && Connected(reader.roster, sockets) && Sendable(e) && before == Lines(sockets)
    modifies sockets.Values
    modifies reader.clients`holds, reader.clients`live, reader.clients`freed, reader.clients.filed
    ensures reader.Valid() && reader.clients.holds == old(reader.clients.holds)
    ensures forall c | c in sockets ::
              LineOf(sockets[c]) == if c in reader.roster.Values && c.state == Opened then Passed(before[c], e)
                                    else before[c]
  {
    hide Reader.Valid, Framed, Header;
    if e.Message? {
      HandleDataFrame(reader, sockets, e.opcode, e.data, before);
    }
  }

  lemma NothingPassed(sockets: map<Client, Socket>, before: map<Client, Line>, events: seq<Event>, people: set<Client>)
    requires before == Lines(sockets)
    ensures AllSendable(events[..0]) && PassedOn(sockets, before, events[..0], people)
  {
  }

  lemma PassedOnNext(sockets: map<Client, Socket>, before: map<Client, Line>, now: map<Client, Line>,
                     events: seq<Event>, i: nat, people: set<Client>)
    requires i < |events| && AllSendable(events) && AllSendable(events[..i])
    requires before.Keys == now.Keys == sockets.Keys
    requires forall c | c in sockets ::
               now[c] == if c in people && c.state == Opened then Relayed(before[c], events[..i]) else before[c]
    requires forall c | c in sockets ::
               LineOf(sockets[c]) == if c in people && c.state == Opened then Passed(now[c], events[i]) else now[c]
    ensures AllSendable(events[..i + 1]) && PassedOn(sockets, before, events[..i + 1], people)
  {
    hide Relayed, Passed, Sendable;
    forall c | c in sockets
      ensures LineOf(sockets[c])
           == if c in people && c.state == Opened then Relayed(before[c], events[..i + 1]) else before[c]
    {
      OneMoreEvent(before[c], events, i);
    }
  }

  // Sends on the next of these events.
  method PassNext(reader: Reader, sockets: map<Client, Socket>, events: seq<Event>, i: nat,
                  ghost before: map<Client, Line>)
    requires i < |events| && reader.Valid() && Connected(reader.roster, sockets)
    requires AllSendable(events) && AllSendable(events[..i])
    requires PassedOn(sockets, before, events[..i], reader.roster.Values)
    modifies sockets.Values
    modifies reader.clients`holds, reader.clients`live, reader.clients`freed, reader.clients.filed
    ensures reader.Valid() && reader.clients.holds == old(reader.clients.holds)
    ensures AllSendable(events[..i + 1]) && PassedOn(sockets, before, events[..i + 1], reader.roster.Values)
  {
    hide Reader.Valid, Passed, Connected, Relayed, Sendable;
    ghost var now := Lines(sockets);
    PassOn(reader, sockets, events[i], now);
    PassedOnNext(sockets, before, now, events, i, reader.roster.Values);
  }

  // Sends on every message among these events to everyone in the table.
  method Relay(reader: Reader, sockets: map<Client, Socket>, events: seq<Event>)
    requires reader.Valid() && Connected(reader.roster, sockets) && AllSendable(events)
    modifies sockets.Values
    modifies reader.clients`holds, reader.clients`live, reader.clients`freed, reader.clients.filed
    ensures reader.Valid() && reader.clients.holds == old(reader.clients.holds)
    ensures PassedOn(sockets, old(Lines(sockets)), events, reader.roster.Values)
  {
    hide Reader.Valid, Connected, AllSendable, PassedOn;
    ghost var before := Lines(sockets);
    NothingPassed(sockets, before, events, reader.roster.Values);
    for i := 0 to |events|
      invariant reader.Valid() && reader.clients.holds == old(reader.clients.holds)
      invariant AllSendable(events[..i]) && PassedOn(sockets, before, events[..i], reader.roster.Values)
    {
      PassNext(reader, sockets, events, i, before);
    }
    assert events[..|events|] == events;
  }

  lemma StillConnected(roster: map<word, Client>, id: word, sockets: map<Client, Socket>)
    requires Connected(roster, sockets)
    ensures Connected(roster - {id}, sockets)
  {
  }

  // One report of the event loop, and what it has made the server do.
  method HearNews(reader: Reader, client: Client, wake: Wake, origins: Origins, ghost c: Conversation)
    returns (news: seq<Event>)
    requires reader.Valid() && client.id in reader.roster && reader.roster[client.id] == client
    requires InOrder(client, c) && WithinRead(wake)
    requires Sound(c) && InMemory(c) + Arriving(wake) < TWO_TO_64
    modifies client`state, client`dataState, client`watched, client`events, client`fragmentedFrame
    modifies client.bufferIn, client.bufferIn.mem
    modifies client.fragmentedFrame, client.fragmentedData, client.fragmentedData.mem
    modifies reader`roster, reader.clients, reader.clients.items, reader.clients.filed
    ensures InOrder(client, Woken(c, wake, origins))
    ensures reader.Valid() && reader.clients.filed <= old(reader.clients.filed)
    ensures reader.roster == if client.watched then old(reader.roster) else old(reader.roster) - {client.id}
    ensures news == News(c, wake, origins) && AllSendable(news)
  {
    hide Reader.Valid, Client.Valid, HasRoom, KeepsBuffers, WithinRead, Woken, AllSendable;
    var done := client.events;
    Standing(client, c);
    NewsFollow(c, wake, origins);
    EventLoops.OnEvent(reader, client, wake, origins, c);
    Standing(client, Woken(c, wake, origins));
    news := client.events[|done|..];
  }

  // Sending on leaves a client as it is.
  method RelayBeside(reader: Reader, sockets: map<Client, Socket>, events: seq<Event>, ghost client: Client,
                     ghost c: Conversation)
    requires reader.Valid() && Connected(reader.roster, sockets) && AllSendable(events) && InOrder(client, c)
    modifies sockets.Values
    modifies reader.clients`holds, reader.clients`live, reader.clients`freed, reader.clients.filed
    ensures reader.Valid() && InOrder(client, c)
    ensures PassedToOthers(sockets, old(Lines(sockets)), events, reader.roster.Values, client)
  {
    hide *;
    ghost var before := Lines(sockets);
    Relay(reader, sockets, events);
    ToOthersToo(sockets, before, events, reader.roster.Values, client);
  }

  // The same of all sockets but that of one client, who may have been sent more.
  ghost predicate PassedToOthers(sockets: map<Client, Socket>, before: map<Client, Line>, events: seq<Event>,
                                 people: set<Client>, client: Client)
    requires AllSendable(events)
    reads sockets.Keys`state, sockets.Values
  {
    && before.Keys == sockets.Keys
    && forall c | c in sockets && c != client ::
         LineOf(sockets[c]) == if c in people && c.state == Opened then Relayed(before[c], events) else before[c]
  }

  lemma ToOthersToo(sockets: map<Client, Socket>, before: map<Client, Line>, events: seq<Event>, people: set<Client>,
                    client: Client)
    requires AllSendable(events) && PassedOn(sockets, before, events, people)
    ensures PassedToOthers(sockets, before, events, people, client)
  {
  }

  // One report of the event loop, and the messages it completes sent on. Every other
  // open client in the table has these messages written to its socket, in order and
  // nothing else; nobody else's socket is touched.
  method OnEventRelayed(reader: Reader, client: Client, wake: Wake, origins: Origins, ghost c: Conversation,
                        sockets: map<Client, Socket>)
    requires reader.Valid() && client.id in reader.roster && reader.roster[client.id] == client
    requires InOrder(client, c) && WithinRead(wake)
    requires Sound(c) && InMemory(c) + Arriving(wake) < TWO_TO_64 && Connected(reader.roster, sockets)
    modifies client`state, client`dataState, client`watched, client`events, client`fragmentedFrame
    modifies client.bufferIn, client.bufferIn.mem
    modifies client.fragmentedFrame, client.fragmentedData, client.fragmentedData.mem
    modifies reader`roster, reader.clients, reader.clients.items, reader.clients.filed, sockets.Values
    ensures InOrder(client, Woken(c, wake, origins))
    ensures reader.Valid() && reader.roster == if client.watched then old(reader.roster) else old(reader.roster) - {client.id}
    ensures AllSendable(News(c, wake, origins))
    ensures PassedToOthers(sockets, old(Lines(sockets)), News(c, wake, origins), reader.roster.Values, client)
  {
    hide *;
    ghost var before := Lines(sockets);
    StillConnected(reader.roster, client.id, sockets);
    var news := HearNews(reader, client, wake, origins, c);
    assert Lines(sockets) == before;
    RelayBeside(reader, sockets, news, client, Woken(c, wake, origins));
  }

  lemma Standing(client: Client, c: Conversation)
    requires InOrder(client, c)
    ensures client.events == SoFar(c)
  {
  }

  // ---- Sockets that take everything ----

  // The frames of the messages among these events, in order.
  function FramesFor(events: seq<Event>): (ws: seq<RawFrame>)
    requires AllSendable(events)
    ensures forall w | w in ws :: w.WellFormed()
  {
    if events == [] then []
    else
      var e := events[|events| - 1];
      FramesFor(events[..|events| - 1]) + if e.Message? then [FrameOf(e.opcode, e.data)] else []
  }

  // The next m writes take everything they are offered.
  predicate TakesAll(script: seq<Result>, m: nat) {
    m <= |script| && forall i | 0 <= i < m :: script[i].Took? && script[i].count >= TWO_TO_64
  }

  lemma FramedWhole(line: Line, w: RawFrame)
    requires w.WellFormed() && !w.masked && |w.payload| < TWO_TO_64 && TakesAll(line.script, 2)
    ensures Framed(line, Header(w), w.payload) == Line(line.taken + Encode(w), line.script[2..])
  {
    hide Header;
    assert |Header(w)| <= 14 by { SecondByteFields(w); }
    TakesEverything(line.script, Header(w), w.payload);
    MaskCancels(w.payload, NO_KEY);
    assert line.script[1..][1..] == line.script[2..];
  }

  lemma {:induction false} EncodeLast(ws: seq<RawFrame>, w: RawFrame)
    requires (forall x | x in ws + [w] :: x.WellFormed()) && (forall x | x in ws :: x.WellFormed()) && w.WellFormed()
    ensures EncodeFrames(ws + [w]) == EncodeFrames(ws) + Encode(w)
  {
    hide Encode;
    if ws == [] {
      assert ws + [w] == [w] && EncodeFrames([]) == [];
      assert [w][1..] == [] && Encode(w) + [] == Encode(w);
    } else {
      var more := ws[1..] + [w];
      assert (ws + [w])[0] == ws[0] && (ws + [w])[1..] == more;
      assert forall x | x in more :: x in ws + [w];
      EncodeLast(ws[1..], w);
      hide RawFrame.WellFormed;
      assert EncodeFrames(ws + [w]) == Encode(ws[0]) + EncodeFrames(more);
      assert EncodeFrames(ws) == Encode(ws[0]) + EncodeFrames(ws[1..]);
    }
  }

  // An open client whose socket takes everything gets the frames of all messages,
  // whole and in order, and they are what can be read from these bytes.
  lemma {:induction false} RelayedWhole(line: Line, events: seq<Event>)
    requires AllSendable(events) && TakesAll(line.script, 2 * |FramesFor(events)|)
    ensures Relayed(line, events)
         == Line(line.taken + EncodeFrames(FramesFor(events)), line.script[2 * |FramesFor(events)|..])
    decreases |events|
  {
    hide Framed, Encode, Header, FrameOf;
    if events != [] {
      var init, e := events[..|events| - 1], events[|events| - 1];
      RelayedWhole(line, init);
      var so := Relayed(line, init);
      if e.Message? {
        FramedWhole(so, FrameOf(e.opcode, e.data));
        EncodeLast(FramesFor(init), FrameOf(e.opcode, e.data));
        assert so.script[2..] == line.script[2 * |FramesFor(events)|..];
      } else {
        assert FramesFor(init) + [] == FramesFor(init);
      }
    }
  }

  lemma {:induction false} ReadBack(ws: seq<RawFrame>)
    requires forall w | w in ws :: w.WellFormed()
    ensures Reference.FramesOf(EncodeFrames(ws)) == ws && Reference.TailOf(EncodeFrames(ws)) == []
  {
    hide Encode, FrameAt;
    if ws != [] {
      var rest := EncodeFrames(ws[1..]);
      EncodedIsFound(ws[0], rest);
      ReadBack(ws[1..]);
      assert (Encode(ws[0]) + rest)[|Encode(ws[0])|..] == rest;
    }
  }
}
