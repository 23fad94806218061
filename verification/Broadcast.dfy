// Sending a message on to every open client in the reader's table.
module Broadcasts {
  import opened Bytes
  import opened Wrappers
  import opened HashTable
  import opened Cursors
  import opened Clients
  import opened Readers
  import opened WriteLoop
  import opened Wire
  import opened FrameHead
  import opened Murmur
  import Frames
  import Utf8

  // All that has happened to it is that the frame was written to it.
  ghost predicate Took(before: Line, socket: Socket, head: seq<byte>, payload: seq<byte>)
    reads socket
  {
    LineOf(socket) == Framed(before, head, payload)
  }

  ghost predicate Untouched(before: Line, socket: Socket)
    reads socket
  {
    LineOf(socket) == before
  }

  // Every client of the reader has a socket of its own.
  ghost predicate Connected(roster: map<word, Client>, sockets: map<Client, Socket>) {
    && (forall id | id in roster :: roster[id] in sockets)
    && forall a, b | a in sockets && b in sockets && a != b :: sockets[a] != sockets[b]
  }

  // The open ones among the clients told have been sent the frame, once; nobody
  // else has been sent anything.
  ghost predicate Told(sockets: map<Client, Socket>, before: map<Client, Line>, told: seq<Client>,
                       head: seq<byte>, payload: seq<byte>)
    reads sockets.Keys`state, sockets.Values
  {
    && before.Keys == sockets.Keys
    && (forall c | c in sockets && !(c in told && c.state == Opened) :: Untouched(before[c], sockets[c]))
    && forall c | c in sockets && c in told && c.state == Opened :: Took(before[c], sockets[c], head, payload)
  }

  // The cursor has been over some items, and their clients have been told.
  ghost predicate Telling(reader: Reader, cursor: Cursor<Client>, items: seq<Item<Client>>, told: seq<Client>)
    reads reader, reader.clients, reader.clients.items
    reads reader.clients.live`ref, reader.clients.live`next, reader.clients.live`data
    reads reader.clients.filed`next, reader.clients.filed`key, reader.clients.filed`data
    reads reader.roster.Values`id, reader.roster.Values`watched, cursor, items`data
  {
    && reader.Valid() && cursor.hash == reader.clients && cursor.Valid() && cursor.Steady()
    && Distinct(items) && (forall i | 0 <= i < |items| :: items[i] in reader.clients.filed)
    && |told| <= |items| && Lists(items[..|told|], told) && cursor.Remaining() == items[|told|..]
  }

  // A client that comes up for the first time.
  lemma NotToldYet(reader: Reader, items: seq<Item<Client>>, told: seq<Client>, client: Client)
    requires reader.Valid() && Distinct(items)
    requires forall i | 0 <= i < |items| :: items[i] in reader.clients.filed
    requires |told| < |items| && Lists(items[..|told|], told) && items[|told|].data == Some(client)
    ensures client !in told && client.id in reader.roster && reader.roster[client.id] == client
  {
    hide IdKey, Table.Valid, Filed, Numbered;
    reader.Owner(items[|told|]);
    if client in told {
      var i :| 0 <= i < |told| && told[i] == client;
      assert items[..|told|][i] == items[i];
      reader.Owner(items[i]);
    }
  }

  method TellClient(sockets: map<Client, Socket>, client: Client, head: array<byte>, payload: seq<byte>,
                    ghost before: map<Client, Line>, ghost told: seq<Client>)
    requires client in sockets && client !in told && Told(sockets, before, told, head[..], payload)
    requires forall a, b | a in sockets && b in sockets && a != b :: sockets[a] != sockets[b]
    modifies sockets.Values
    ensures Told(sockets, before, told + [client], head[..], payload)
  {
    if client.state == Opened {
      var _ := SendFrame(sockets[client], head[..], payload);
    }
  }

  // Tells the client whose item the cursor returned last.
  method TellReturned(reader: Reader, cursor: Cursor<Client>, sockets: map<Client, Socket>, client: Client,
                      head: array<byte>, payload: seq<byte>, ghost before: map<Client, Line>,
                      ghost items: seq<Item<Client>>, ghost told: seq<Client>)
    returns (ghost now: seq<Client>)
    requires reader.Valid() && cursor.hash == reader.clients && cursor.Valid() && cursor.Steady()
    requires Distinct(items) && forall i | 0 <= i < |items| :: items[i] in reader.clients.filed
    requires |told| < |items| && Lists(items[..|told|], told) && items[|told|].data == Some(client)
    requires cursor.Remaining() == items[|told| + 1..]
    requires Told(sockets, before, told, head[..], payload) && Connected(reader.roster, sockets)
    modifies sockets.Values
    ensures now == told + [client]
    ensures Telling(reader, cursor, items, now) && Told(sockets, before, now, head[..], payload)
  {
    hide Table.Valid, Filed, Numbered, Distinct, Rest, Told, Lists, Cursor.Valid, Cursor.Steady;
    NotToldYet(reader, items, told, client);
    ListsNext(items, told, client);
    TellClient(sockets, client, head, payload, before, told);
    now := told + [client];
  }

  // The cursor moves on, and the client it returns, if any, is told.
  method TellNext(reader: Reader, cursor: Cursor<Client>, sockets: map<Client, Socket>, head: array<byte>,
                  payload: seq<byte>, ghost before: map<Client, Line>, ghost items: seq<Item<Client>>,
                  ghost told: seq<Client>)
    returns (more: bool, ghost now: seq<Client>)
    requires Telling(reader, cursor, items, told) && Told(sockets, before, told, head[..], payload)
    requires Connected(reader.roster, sockets)
    modifies cursor`col, cursor`row, sockets.Values
    modifies reader.clients`holds, reader.clients`live, reader.clients`freed, reader.clients.filed
    ensures Telling(reader, cursor, items, now) && Told(sockets, before, now, head[..], payload)
    ensures if more then |now| == |told| + 1 <= |items| else now == told && |told| == |items|
    ensures Exchanged(old(reader.clients.holds), old(cursor.Held()), reader.clients.holds, cursor.Held())
    ensures reader.clients.live == old(reader.clients.live) && reader.clients.freed == old(reader.clients.freed)
  {
    hide Table.Valid, Filed, Numbered, Distinct, Rest, Exchanged, Cursor.Held, Told, Lists, Has, Leads;
    var client, item := cursor.Next();
    more, now := client.Some?, told;
    if more {
      now := TellReturned(reader, cursor, sockets, client.value, head, payload, before, items, told);
    }
  }

  // Tells all clients before the cursor.
  method TellRest(reader: Reader, cursor: Cursor<Client>, sockets: map<Client, Socket>, head: array<byte>,
                  payload: seq<byte>, ghost before: map<Client, Line>, ghost items: seq<Item<Client>>)
    returns (ghost told: seq<Client>)
    requires Telling(reader, cursor, items, []) && Told(sockets, before, [], head[..], payload)
    requires Connected(reader.roster, sockets)
    modifies cursor`col, cursor`row, sockets.Values
    modifies reader.clients`holds, reader.clients`live, reader.clients`freed, reader.clients.filed
    ensures Telling(reader, cursor, items, told) && |told| == |items|
    ensures Told(sockets, before, told, head[..], payload)
    ensures Exchanged(old(reader.clients.holds), old(cursor.Held()), reader.clients.holds, cursor.Held())
    ensures reader.clients.live == old(reader.clients.live) && reader.clients.freed == old(reader.clients.freed)
  {
    hide Telling, Told, Exchanged, Cursor.Held;
    ExchangedNot(reader.clients.holds, cursor.Held());
    told := [];
    var more := true;
    while more
      invariant Telling(reader, cursor, items, told) && Told(sockets, before, told, head[..], payload)
      invariant |told| <= |items| && (!more ==> |told| == |items|)
      invariant Exchanged(old(reader.clients.holds), old(cursor.Held()), reader.clients.holds, cursor.Held())
      invariant reader.clients.live == old(reader.clients.live) && reader.clients.freed == old(reader.clients.freed)
      decreases more, |items| - |told|
    {
      ghost var held, holds := cursor.Held(), reader.clients.holds;
      more, told := TellNext(reader, cursor, sockets, head, payload, before, items, told);
      ExchangedTwice(
        old(reader.clients.holds), old(cursor.Held()), holds, held, reader.clients.holds, cursor.Held());
    }
  }

  // Everyone in the table has been told.
  lemma AllTold(reader: Reader, cursor: Cursor<Client>, items: seq<Item<Client>>, told: seq<Client>)
    requires Telling(reader, cursor, items, told) && |told| == |items|
    requires forall x | x in reader.clients.filed :: x in items
    ensures forall c :: c in told <==> c in reader.roster.Values
  {
    hide IdKey, Table.Valid, Filed, Numbered, Distinct;
    assert items[..|told|] == items;
    forall c | c in told
      ensures c in reader.roster.Values
    {
      var i :| 0 <= i < |told| && told[i] == c;
      reader.Owner(items[i]);
    }
    forall id | id in reader.roster
      ensures reader.roster[id] in told
    {
      var x := reader.ItemAt(id);
      var i :| 0 <= i < |items| && items[i] == x;
      assert told[i] == reader.roster[id];
    }
  }

  // The open ones among these people, and nobody else, have been sent the frame, once.
  ghost predicate ToldExactly(sockets: map<Client, Socket>, before: map<Client, Line>, head: seq<byte>,
                              payload: seq<byte>, people: set<Client>)
    reads sockets.Keys`state, sockets.Values
  {
    && before.Keys == sockets.Keys
    && forall c | c in sockets ::
         if c in people && c.state == Opened then Took(before[c], sockets[c], head, payload)
         else Untouched(before[c], sockets[c])
  }

  lemma ToldNobody(sockets: map<Client, Socket>, before: map<Client, Line>, head: seq<byte>, payload: seq<byte>)
    requires before.Keys == sockets.Keys && forall c | c in sockets :: Untouched(before[c], sockets[c])
    ensures Told(sockets, before, [], head, payload)
  {
  }

  lemma ToldAsAll(sockets: map<Client, Socket>, before: map<Client, Line>, told: seq<Client>,
                  head: seq<byte>, payload: seq<byte>, people: set<Client>)
    requires Told(sockets, before, told, head, payload)
    requires forall c :: c in told <==> c in people
    ensures ToldExactly(sockets, before, head, payload, people)
  {
  }

  // A frame head, and a cursor with all clients before it.
  method StartTelling(reader: Reader, opcode: byte, payload: seq<byte>)
    returns (head: array<byte>, cursor: Cursor<Client>)
    requires reader.Valid() && |payload| < TWO_TO_64
    modifies reader.clients`holds, reader.clients.filed`ref
    ensures fresh(head) && head[..] == Header(Outgoing(opcode, false, NO_KEY, payload))
    ensures fresh(cursor) && Telling(reader, cursor, Flatten(reader.clients.chains), [])
    ensures reader.clients.holds == old(reader.clients.holds) + cursor.Held()
    ensures forall x | x in reader.clients.filed :: x in Flatten(reader.clients.chains)
  {
    hide Table.Valid, Filed, Numbered, Distinct, Rest, Flatten, Header;
    head := GenerateFrameHead(payload, |payload|, false, NO_KEY, opcode);
    EachOnce(reader.clients);
    cursor := new Cursor(reader.clients);
  }

  // Tells everyone in the table.
  method TellAll(reader: Reader, cursor: Cursor<Client>, sockets: map<Client, Socket>, head: array<byte>,
                 payload: seq<byte>, ghost before: map<Client, Line>, ghost items: seq<Item<Client>>)
    requires Telling(reader, cursor, items, []) && Told(sockets, before, [], head[..], payload)
    requires Connected(reader.roster, sockets) && forall x | x in reader.clients.filed :: x in items
    modifies cursor`col, cursor`row, sockets.Values
    modifies reader.clients`holds, reader.clients`live, reader.clients`freed, reader.clients.filed
    ensures reader.Valid() && cursor.hash == reader.clients && cursor.Valid() && cursor.Steady()
    ensures Exchanged(old(reader.clients.holds), old(cursor.Held()), reader.clients.holds, cursor.Held())
    ensures reader.clients.live == old(reader.clients.live) && reader.clients.freed == old(reader.clients.freed)
    ensures ToldExactly(sockets, before, head[..], payload, reader.roster.Values)
  {
    hide Told, Exchanged, Cursor.Held, ToldExactly;
    ghost var told := TellRest(reader, cursor, sockets, head, payload, before, items);
    AllTold(reader, cursor, items, told);
    ToldAsAll(sockets, before, told, head[..], payload, reader.roster.Values);
  }

  // Tells everyone in the table, and gives up the cursor.
  method TellAndStop(reader: Reader, cursor: Cursor<Client>, sockets: map<Client, Socket>, head: array<byte>,
                     payload: seq<byte>, ghost before: map<Client, Line>)
    requires Telling(reader, cursor, Flatten(reader.clients.chains), [])
    requires before.Keys == sockets.Keys && forall c | c in sockets :: Untouched(before[c], sockets[c])
    requires Connected(reader.roster, sockets)
    requires forall x | x in reader.clients.filed :: x in Flatten(reader.clients.chains)
    modifies cursor`col, cursor`row, sockets.Values
    modifies reader.clients`holds, reader.clients`live, reader.clients`freed, reader.clients.filed
    ensures reader.Valid()
    ensures Exchanged(old(reader.clients.holds), old(cursor.Held()), reader.clients.holds, multiset{})
    ensures reader.clients.live == old(reader.clients.live) && reader.clients.freed == old(reader.clients.freed)
    ensures ToldExactly(sockets, before, head[..], payload, reader.roster.Values)
  {
    hide *;
    ghost var held, holds := cursor.Held(), reader.clients.holds;
    ToldNobody(sockets, before, head[..], payload);
    TellAll(reader, cursor, sockets, head, payload, before, Flatten(reader.clients.chains));
    ghost var held', holds' := cursor.Held(), reader.clients.holds;
    reader.StopWalking(cursor);
    ExchangedTwice(holds, held, holds', held', reader.clients.holds, multiset{});
  }

  // Sends a message to every open client in the table, exactly once: each has
  // taken just what the write loop sends on its socket. Nobody else is sent
  // anything, and the table is as before.
  method HandleDataFrame(reader: Reader, sockets: map<Client, Socket>, opcode: byte, payload: seq<byte>,
                         ghost before: map<Client, Line>)
    requires before.Keys == sockets.Keys && forall c | c in sockets :: Untouched(before[c], sockets[c])
    requires reader.Valid() && |payload| < TWO_TO_64 && Connected(reader.roster, sockets)
    modifies sockets.Values
    modifies reader.clients`holds, reader.clients`live, reader.clients`freed, reader.clients.filed
    ensures reader.Valid() && reader.clients.holds == old(reader.clients.holds)
    ensures reader.clients.live == old(reader.clients.live) && reader.clients.freed == old(reader.clients.freed)
    ensures ToldExactly(sockets, before, Header(Outgoing(opcode, false, NO_KEY, payload)), payload,
                        reader.roster.Values)
  {
    hide *;
    var head, cursor := StartTelling(reader, opcode, payload);
    ghost var held := cursor.Held();
    TellAndStop(reader, cursor, sockets, head, payload, before);
    ExchangedBack(old(reader.clients.holds), held, reader.clients.holds);
  }

  // A client whose socket takes everything gets the whole frame, which parses back
  // to the message.
  lemma WholeFrameArrives(before: Line, opcode: byte, payload: seq<byte>, rest: seq<byte>)
    requires IsData(opcode) && |payload| < TWO_TO_64 && Legal(opcode, payload)
    requires var head := Header(Outgoing(opcode, false, NO_KEY, payload)); var script := before.script;
             && |script| >= 2 && script[0].Took? && script[0].count >= |head|
             && script[1].Took? && script[1].count >= |payload|
    ensures var after := Framed(before, Header(Outgoing(opcode, false, NO_KEY, payload)), payload);
            && before.taken <= after.taken
            && var sent := after.taken[|before.taken|..];
               var o := Frames.Parse(sent + rest, Utf8.Anything);
               && o.Done? && o.consumed == |sent|
               && o.frame.fin && o.frame.opcode == opcode && !o.frame.masked && o.frame.data == payload
  {
    hide Header, Frames.Parse, Legal;
    var head := Header(Outgoing(opcode, false, NO_KEY, payload));
    TakesEverything(before.script, head, payload);
    assert Framed(before, head, payload).taken[|before.taken|..] == head + payload;
    FrameRoundTrip(opcode, false, NO_KEY, payload, rest);
    ZeroMask(payload);
  }

  // A ping is answered on the client's own socket, with a pong of the same payload.
  method HandlePingFrame(client: Client, socket: Socket, payload: seq<byte>)
    requires |payload| < TWO_TO_64
    modifies socket
    ensures LineOf(socket) == if client.state == Opened
                              then Framed(old(LineOf(socket)), Header(Outgoing(PONG, false, NO_KEY, payload)), payload)
                              else old(LineOf(socket))
  {
    if client.state == Opened {
      var head := GenerateFrameHead(payload, |payload|, false, NO_KEY, PONG);
      var _ := SendFrame(socket, head[..], payload);
    }
  }

  // What a socket that takes everything holds of one frame, in bytes: a pong begins
  // with 8a, a text with 81 and a binary message with 82.
  lemma ArrivesInBytes(before: Line, opcode: byte, payload: seq<byte>)
    requires opcode < 16 && |payload| < TWO_TO_64
    requires var head := Header(Outgoing(opcode, false, NO_KEY, payload)); var script := before.script;
             && |script| >= 2 && script[0].Took? && script[0].count >= |head|
             && script[1].Took? && script[1].count >= |payload|
    ensures var n := |payload|;
            Framed(before, Header(Outgoing(opcode, false, NO_KEY, payload)), payload).taken
              == before.taken
               + (if n <= 125 then [0x80 + opcode, n]
                  else if n <= 65535 then [0x80 + opcode, 126, n / 256, n % 256]
                  else [0x80 + opcode, 127] + ToBigEndian(n, 8))
               + payload
  {
    hide Header;
    var head := Header(Outgoing(opcode, false, NO_KEY, payload));
    TakesEverything(before.script, head, payload);
    HeadInNumbers(opcode, payload);
    assert before.taken + (head + payload) == before.taken + head + payload;
  }

  lemma PongArrives(before: Line, payload: seq<byte>)
    requires |payload| <= 125 && |before.script| >= 2
    requires before.script[0].Took? && before.script[0].count >= 2
    requires before.script[1].Took? && before.script[1].count >= |payload|
    ensures Framed(before, Header(Outgoing(PONG, false, NO_KEY, payload)), payload).taken
         == before.taken + [0x8a, |payload|] + payload
  {
    hide Header, Framed;
    HeadInNumbers(10, payload);
    ArrivesInBytes(before, 10, payload);
  }

  lemma ZeroMask(payload: seq<byte>)
    ensures Mask(payload, NO_KEY) == payload
  {
    forall i | 0 <= i < |payload|
      ensures Mask(payload, NO_KEY)[i] == payload[i]
    {
      XorCancels(payload[i], 0);
    }
  }
}
