// The reader's reaction to bytes from a client, from its first byte on.
module Server {
  import opened Bytes
  import opened Wrappers
  import opened Buffers
  import opened Sessions
  import opened Clients
  import opened Validation
  import opened Conversations
  import H = Handshake
  import HandshakeParser

  // The conversation a client is in.
  ghost predicate Shows(client: Client, c: Conversation)
    requires client.Valid()
    reads client, client.bufferIn, client.bufferIn.mem
    reads client.fragmentedData, client.fragmentedData.mem, client.fragmentedFrame
  {
    if client.watched && client.dataState.AwaitingHandshake? then
      c == Shaking(client.bufferIn.Content()) && client.events == []
    else
      && c.Talking? && c.progress.session == client.Session() && c.progress.events == client.events
      && (client.watched ==> c.progress.rest == client.bufferIn.Unread())
  }

  // Parses everything in the buffer into a new request object.
  method ParseRequest(buffer: Buffer) returns (result: Option<H.Code>, headers: seq<H.Header>)
    requires buffer.Valid() && buffer.rpos == 0
    modifies buffer`rpos, buffer.mem
    ensures buffer.Valid() && buffer.rpos <= buffer.used
    ensures buffer.Content() == H.Rewrite(H.INITIAL, old(buffer.Content()))
    ensures result.Some? ==> buffer.rpos <= |buffer.Content()|
    ensures match H.Parse(old(buffer.Content()))
            case Incomplete => result == None
            case Finished(code, _, hs) => result == Some(code) && headers == hs
  {
    hide H.Parse, H.Rewrite;
    assert buffer.Unread() == buffer.Content();
    var request := new HandshakeParser.Request();
    result := HandshakeParser.ParseHandshakeRequest(request, buffer);
    headers := request.headers;
  }

  // Parses the opening request from its first byte. If it is not complete, the
  // partial result is thrown away and the read position set back.
  method OnHandshakeData(client: Client, origins: Origins)
    requires client.Valid() && client.watched && client.dataState == AwaitingHandshake && client.events == []
    requires client.fragmentedFrame == null
    modifies client`state, client`dataState, client`watched, client`events
    modifies client.bufferIn`rpos, client.bufferIn`used, client.bufferIn.mem
    ensures client.Valid()
    ensures Shows(client, OnRequest(old(client.bufferIn.Content()), origins))
    ensures old(client.bufferIn.InBounds()) ==> client.bufferIn.InBounds()
  {
    hide H.Parse, H.Rewrite, Validates;
    var result, headers := ParseRequest(client.bufferIn);
    match result {
      case None =>
        client.bufferIn.rpos := 0;
      case Some(code) =>
        if code == H.Done && Validates(headers, origins) {
          client.state := Opened;
          client.dataState := AwaitingFrame;
          client.bufferIn.Clear();
        } else {
          client.DropClient();
        }
    }
  }

  // What a call makes of a conversation whose waiting bytes have just grown.
  function Reaction(c: Conversation, origins: Origins): Conversation {
    match c
    case Shaking(pending) => OnRequest(pending, origins)
    case Talking(p) => Talking(Before(p.events, Sessions.OnData(p.session, p.rest)))
  }

  method OnData(client: Client, origins: Origins, ghost c: Conversation)
    requires client.Valid() && client.watched && Shows(client, c)
    modifies client`state, client`dataState, client`watched, client`events, client`fragmentedFrame
    modifies client.bufferIn`rpos, client.bufferIn`used, client.bufferIn.mem
    modifies client.fragmentedFrame, client.fragmentedData, client.fragmentedData.mem
    ensures client.Valid() && Shows(client, Reaction(c, origins))
    ensures old(client.bufferIn.InBounds()) ==> client.bufferIn.InBounds()
    ensures client.fragmentedFrame == null || client.fragmentedFrame == old(client.fragmentedFrame)
         || fresh(client.fragmentedFrame)
    ensures client.fragmentedData.mem == old(client.fragmentedData.mem) || fresh(client.fragmentedData.mem)
  {
    hide Sessions.OnData, OnRequest;
    match client.dataState {
      case AwaitingHandshake =>
        OnHandshakeData(client, origins);
      case AwaitingFrame | AwaitingFragment =>
        ghost var before := client.events;
        client.OnFrameData();
        assert client.events == before + client.events[|before|..];
    }
  }

  const READ_SIZE := 1024

  // The input buffer holds all it must, sentinel included, and is not too small
  // for a first read.
  ghost predicate HasRoom(client: Client)
    reads client, client.bufferIn
  {
    client.bufferIn.InBounds() && READ_SIZE < client.bufferIn.size
  }

  // Appends what every read returned.
  method Fill(buffer: Buffer, pieces: seq<seq<byte>>)
    requires buffer.Valid() && buffer.rpos <= |buffer.Content()| && buffer.InBounds() && READ_SIZE < buffer.size
    requires forall r :: r in pieces ==> 0 < |r| <= READ_SIZE
    modifies buffer, buffer.mem
    ensures buffer.Valid() && buffer.rpos == old(buffer.rpos) && buffer.InBounds() && READ_SIZE < buffer.size
    ensures buffer.mem == old(buffer.mem) || fresh(buffer.mem)
    ensures buffer.Content() == old(buffer.Content()) + Concat(pieces)
    ensures buffer.Unread() == old(buffer.Unread()) + Concat(pieces)
  {
    hide Concat;
    ghost var content, unread, rpos := buffer.Content(), buffer.Unread(), buffer.rpos;
    buffer.UnreadIs();
    ConcatNone(pieces, content);
    for i := 0 to |pieces|
      invariant buffer.Valid() && buffer.rpos == old(buffer.rpos) && buffer.InBounds() && READ_SIZE < buffer.size
      invariant buffer.mem == old(buffer.mem) || fresh(buffer.mem)
      invariant buffer.Content() == content + Concat(pieces[..i])
    {
      buffer.Append(pieces[i]);
      ConcatNext(pieces, i, content);
    }
    assert pieces[..|pieces|] == pieces;
    buffer.UnreadIs();
    TailGrows(content, Concat(pieces), rpos);
  }

  lemma ConcatNone(pieces: seq<seq<byte>>, content: seq<byte>)
    ensures content + Concat(pieces[..0]) == content
  {
  }

  lemma TailGrows(content: seq<byte>, more: seq<byte>, rpos: nat)
    requires rpos <= |content|
    ensures (content + more)[rpos..] == content[rpos..] + more
  {
  }

  // The client keeps its buffers; what it allocates for them is its own.
  twostate predicate KeepsBuffers(client: Client)
    reads client, client.bufferIn, client.fragmentedData
  {
    && client.bufferIn == old(client.bufferIn) && client.fragmentedData == old(client.fragmentedData)
    && (client.bufferIn.mem == old(client.bufferIn.mem) || fresh(client.bufferIn.mem))
    && (client.fragmentedData.mem == old(client.fragmentedData.mem) || fresh(client.fragmentedData.mem))
    && (client.fragmentedFrame == null || client.fragmentedFrame == old(client.fragmentedFrame)
        || fresh(client.fragmentedFrame))
  }

  // The conversation when more bytes are waiting.
  function Grown(c: Conversation, more: seq<byte>): Conversation {
    match c
    case Shaking(p) => Shaking(p + more)
    case Talking(p) => Talking(p.(rest := p.rest + more))
  }

  // Everything that can be read is appended, then handled in one call.
  method OnReadable(client: Client, pieces: seq<seq<byte>>, origins: Origins, ghost c: Conversation)
    requires client.Valid() && client.watched && Shows(client, c) && HasRoom(client)
    requires forall r :: r in pieces ==> 0 < |r| <= READ_SIZE
    modifies client`state, client`dataState, client`watched, client`events, client`fragmentedFrame
    modifies client.bufferIn, client.bufferIn.mem
    modifies client.fragmentedFrame, client.fragmentedData, client.fragmentedData.mem
    ensures client.Valid() && Shows(client, Converse(c, Concat(pieces), origins)) && HasRoom(client)
    ensures KeepsBuffers(client)
  {
    hide Sessions.OnData, OnRequest, Concat;
    Fill(client.bufferIn, pieces);
    OnData(client, origins, Grown(c, Concat(pieces)));
  }

  // One report of the event loop. A dropped client is not reported on any more.
  method OnWake(client: Client, wake: Wake, origins: Origins, ghost c: Conversation)
    requires client.Valid() && Shows(client, c) && HasRoom(client) && WithinRead(wake)
    modifies client`state, client`dataState, client`watched, client`events, client`fragmentedFrame
    modifies client.bufferIn, client.bufferIn.mem
    modifies client.fragmentedFrame, client.fragmentedData, client.fragmentedData.mem
    ensures client.Valid() && Shows(client, Woken(c, wake, origins)) && HasRoom(client)
    ensures KeepsBuffers(client)
  {
    hide Sessions.OnData, OnRequest, Concat;
    if !client.watched {
      return;
    }
    match wake {
      case HungUp =>
        client.DropClient();
      case Readable(pieces, ended) =>
        if pieces == [] && ended {
          return;
        }
        OnReadable(client, pieces, origins, c);
    }
  }

  // No read returns more than it is asked for.
  predicate WithinRead(wake: Wake) {
    wake.Readable? ==> forall i | 0 <= i < |wake.pieces| :: 0 < |wake.pieces[i]| <= READ_SIZE
  }

  // A whole connection: from a new client on, whatever the event loop reports,
  // the client object is at every time in the conversation with what has arrived.
  method Serve(wakes: seq<Wake>, origins: Origins) returns (client: Client)
    requires forall i | 0 <= i < |wakes| :: WithinRead(wakes[i])
    ensures client.Valid() && Shows(client, WokenAll(Shaking([]), wakes, origins))
  {
    hide Woken, WokenAll, WithinRead;
    client := new Client();
    ghost var c := Shaking([]);
    WokenNone(wakes, origins);
    for i := 0 to |wakes|
      invariant fresh(client) && fresh(client.bufferIn) && fresh(client.bufferIn.mem)
      invariant fresh(client.fragmentedData) && fresh(client.fragmentedData.mem)
      invariant client.fragmentedFrame == null || fresh(client.fragmentedFrame)
      invariant client.Valid() && Shows(client, c) && HasRoom(client)
      invariant c == WokenAll(Shaking([]), wakes[..i], origins)
    {
      OnWake(client, wakes[i], origins, c);
      WokenNext(Shaking([]), wakes, i, origins);
      c := Woken(c, wakes[i], origins);
    }
    assert wakes[..|wakes|] == wakes;
  }

  lemma WokenNone(wakes: seq<Wake>, origins: Origins)
    ensures WokenAll(Shaking([]), wakes[..0], origins) == Shaking([])
  {
  }

  lemma ConcatNext(pieces: seq<seq<byte>>, i: nat, content: seq<byte>)
    requires i < |pieces|
    ensures content + Concat(pieces[..i + 1]) == content + Concat(pieces[..i]) + pieces[i]
  {
    ConcatGrows(pieces, i);
  }

  lemma {:induction false} ConcatGrows(pieces: seq<seq<byte>>, i: nat)
    requires i < |pieces|
    ensures Concat(pieces[..i + 1]) == Concat(pieces[..i]) + pieces[i]
  {
    if i == 0 {
      assert pieces[..1][1..] == [] && pieces[..1][0] == pieces[0];
    } else {
      ConcatGrows(pieces[1..], i - 1);
      assert pieces[..i + 1][1..] == pieces[1..][..i] && pieces[..i][1..] == pieces[1..][..i - 1];
    }
  }
}
