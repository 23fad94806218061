// When the sentinel of the fragment buffer leaves its allocation.
module FragmentMemory {
  import opened Bytes
  import opened Buffers
  import opened Wire
  import opened Frames
  import opened Sessions
  import opened Storages
  import opened Clients
  import Reference
  import Utf8

  // ---- Which frames can do it ----

  // The buffer of a new client has 4096 bytes, and grows by pieces.
  predicate InPieces(g: Storage) {
    g.size >= BUFFER_SIZE && g.size % PIECE_SIZE == 0
  }

  // As many bytes as the buffer can have.
  predicate FillsPieces(payload: seq<byte>) {
    |payload| >= BUFFER_SIZE && |payload| % PIECE_SIZE == 0
  }

  lemma RoundsToPieces(n: nat)
    ensures RoundedUp(n) % PIECE_SIZE == 0
  {
    var q := n / PIECE_SIZE;
    assert n == PIECE_SIZE * q + n % PIECE_SIZE;
    assert RoundedUp(n) == PIECE_SIZE * (q + 1);
  }

  lemma KeepsPieces(g: Storage, pending: seq<byte>, data: seq<byte>)
    requires InPieces(g)
    ensures InPieces(Keep(g, pending, data)) && (Keep(g, pending, data).overran ==> g.overran || FillsPieces(data))
  {
    hide RoundedUp;
    RoundsToPieces((if pending == [] then 0 else |pending| + 1) + |data|);
  }

  // Without a frame of such a length the sentinel stays inside, in any session.
  lemma {:induction false} StaysInside(g: Storage, s: Session, u: seq<byte>)
    requires InPieces(g) && forall w | w in Reference.FramesOf(u) :: !FillsPieces(w.payload)
    ensures KeepAll(g, s, u).overran == g.overran && InPieces(KeepAll(g, s, u))
    decreases |u|
  {
    hide Handle, FrameAt, InPieces, FillsPieces, Breaches, Keep, Utf8.Run;
    var o := Parse(u, Carry(s));
    if !s.Dropped? && o.Done? && o.frame.masked {
      ParseConsumes(u, Carry(s));
      var w, more := FrameAt(u), u[FrameLength(u)..];
      assert Reference.FramesOf(u) == [w] + Reference.FramesOf(more);
      assert w in Reference.FramesOf(u);
      assert forall x | x in Reference.FramesOf(more) :: x in Reference.FramesOf(u);
      KeepsPieces(g, Pending(s), o.frame.data);
      NothingLost(g, Pending(s), o.frame.data);
      NoBytes();
      StaysInside(KeepFrame(g, s, o.frame), Handle(s, o.frame).next, more);
    }
  }

  lemma NoBytes()
    ensures !FillsPieces([])
  {
  }

  lemma NothingLost(g: Storage, pending: seq<byte>, data: seq<byte>)
    ensures g.overran ==> Keep(g, pending, data).overran
  {
  }

  // ---- Frames that do it ----

  // A masked frame of n zero bytes.
  function Zeros(fin: bool, opcode: nat, n: nat): (w: RawFrame)
    requires opcode < 16 && n < TWO_TO_16
    ensures w.WellFormed()
  {
    RawFrame(fin, 0, opcode, true, NO_KEY, Medium, seq(n, _ => 0))
  }

  function AsRead(w: RawFrame): Parsed {
    Parsed(w.fin, w.rsv, w.opcode, w.masked, w.payload, Utf8.Anything)
  }

  lemma ReadsZeros(w: RawFrame, rest: seq<byte>)
    requires w.WellFormed() && w.masked && (w.opcode == BIN || w.opcode == CONT)
    ensures Parse(Encode(w) + rest, Utf8.Anything) == Done(AsRead(w), |Encode(w)|)
  {
    hide Encode;
    ParseEncoded(w, rest, Utf8.Anything);
    Utf8.RunAnything(w.payload);
  }

  lemma KeepsFrame(g: Storage, s: Session, w: RawFrame, rest: seq<byte>)
    requires w.WellFormed() && w.masked && (w.opcode == BIN || w.opcode == CONT)
    requires !s.Dropped? && Carry(s) == Utf8.Anything
    ensures KeepAll(g, s, Encode(w) + rest) == KeepAll(KeepFrame(g, s, AsRead(w)), Handle(s, AsRead(w)).next, rest)
  {
    hide Encode, Parse, Handle, KeepFrame, KeepAll;
    ReadsZeros(w, rest);
    KeepRound(g, s, Encode(w) + rest);
    assert (Encode(w) + rest)[|Encode(w)|..] == rest;
  }

  lemma NothingMore(g: Storage, s: Session)
    ensures KeepAll(g, s, []) == g
  {
  }

  const NEW_ROOM := Storage(BUFFER_SIZE, false)

  // A first fragment of just the allocated size.
  lemma FullFirst(w: RawFrame)
    requires w == Zeros(false, BIN, BUFFER_SIZE)
    ensures KeepAll(NEW_ROOM, Between, Encode(w)) == Storage(BUFFER_SIZE, true)
  {
    assert |w.payload| == BUFFER_SIZE;
    hide Encode, KeepAll, Zeros;
    KeepsFrame(NEW_ROOM, Between, w, []);
    assert Encode(w) + [] == Encode(w);
    NothingMore(KeepFrame(NEW_ROOM, Between, AsRead(w)), Handle(Between, AsRead(w)).next);
  }

  // It stays pending.
  lemma FullFirstPending(w: RawFrame)
    requires w == Zeros(false, BIN, BUFFER_SIZE)
    ensures Sessions.OnData(Between, Encode(w)).session == Inside(BIN, Utf8.Anything, w.payload)
    ensures |w.payload| == BUFFER_SIZE
  {
    hide Encode, Sessions.OnData;
    ReadsZeros(w, []);
    assert Encode(w) + [] == Encode(w);
    OneRound(Between, Encode(w));
    assert Encode(w)[|Encode(w)|..] == [];
    NothingYet(Handle(Between, AsRead(w)).next);
  }

  lemma NothingYet(s: Session)
    ensures Sessions.OnData(s, []) == Progress(s, [], [])
  {
  }

  // An empty first fragment, and all of a message in its last one.
  lemma FullLast(w: RawFrame, last: RawFrame)
    requires w == Zeros(false, BIN, 0) && last == Zeros(true, CONT, BUFFER_SIZE)
    ensures KeepAll(NEW_ROOM, Between, Encode(w) + Encode(last)).overran
  {
    hide Encode, KeepAll;
    var f, g := AsRead(w), AsRead(last);
    KeepsFrame(NEW_ROOM, Between, w, Encode(last));
    var s := Handle(Between, f).next;
    assert s == Inside(BIN, Utf8.Anything, []);
    KeepsFrame(KeepFrame(NEW_ROOM, Between, f), s, last, []);
    assert Encode(last) + [] == Encode(last);
    NothingMore(KeepFrame(KeepFrame(NEW_ROOM, Between, f), s, g), Handle(s, g).next);
  }

  // ---- The loop ----

  // A connection that has just been opened, and the first bytes on it.
  method OpenWith(bytes: seq<byte>) returns (client: Client)
    ensures fresh(client) && client.Valid() && client.watched && client.dataState == AwaitingFrame
    ensures client.Session() == Between && client.bufferIn.Unread() == bytes && client.Room() == NEW_ROOM
    ensures client.fragmentedFrame == null
    ensures fresh(client.bufferIn) && fresh(client.bufferIn.mem)
    ensures fresh(client.fragmentedData) && fresh(client.fragmentedData.mem)
  {
    client := new Client();
    client.state, client.dataState := Opened, AwaitingFrame;
    client.bufferIn.UnreadIs();
    client.bufferIn.Append(bytes);
    client.bufferIn.UnreadIs();
  }

  // The frame loop on such a connection overruns exactly as the function says.
  method RunsOn(bytes: seq<byte>) returns (client: Client)
    ensures client.Valid() && client.Room() == KeepAll(NEW_ROOM, Between, bytes)
    ensures client.Session() == Sessions.OnData(Between, bytes).session
  {
    hide KeepAll, Sessions.OnData;
    client := OpenWith(bytes);
    client.OnFrameData();
  }

  // Both streams make the sentinel of the fragment buffer leave the allocation; behind
  // the first one it is still there.
  method FullFragmentOverruns() returns (first: Client, last: Client)
    ensures first.fragmentedData.overran && last.fragmentedData.overran && !first.fragmentedData.InBounds()
  {
    hide Encode, KeepAll, Zeros;
    FullFirst(Zeros(false, BIN, BUFFER_SIZE));
    FullFirstPending(Zeros(false, BIN, BUFFER_SIZE));
    first := RunsOn(Encode(Zeros(false, BIN, BUFFER_SIZE)));
    FullLast(Zeros(false, BIN, 0), Zeros(true, CONT, BUFFER_SIZE));
    last := RunsOn(Encode(Zeros(false, BIN, 0)) + Encode(Zeros(true, CONT, BUFFER_SIZE)));
  }
}
