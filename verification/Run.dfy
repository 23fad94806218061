// The event loop over a whole run, with any number of clients that come and go.
module Runs {
  import opened Bytes
  import opened Clients
  import opened Conversations
  import opened Readers
  import opened Server
  import opened Validation
  import opened HashTable
  import opened Murmur
  import EventLoops

  // A client arrives and gets the next number; or the event loop reports on one
  // that has, the `who`-th.
  datatype Occurrence = Arrives | Reports(who: nat, wake: Wake)

  // All conversations, in the order of arrival. Nothing is reported on a client
  // that has not arrived.
  function Turn(cv: seq<Conversation>, o: Occurrence, origins: Origins): seq<Conversation> {
    match o
    case Arrives => cv + [Shaking([])]
    case Reports(i, wake) => if i < |cv| then cv[i := Woken(cv[i], wake, origins)] else cv
  }

  function Turns(run: seq<Occurrence>, origins: Origins): seq<Conversation> {
    if run == [] then [] else Turn(Turns(run[..|run| - 1], origins), run[|run| - 1], origins)
  }

  function Arrivals(run: seq<Occurrence>): (n: nat)
    ensures n <= |run|
  {
    if run == [] then 0 else Arrivals(run[..|run| - 1]) + if run[|run| - 1].Arrives? then 1 else 0
  }

  // What has been reported on one of them, in order.
  function Own(run: seq<Occurrence>, i: nat): seq<Wake> {
    if run == [] then []
    else
      var last := run[|run| - 1];
      Own(run[..|run| - 1], i) + if last.Reports? && last.who == i then [last.wake] else []
  }

  // Reports are on clients that have arrived, and no read returns too much.
  predicate Sensible(run: seq<Occurrence>) {
    forall k | 0 <= k < |run| && run[k].Reports? :: run[k].who < Arrivals(run[..k]) && WithinRead(run[k].wake)
  }

  // ---- What has been reported on one client ----

  lemma OneMore(run: seq<Occurrence>, k: nat, i: nat)
    requires k < |run|
    ensures Arrivals(run[..k + 1]) == Arrivals(run[..k]) + if run[k].Arrives? then 1 else 0
    ensures Own(run[..k + 1], i) == Own(run[..k], i) + if run[k].Reports? && run[k].who == i then [run[k].wake] else []
  {
    assert run[..k + 1][..k] == run[..k];
  }

  // Nothing is reported on a client that has not arrived.
  lemma {:induction false} NothingYet(run: seq<Occurrence>, k: nat, i: nat)
    requires Sensible(run) && k <= |run| && i >= Arrivals(run[..k])
    ensures Own(run[..k], i) == []
  {
    if k > 0 {
      OneMore(run, k - 1, i);
      NothingYet(run, k - 1, i);
    }
  }

  lemma WokenLast(c: Conversation, wakes: seq<Wake>, wake: Wake, origins: Origins)
    ensures WokenAll(c, wakes + [wake], origins) == Woken(WokenAll(c, wakes, origins), wake, origins)
  {
    hide Woken, WokenAll;
    WokenNext(c, wakes + [wake], |wakes|, origins);
    assert (wakes + [wake])[..|wakes| + 1] == wakes + [wake] && (wakes + [wake])[..|wakes|] == wakes;
  }

  // Every client is in the conversation with what was reported on it, as if there
  // were no others.
  lemma {:induction false} AsIfAlone(run: seq<Occurrence>, k: nat, i: nat, origins: Origins)
    requires Sensible(run) && k <= |run|
    ensures |Turns(run[..k], origins)| == Arrivals(run[..k])
    ensures i < Arrivals(run[..k]) ==>
              Turns(run[..k], origins)[i] == WokenAll(Shaking([]), Own(run[..k], i), origins)
  {
    hide Woken, WokenAll, Own, Turns, Arrivals, Turn;
    NoneAtFirst(run, origins);
    if k > 0 {
      var o := run[k - 1];
      AsIfAlone(run, k - 1, i, origins);
      OneMore(run, k - 1, i);
      TurnsNext(run, k - 1, origins);
      var own := Own(run[..k - 1], i);
      assert own + [] == own;
      if o.Reports? {
        WokenLast(Shaking([]), own, o.wake, origins);
        TurnAt(Turns(run[..k - 1], origins), o, i, origins);
      } else {
        TurnAt(Turns(run[..k - 1], origins), o, i, origins);
        if i == Arrivals(run[..k - 1]) {
          NothingYet(run, k - 1, i);
          AloneFirst(origins);
        }
      }
    }
  }

  lemma TurnAt(cv: seq<Conversation>, o: Occurrence, i: nat, origins: Origins)
    ensures |Turn(cv, o, origins)| == |cv| + if o.Arrives? then 1 else 0
    ensures i < |cv| ==>
              Turn(cv, o, origins)[i] == if o.Reports? && o.who == i then Woken(cv[i], o.wake, origins) else cv[i]
    ensures i == |cv| && o.Arrives? ==> Turn(cv, o, origins)[i] == Shaking([])
  {
    hide Woken;
  }

  lemma AloneFirst(origins: Origins)
    ensures WokenAll(Shaking([]), [], origins) == Shaking([])
  {
  }

  // ---- The clients as objects ----

  // The two clients share no buffer, no memory and no frame.
  ghost predicate Separate(a: Client, b: Client)
    reads a`bufferIn, a`fragmentedData, a`fragmentedFrame, a.bufferIn`mem, a.fragmentedData`mem
    reads b`bufferIn, b`fragmentedData, b`fragmentedFrame, b.bufferIn`mem, b.fragmentedData`mem
  {
    && a != b && a.bufferIn != b.bufferIn && a.bufferIn != b.fragmentedData
    && a.fragmentedData != b.bufferIn && a.fragmentedData != b.fragmentedData
    && a.bufferIn.mem != b.bufferIn.mem && a.bufferIn.mem != b.fragmentedData.mem
    && a.fragmentedData.mem != b.bufferIn.mem && a.fragmentedData.mem != b.fragmentedData.mem
    && (a.fragmentedFrame == null || a.fragmentedFrame != b.fragmentedFrame)
  }

  ghost predicate Apart(cs: seq<Client>)
    reads cs`bufferIn, cs`fragmentedData, cs`fragmentedFrame
    reads (set i | 0 <= i < |cs| :: cs[i].bufferIn)`mem, (set i | 0 <= i < |cs| :: cs[i].fragmentedData)`mem
  {
    forall i, j | 0 <= i < |cs| && 0 <= j < |cs| && i != j :: Separate(cs[i], cs[j])
  }

  ghost predicate InOrder(client: Client, c: Conversation)
    reads client, client.bufferIn, client.bufferIn.mem
    reads client.fragmentedData, client.fragmentedData.mem, client.fragmentedFrame
  {
    client.Valid() && Shows(client, c) && HasRoom(client)
  }

  ghost function Listening(cs: seq<Client>): (r: seq<bool>)
    reads cs`watched
    ensures |r| == |cs| && forall i | 0 <= i < |cs| :: r[i] == cs[i].watched
  {
    if cs == [] then [] else Listening(cs[..|cs| - 1]) + [cs[|cs| - 1].watched]
  }

  // The roster has those listened to, each under its number, and nobody else.
  ghost predicate Seated(roster: map<word, Client>, cs: seq<Client>, listening: seq<bool>) {
    && |cs| == |listening| < TWO_TO_32
    && (forall id | id in roster :: 0 < id <= |cs| && roster[id] == cs[id - 1])
    && (forall i | 0 <= i < |cs| :: listening[i] <==> i + 1 in roster)
  }

  lemma StaysSeated(roster: map<word, Client>, cs: seq<Client>, was: seq<bool>, i: nat, now: bool)
    requires Seated(roster, cs, was) && i < |cs| && (now ==> was[i])
    ensures Seated(if now || !was[i] then roster else roster - {i + 1}, cs, was[i := now])
  {
  }

  lemma GetsSeat(roster: map<word, Client>, cs: seq<Client>, was: seq<bool>, client: Client)
    requires Seated(roster, cs, was) && |cs| + 1 < TWO_TO_32
    ensures Seated(roster[|cs| + 1 := client], cs + [client], was + [true])
  {
  }

  lemma DroppedStays(c: Conversation, wake: Wake, origins: Origins)
    requires c.Talking? && c.progress.session.Dropped?
    ensures Woken(c, wake, origins) == c
  {
  }

  // One report on a client; a dropped one is not reported on any more.
  method HearOne(reader: Reader, client: Client, wake: Wake, origins: Origins, ghost c: Conversation)
    requires reader.Valid() && InOrder(client, c) && WithinRead(wake)
    requires client.watched ==> client.id in reader.roster && reader.roster[client.id] == client
    modifies client`state, client`dataState, client`watched, client`events, client`fragmentedFrame
    modifies client.bufferIn, client.bufferIn.mem
    modifies client.fragmentedFrame, client.fragmentedData, client.fragmentedData.mem
    modifies reader`roster, reader.clients, reader.clients.items, reader.clients.filed
    ensures reader.Valid() && InOrder(client, Woken(c, wake, origins)) && KeepsBuffers(client)
    ensures reader.clients.filed <= old(reader.clients.filed)
    ensures client.watched ==> old(client.watched)
    ensures reader.roster == if client.watched || !old(client.watched) then old(reader.roster)
                             else old(reader.roster) - {client.id}
  {
    hide Woken, WithinRead, Client.Valid, Filed, IdKey, Table.Valid, Numbered;
    if client.watched {
      hide Shows, HasRoom, KeepsBuffers;
      EventLoops.OnEvent(reader, client, wake, origins, c);
    } else {
      DroppedStays(c, wake, origins);
    }
  }

  twostate predicate LeftAlone(client: Client)
    reads client, client.bufferIn, client.bufferIn.mem
    reads client.fragmentedData, client.fragmentedData.mem, client.fragmentedFrame
  {
    && unchanged(client) && unchanged(client.bufferIn) && unchanged(client.bufferIn.mem)
    && unchanged(client.fragmentedData) && unchanged(client.fragmentedData.mem)
    && (client.fragmentedFrame != null ==> unchanged(client.fragmentedFrame))
  }

  // All the client consists of is in this set.
  ghost predicate Within(client: Client, owned: set<object>)
    reads client`bufferIn, client`fragmentedData, client`fragmentedFrame
    reads client.bufferIn`mem, client.fragmentedData`mem
  {
    && client in owned && client.bufferIn in owned && client.bufferIn.mem in owned
    && client.fragmentedData in owned && client.fragmentedData.mem in owned
    && (client.fragmentedFrame != null ==> client.fragmentedFrame in owned)
  }

  // One report on a client, as the others see it: nothing of theirs changes.
  method HearBeside(reader: Reader, client: Client, wake: Wake, origins: Origins, ghost c: Conversation,
                    ghost others: set<Client>)
    requires reader.Valid() && InOrder(client, c) && WithinRead(wake)
    requires client.watched ==> client.id in reader.roster && reader.roster[client.id] == client
    requires forall x | x in others :: Separate(client, x) && Separate(x, client)
    modifies client`state, client`dataState, client`watched, client`events, client`fragmentedFrame
    modifies client.bufferIn, client.bufferIn.mem
    modifies client.fragmentedFrame, client.fragmentedData, client.fragmentedData.mem
    modifies reader`roster, reader.clients, reader.clients.items, reader.clients.filed
    ensures reader.Valid() && InOrder(client, Woken(c, wake, origins)) && KeepsBuffers(client)
    ensures reader.clients.filed <= old(reader.clients.filed)
    ensures client.watched ==> old(client.watched)
    ensures reader.roster == if client.watched || !old(client.watched) then old(reader.roster)
                             else old(reader.roster) - {client.id}
    ensures forall x | x in others :: Separate(client, x) && Separate(x, client)
    ensures forall x | x in others :: LeftAlone(x)
  {
    hide Woken, WithinRead, InOrder, Reader.Valid;
    HearOne(reader, client, wake, origins, c);
  }

  lemma OnlyOnce(cs: seq<Client>, i: nat)
    requires i < |cs| && Apart(cs)
    ensures forall j | 0 <= j < |cs| && j != i :: cs[j] != cs[i]
  {
    assert forall j | 0 <= j < |cs| && j != i :: Separate(cs[j], cs[i]);
  }

  lemma SeatNumber(reader: Reader, cs: seq<Client>, i: nat)
    requires i < |cs| && reader.Valid() && Seated(reader.roster, cs, Listening(cs))
    ensures cs[i].watched ==>
              i + 1 in reader.roster && reader.roster[i + 1] == cs[i] && cs[i].id == i + 1
  {
    hide Filed, Table.Valid;
  }

  // One report on the client in seat i.
  method HearInSeat(reader: Reader, ghost cs: seq<Client>, client: Client, ghost i: nat, wake: Wake,
                    origins: Origins, ghost c: Conversation, ghost others: set<Client>)
    requires reader.Valid() && InOrder(client, c) && WithinRead(wake)
    requires i < |cs| && cs[i] == client && Seated(reader.roster, cs, Listening(cs))
    requires client !in others && forall j | 0 <= j < |cs| && j != i :: cs[j] in others
    requires forall x | x in others :: Separate(client, x) && Separate(x, client)
    modifies client`state, client`dataState, client`watched, client`events, client`fragmentedFrame
    modifies client.bufferIn, client.bufferIn.mem
    modifies client.fragmentedFrame, client.fragmentedData, client.fragmentedData.mem
    modifies reader`roster, reader.clients, reader.clients.items, reader.clients.filed
    ensures reader.Valid() && InOrder(client, Woken(c, wake, origins)) && KeepsBuffers(client)
    ensures reader.clients.filed <= old(reader.clients.filed)
    ensures Seated(reader.roster, cs, Listening(cs))
    ensures forall x | x in others :: Separate(client, x) && Separate(x, client) && LeftAlone(x)
  {
    hide Woken, WithinRead, InOrder, KeepsBuffers, Reader.Valid, Seated, Separate, LeftAlone;
    ghost var was := Listening(cs);
    StaysSeated(reader.roster, cs, was, i, false);
    StaysSeated(reader.roster, cs, was, i, was[i]);
    SeatNumber(reader, cs, i);
    HearBeside(reader, client, wake, origins, c, others);
    assert Listening(cs) == was[i := client.watched];
  }

  // One report on one of the clients.
  method Hear(reader: Reader, ghost cs: seq<Client>, client: Client, ghost i: nat, wake: Wake, origins: Origins,
              ghost cv: seq<Conversation>)
    requires i < |cs| == |cv| && cs[i] == client && Apart(cs) && WithinRead(wake)
    requires forall j | 0 <= j < |cs| :: InOrder(cs[j], cv[j])
    requires reader.Valid() && Seated(reader.roster, cs, Listening(cs))
    modifies client`state, client`dataState, client`watched, client`events, client`fragmentedFrame
    modifies client.bufferIn, client.bufferIn.mem
    modifies client.fragmentedFrame, client.fragmentedData, client.fragmentedData.mem
    modifies reader`roster, reader.clients, reader.clients.items, reader.clients.filed
    ensures Apart(cs) && InOrder(client, Woken(cv[i], wake, origins)) && KeepsBuffers(client)
    ensures forall j | 0 <= j < |cs| && j != i :: InOrder(cs[j], cv[j]) && LeftAlone(cs[j])
    ensures reader.Valid() && Seated(reader.roster, cs, Listening(cs))
    ensures reader.clients.filed <= old(reader.clients.filed)
  {
    hide Woken, WithinRead, InOrder, Reader.Valid, KeepsBuffers, Separate, Seated;
    ghost var others := set j | 0 <= j < |cs| && j != i :: cs[j];
    OnlyOnce(cs, i);
    HearInSeat(reader, cs, client, i, wake, origins, cv[i], others);
    forall j | 0 <= j < |cs| && j != i
      ensures InOrder(cs[j], cv[j]) && LeftAlone(cs[j])
    {
      assert cs[j] in others;
      assert old(InOrder(cs[j], cv[j]));
    }
    hide LeftAlone;
    forall j, k | 0 <= j < |cs| && 0 <= k < |cs| && j != k
      ensures Separate(cs[j], cs[k])
    {
      assert old(Separate(cs[j], cs[k]));
      if j == i { assert cs[k] in others; }
      if k == i { assert cs[j] in others; }
    }
  }

  lemma Wider(client: Client, some: set<object>, all: set<object>)
    requires Within(client, some) && some <= all
    ensures Within(client, all)
  {
  }

  lemma NotAmong(cs: seq<Client>, client: Client)
    requires client !in set j | 0 <= j < |cs| :: cs[j]
    ensures client !in cs
  {
    var others := set j | 0 <= j < |cs| :: cs[j];
    assert forall j | 0 <= j < |cs| :: cs[j] in others;
  }

  lemma NewcomerApart(cs: seq<Client>, client: Client)
    requires Apart(cs)
    requires forall x | x in set j | 0 <= j < |cs| :: cs[j] :: Separate(client, x) && Separate(x, client)
    ensures Apart(cs + [client])
  {
    hide Separate;
    var others := set j | 0 <= j < |cs| :: cs[j];
    assert forall j | 0 <= j < |cs| :: cs[j] in others;
  }

  // A client nobody shares anything with.
  method Newcomer(ghost others: set<Client>) returns (client: Client, ghost parts: set<object>)
    ensures Within(client, parts) && fresh(parts) && InOrder(client, Shaking([])) && client.watched && client !in others
    ensures forall x | x in others :: Separate(client, x) && Separate(x, client)
  {
    client := new Client();
    parts := {client, client.bufferIn, client.bufferIn.mem, client.fragmentedData, client.fragmentedData.mem};
  }

  method AddNew(reader: Reader, client: Client, ghost cs: seq<Client>, ghost was: seq<bool>)
    requires reader.Valid() && reader.added == |cs| && |cs| + 1 < TWO_TO_32 && client !in cs && client.watched
    requires Seated(reader.roster, cs, was) && InOrder(client, Shaking([]))
    modifies reader, reader.clients, reader.clients.items, reader.clients.filed, client`id
    ensures reader.Valid() && reader.added == |cs| + 1 && Seated(reader.roster, cs + [client], was + [true])
    ensures fresh(reader.clients.filed - old(reader.clients.filed)) && InOrder(client, Shaking([]))
  {
    hide Reader.Valid;
    GetsSeat(reader.roster, cs, was, client);
    reader.AddClient(client);
  }

  // A client arrives: it gets the next number, which nobody in the table has.
  method Welcome(reader: Reader, ghost cs: seq<Client>, ghost cv: seq<Conversation>, ghost owned: set<object>)
    returns (client: Client, ghost all: set<object>)
    requires |cs| + 1 < TWO_TO_32 && reader.added == |cs| == |cv| && Apart(cs)
    requires forall j | 0 <= j < |cs| :: InOrder(cs[j], cv[j]) && Within(cs[j], owned)
    requires reader.Valid() && Seated(reader.roster, cs, Listening(cs))
    modifies reader, reader.clients, reader.clients.items, reader.clients.filed
    ensures Apart(cs + [client])
    ensures forall j | 0 <= j < |cs| :: InOrder(cs[j], cv[j]) && Within(cs[j], all)
    ensures InOrder(client, Shaking([])) && Within(client, all)
    ensures reader.Valid() && Seated(reader.roster, cs + [client], Listening(cs + [client]))
    ensures reader.added == |cs| + 1 && fresh(reader.clients.filed - old(reader.clients.filed))
    ensures owned <= all && fresh(all - owned)
  {
    hide *;
    ghost var was, parts := Listening(cs), {};
    client, parts := Newcomer(set j | 0 <= j < |cs| :: cs[j]);
    all := owned + parts;
    assert forall j | 0 <= j < |cs| :: cs[j] != client by {
      NotAmong(cs, client);
    }
    AddNew(reader, client, cs, was);
    NewcomerApart(cs, client);
    forall j | 0 <= j < |cs|
      ensures Within(cs[j], all)
    {
      Wider(cs[j], owned, all);
    }
    Wider(client, parts, all);
    assert Listening(cs + [client]) == was + [true];
  }

  // One report; what the client consists of afterwards is its own or new.
  method Report(reader: Reader, ghost cs: seq<Client>, client: Client, ghost i: nat, wake: Wake, origins: Origins,
                ghost cv: seq<Conversation>, ghost owned: set<object>)
    returns (ghost all: set<object>)
    requires i < |cs| == |cv| && cs[i] == client && Apart(cs) && WithinRead(wake)
    requires forall j | 0 <= j < |cs| :: InOrder(cs[j], cv[j]) && Within(cs[j], owned)
    requires reader.Valid() && Seated(reader.roster, cs, Listening(cs))
    modifies owned, reader`roster, reader.clients, reader.clients.items, reader.clients.filed
    ensures Apart(cs) && reader.Valid() && Seated(reader.roster, cs, Listening(cs))
    ensures forall j | 0 <= j < |cs| ::
              InOrder(cs[j], if j == i then Woken(cv[i], wake, origins) else cv[j]) && Within(cs[j], all)
    ensures owned <= all && fresh(all - owned) && reader.clients.filed <= old(reader.clients.filed)
    ensures reader.added == old(reader.added)
  {
    hide Woken, WithinRead, InOrder, Reader.Valid, Separate, Seated;
    assert Within(client, owned);
    Hear(reader, cs, client, i, wake, origins, cv);
    all := owned + {client.bufferIn.mem, client.fragmentedData.mem};
    if client.fragmentedFrame != null {
      all := all + {client.fragmentedFrame};
    }
    forall j | 0 <= j < |cs|
      ensures Within(cs[j], all)
    {
      assert old(Within(cs[j], owned));
    }
  }

  lemma SensibleAt(run: seq<Occurrence>, k: nat)
    requires Sensible(run) && k < |run|
    ensures run[k].Reports? ==> run[k].who < Arrivals(run[..k]) && WithinRead(run[k].wake)
    ensures run[k].Arrives? ==> Arrivals(run[..k]) < Arrivals(run)
  {
    OneMore(run, k, 0);
    MoreArrive(run, k + 1);
  }

  lemma NoneAtFirst(run: seq<Occurrence>, origins: Origins)
    ensures Turns(run[..0], origins) == [] && Arrivals(run[..0]) == 0
  {
  }

  lemma TurnsNext(run: seq<Occurrence>, k: nat, origins: Origins)
    requires k < |run|
    ensures Turns(run[..k + 1], origins) == Turn(Turns(run[..k], origins), run[k], origins)
  {
    assert run[..k + 1][..k] == run[..k];
  }

  // One occurrence.
  method Take(reader: Reader, cs: seq<Client>, o: Occurrence, origins: Origins, ghost cv: seq<Conversation>,
              ghost owned: set<object>)
    returns (now: seq<Client>, ghost all: set<object>)
    requires |cs| == |cv| == reader.added && Apart(cs)
    requires if o.Arrives? then |cs| + 1 < TWO_TO_32 else o.who < |cs| && WithinRead(o.wake)
    requires forall j | 0 <= j < |cs| :: InOrder(cs[j], cv[j]) && Within(cs[j], owned)
    requires reader.Valid() && Seated(reader.roster, cs, Listening(cs))
    modifies owned, reader, reader.clients, reader.clients.items, reader.clients.filed
    ensures |now| == |Turn(cv, o, origins)| == reader.added == |cs| + (if o.Arrives? then 1 else 0) && Apart(now)
    ensures forall j | 0 <= j < |now| :: InOrder(now[j], Turn(cv, o, origins)[j]) && Within(now[j], all)
    ensures reader.Valid() && Seated(reader.roster, now, Listening(now))
    ensures owned <= all && fresh(all - owned) && fresh(reader.clients.filed - old(reader.clients.filed))
  {
    hide Woken, InOrder, Separate, WithinRead, Seated, Reader.Valid, Within;
    match o {
      case Arrives =>
        var client;
        client, all := Welcome(reader, cs, cv, owned);
        now := cs + [client];
      case Reports(i, wake) =>
        all := Report(reader, cs, cs[i], i, wake, origins, cv, owned);
        now := cs;
    }
  }

  method Open() returns (reader: Reader)
    ensures reader.Valid() && reader.added == 0 && reader.roster == map[] && Seated(reader.roster, [], Listening([])) && Apart([])
    ensures fresh(reader) && fresh(reader.clients) && fresh(reader.clients.items) && reader.clients.filed == {}
  {
    hide Reader.Valid;
    reader := new Reader();
  }

  function Everybody(n: nat): seq<bool> {
    seq(n, _ => true)
  }

  lemma OneMoreSeat(roster: map<word, Client>, cs: seq<Client>, i: nat)
    requires i < |cs| < TWO_TO_32 && Seated(roster, cs[..i], Everybody(i))
    requires forall j, k | 0 <= j < k < |cs| :: cs[j] != cs[k]
    ensures cs[i] !in roster.Values
    ensures Seated(roster[i + 1 := cs[i]], cs[..i + 1], Everybody(i + 1))
  {
    assert forall id | id in roster :: roster[id] == cs[..i][id - 1] == cs[id - 1];
    GetsSeat(roster, cs[..i], Everybody(i), cs[i]);
    assert cs[..i] + [cs[i]] == cs[..i + 1] && Everybody(i) + [true] == Everybody(i + 1);
  }

  lemma NobodySeated(cs: seq<Client>)
    ensures Seated(map[], cs[..0], Everybody(0))
  {
  }

  // Fewer than 2^32 clients: each is found under its own number, and nobody is lost.
  method AddAll(cs: seq<Client>) returns (reader: Reader)
    requires |cs| < TWO_TO_32 && forall i | 0 <= i < |cs| :: cs[i].watched
    requires forall i, j | 0 <= i < j < |cs| :: cs[i] != cs[j]
    modifies cs`id
    ensures reader.Valid() && Seated(reader.roster, cs, Everybody(|cs|))
  {
    hide Reader.Valid, Seated, Listening;
    reader := Open();
    NobodySeated(cs);
    for i := 0 to |cs|
      invariant fresh(reader) && fresh(reader.clients) && fresh(reader.clients.items) && fresh(reader.clients.filed)
      invariant reader.Valid() && reader.added == i && Seated(reader.roster, cs[..i], Everybody(i))
    {
      OneMoreSeat(reader.roster, cs, i);
      reader.AddClient(cs[i]);
    }
    assert cs[..|cs|] == cs;
  }

  // A whole run, from an empty table on: every client that has arrived is in the
  // conversation with what was reported on it, as if there were no others; the
  // table has those that are listened to, each under its number, and nobody else.
  method Serve(run: seq<Occurrence>, origins: Origins) returns (reader: Reader, cs: seq<Client>)
    requires Sensible(run) && Arrivals(run) < TWO_TO_32
    ensures |cs| == Arrivals(run) == reader.added && reader.Valid()
    ensures Seated(reader.roster, cs, Listening(cs)) && Apart(cs)
    ensures forall i | 0 <= i < |cs| :: InOrder(cs[i], WokenAll(Shaking([]), Own(run, i), origins))
    ensures fresh(reader) && fresh(reader.clients) && fresh(reader.clients.items) && fresh(reader.clients.filed)
    ensures forall i | 0 <= i < |cs| :: fresh(cs[i])
  {
    hide *;
    reader := Open();
    cs := [];
    NoneAtFirst(run, origins);
    ghost var cv: seq<Conversation> := [];
    ghost var owned: set<object> := {};
    for k := 0 to |run|
      invariant fresh(reader) && fresh(reader.clients) && fresh(reader.clients.items) && fresh(reader.clients.filed)
      invariant |cs| == |cv| == Arrivals(run[..k]) == reader.added && cv == Turns(run[..k], origins)
      invariant fresh(owned)
      invariant forall i | 0 <= i < |cs| :: InOrder(cs[i], cv[i])
      invariant forall i | 0 <= i < |cs| :: Within(cs[i], owned)
      invariant reader.Valid() && Seated(reader.roster, cs, Listening(cs)) && Apart(cs)
    {
      OneMore(run, k, 0);
      SensibleAt(run, k);
      TurnsNext(run, k, origins);
      cs, owned := Take(reader, cs, run[k], origins, cv, owned);
      cv := Turn(cv, run[k], origins);
    }
    AllAsIfAlone(run, origins);
    forall i | 0 <= i < |cs|
      ensures fresh(cs[i])
    {
      OwnsItself(cs[i], owned);
    }
  }

  lemma OwnsItself(client: Client, owned: set<object>)
    requires Within(client, owned)
    ensures client in owned
  {
  }

  lemma AllAsIfAlone(run: seq<Occurrence>, origins: Origins)
    requires Sensible(run)
    ensures run[..|run|] == run && |Turns(run, origins)| == Arrivals(run)
    ensures forall i | 0 <= i < Arrivals(run) ::
              Turns(run, origins)[i] == WokenAll(Shaking([]), Own(run, i), origins)
  {
    hide Own, WokenAll, Turns, Arrivals;
    AsIfAlone(run, |run|, 0, origins);
    assert run[..|run|] == run;
    forall i | 0 <= i < Arrivals(run)
      ensures Turns(run, origins)[i] == WokenAll(Shaking([]), Own(run, i), origins)
    {
      AsIfAlone(run, |run|, i, origins);
    }
  }

  lemma {:induction false} MoreArrive(run: seq<Occurrence>, k: nat)
    requires k <= |run|
    ensures Arrivals(run[..k]) <= Arrivals(run)
    decreases |run| - k
  {
    if k < |run| {
      OneMore(run, k, 0);
      MoreArrive(run, k + 1);
    } else {
      assert run[..k] == run;
    }
  }
}
