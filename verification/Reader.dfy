// The reader's table of clients, filed under the hash of their numbers.
module Readers {
  import opened Bytes
  import opened Wrappers
  import opened Murmur
  import opened HashTable
  import opened Cursors
  import opened Clients
  import opened Sessions

  const CLIENTS_SCALE := 4

  // One map is the other with every number replaced by its hash.
  ghost predicate Filed<T>(contents: map<word, T>, roster: map<word, T>) {
    && (forall id | id in roster :: IdKey(id) in contents && contents[IdKey(id)] == roster[id])
    && (forall k | k in contents :: exists id :: id in roster && IdKey(id) == k)
  }

  lemma FiledAdd<T>(contents: map<word, T>, roster: map<word, T>, id: word, x: T)
    requires Filed(contents, roster)
    ensures IdKey(id) in contents <==> id in roster
    ensures id !in roster ==> Filed(contents[IdKey(id) := x], roster[id := x])
  {
    hide IdKey;
    if IdKey(id) in contents {
      var i :| i in roster && IdKey(i) == IdKey(id);
      IdKeyIsInjective(i, id);
    }
    forall i | i in roster && IdKey(i) == IdKey(id)
      ensures i == id
    {
      IdKeyIsInjective(i, id);
    }
    if id !in roster {
      var c, r := contents[IdKey(id) := x], roster[id := x];
      forall k | k in c
        ensures exists i :: i in r && IdKey(i) == k
      {
        if k == IdKey(id) {
          assert id in r;
        } else {
          var i :| i in roster && IdKey(i) == k;
          assert i in r;
        }
      }
    }
  }

  lemma FiledDrop<T>(contents: map<word, T>, roster: map<word, T>, id: word)
    requires Filed(contents, roster)
    ensures Filed(contents - {IdKey(id)}, roster - {id})
  {
    hide IdKey;
    forall i: word | i in roster && IdKey(i) == IdKey(id)
      ensures i == id
    {
      IdKeyIsInjective(i, id);
    }
    forall k | k in contents - {IdKey(id)}
      ensures exists i :: i in roster - {id} && IdKey(i) == k
    {
      var i :| i in roster && IdKey(i) == k;
      assert i in roster - {id};
    }
  }

  // Everyone in the table is listened to, under a number given out already.
  ghost predicate Numbered(roster: map<word, Client>, added: nat)
    reads roster.Values`id, roster.Values`watched
  {
    forall id | id in roster :: roster[id].id == id && roster[id].watched && (added < TWO_TO_32 ==> 0 < id <= added)
  }

  lemma NumberedAdd(roster: map<word, Client>, added: nat, client: Client)
    requires Numbered(roster, added) && client.watched && client.id == (added + 1) % TWO_TO_32
    ensures added + 1 < TWO_TO_32 ==> client.id == added + 1 && client.id !in roster
    ensures Numbered(roster, added + 1) && Numbered(roster[client.id := client], added + 1)
  {
  }

  lemma NumberedDrop(roster: map<word, Client>, added: nat, id: word)
    requires Numbered(roster, added)
    ensures Numbered(roster - {id}, added)
    ensures id in roster ==> roster[id] !in (roster - {id}).Values
  {
  }

  class Reader {
    const clients: Table<Client>
    var cid: word

    // How many clients have been added, and who is in the table under which number.
    ghost var added: nat
    ghost var roster: map<word, Client>

    // The table files exactly the clients of the roster, each under its own number.
    ghost predicate Valid()
      reads this, clients, clients.items, clients.live`ref, roster.Values`id, roster.Values`watched
      reads clients.filed`next, clients.filed`key, clients.filed`data
    {
      && clients.Valid() && |clients.chains| == CLIENTS_SCALE
      && cid == added % TWO_TO_32
      && Filed(clients.contents, roster)
      && Numbered(roster, added)
    }

    constructor ()
      ensures Valid() && roster == map[] && added == 0 && clients.live == {} && clients.holds == multiset{}
      ensures fresh(clients) && fresh(clients.items) && clients.filed == {}
    {
      cid, added, roster := 0, 0, map[];
      clients := new Table<Client>(CLIENTS_SCALE);
    }

    // Files a client under its number, unless another client has that number.
    method File(client: Client)
      requires clients.Valid() && Filed(clients.contents, roster)
      modifies this`roster, clients, clients.items, clients.filed
      ensures clients.Valid() && Filed(clients.contents, roster)
      ensures |clients.chains| == old(|clients.chains|) && clients.holds == old(clients.holds)
      ensures fresh(clients.filed - old(clients.filed))
      ensures roster == if client.id in old(roster) then old(roster) else old(roster)[client.id := client]
    {
      hide IdKey, Filed, Table.Chained, Counted;
      FiledAdd(clients.contents, roster, client.id, client);
      var _ := clients.Insert(IdKey(client.id), client);
      if client.id !in roster {
        roster := roster[client.id := client];
      }
    }

    // The client gets the next number. As long as the counter has not come round,
    // no client in the table has that number.
    method AddClient(client: Client)
      requires Valid() && client.watched && client !in roster.Values
      modifies this, clients, clients.items, clients.filed, client`id
      ensures Valid() && added == old(added) + 1 && client.id == cid
      ensures roster == if cid in old(roster) then old(roster) else old(roster)[cid := client]
      ensures added < TWO_TO_32 ==> cid == added && cid !in old(roster)
      ensures clients.holds == old(clients.holds) && fresh(clients.filed - old(clients.filed))
    {
      hide IdKey, Filed, Table.Valid;
      cid := (cid + 1) % TWO_TO_32;
      client.id := cid;
      NumberedAdd(roster, added, client);
      hide Numbered;
      added := added + 1;
      File(client);
    }

    // In order, but that the client of this number may have been dropped already.
    ghost predicate ValidBut(id: word)
      reads this, clients, clients.items, clients.live`ref, roster.Values`id, roster.Values`watched
      reads clients.filed`next, clients.filed`key, clients.filed`data
    {
      && clients.Valid() && |clients.chains| == CLIENTS_SCALE
      && cid == added % TWO_TO_32
      && Filed(clients.contents, roster)
      && Numbered(roster - {id}, added)
    }

    // Takes a client out of the table.
    method TakeOut(client: Client) returns (ghost p: nat)
      requires ValidBut(client.id) && client.id in roster
      modifies this`roster, clients, clients.items, clients.filed
      ensures Valid() && roster == old(roster) - {client.id}
      ensures clients.holds == old(clients.holds) && clients.live + clients.freed == old(clients.live + clients.freed)
      ensures var col := Col(IdKey(client.id), CLIENTS_SCALE); var s := old(clients.chains)[col];
              && p < |s| && s[p] in old(clients.filed) && old(s[p].key) == IdKey(client.id)
              && clients.chains == old(clients.chains)[col := RemoveAt(s, p)]
              && clients.filed == old(clients.filed) - {s[p]}
    {
      hide IdKey, Filed, Numbered, Table.Chained, Counted, Col, RemoveAt;
      var data;
      FiledAdd(clients.contents, roster, client.id, client);
      data, p := clients.Remove(IdKey(client.id));
      FiledDrop(old(clients.contents), roster, client.id);
      roster := roster - {client.id};
    }

    // Stops listening to a client and takes it out of the table.
    method DropClient(client: Client) returns (ghost p: nat)
      requires Valid() && client.id in roster && roster[client.id] == client
      modifies this`roster, clients, clients.items, clients.filed, client`watched, client`state, client`events
      ensures Valid() && roster == old(roster) - {client.id}
      ensures !client.watched && client.events == old(client.events) + [Drop]
      ensures clients.holds == old(clients.holds) && clients.live + clients.freed == old(clients.live + clients.freed)
      ensures var col := Col(IdKey(client.id), CLIENTS_SCALE); var s := old(clients.chains)[col];
              && p < |s| && s[p] in old(clients.filed) && old(s[p].key) == IdKey(client.id)
              && clients.chains == old(clients.chains)[col := RemoveAt(s, p)]
              && clients.filed == old(clients.filed) - {s[p]}
    {
      hide IdKey, Filed, Table.Valid, Col, RemoveAt;
      NumberedDrop(roster, added, client.id);
      hide Numbered;
      p := TakeOut(client);
      client.DropClient();
    }

    // The item of a client is filed under the client's number.
    lemma Owner(item: Item<Client>)
      requires Valid() && item in clients.filed
      ensures item.data.Some?
      ensures var client := item.data.value;
              client.id in roster && roster[client.id] == client && IdKey(client.id) == item.key
      ensures forall y: Item<Client> | y in clients.filed && y.key == item.key :: y == item
    {
      hide IdKey, Table.Valid;
      KeyedOnce(clients, item);
      var id :| id in roster && IdKey(id) == item.key;
    }

    // Every client in the table has an item.
    lemma ItemAt(id: word) returns (item: Item<Client>)
      requires Valid() && id in roster
      ensures item in clients.filed && item.data == Some(roster[id])
    {
      hide IdKey, Table.Valid;
      item := ItemOf(clients, IdKey(id));
      KeyedOnce(clients, item);
    }

    // A cursor has the items of this table still before it, all of them or all but one.
    ghost predicate Walking(cursor: Cursor<Client>, ahead: seq<Item<Client>>)
      reads this, clients, clients.items, clients.live`ref, clients.live`next, clients.live`data, cursor
      reads roster.Values`id, roster.Values`watched
      reads clients.filed`next, clients.filed`key, clients.filed`data
    {
      && Valid() && cursor.hash == clients && cursor.Valid() && cursor.Steady()
      && Distinct(ahead)
      && (forall x | x in ahead :: x in clients.filed) && (forall x | x in clients.filed :: x in ahead)
    }

    // Drops the client whose item the cursor returned last.
    method DropReturned(cursor: Cursor<Client>, ghost item: Item<Client>, client: Client)
      requires Valid() && cursor.hash == clients && cursor.Valid()
      requires Walking(cursor, [item] + cursor.Remaining()) && item.data == Some(client)
      modifies this`roster, clients, clients.items, clients.filed, client`watched, client`state, client`events
      ensures Valid() && cursor.Valid() && cursor.Remaining() == old(cursor.Remaining())
      ensures Walking(cursor, cursor.Remaining())
      ensures client.id in old(roster) && old(roster)[client.id] == client && roster == old(roster) - {client.id}
      ensures !client.watched && client.events == old(client.events) + [Drop]
      ensures clients.holds == old(clients.holds) && clients.live + clients.freed == old(clients.live + clients.freed)
      ensures clients.filed <= old(clients.filed)
    {
      hide IdKey, Col, RemoveAt, Rest, Filed, Numbered, Counted, Table.Chained;
      assert item in [item] + cursor.Remaining();
      Owner(item);
      ghost var rest, chains := cursor.Remaining(), clients.chains;
      ghost var p := DropClient(client);
      ghost var col := Col(IdKey(client.id), CLIENTS_SCALE);
      assert chains[col][p] == item;
      DistinctTail(item, rest);
      SurvivesRemoval(chains, cursor.col, cursor.row, col, p);
    }

    lemma NoneLeft()
      requires Valid() && clients.filed == {}
      ensures clients.contents == map[] && roster == map[]
    {
      hide IdKey, Table.Valid;
      if k :| k in clients.contents {
        var x := ItemOf(clients, k);
        assert false;
      }
      assert clients.contents == map[];
    }

    // Of everyone who was in the table at first, those who are left in it are as
    // they were, and the others have been dropped once.
    ghost predicate Settled(everyone: map<word, Client>, before: map<word, seq<Event>>)
      reads this, everyone.Values`watched, everyone.Values`events
    {
      && before.Keys == everyone.Keys
      && (forall i, j | i in everyone && j in everyone && i != j :: everyone[i] != everyone[j])
      && (forall id | id in roster :: id in everyone && roster[id] == everyone[id])
      && forall id | id in everyone ::
           && everyone[id].watched == (id in roster)
           && everyone[id].events == if id in roster then before[id] else before[id] + [Drop]
    }

    lemma StartsSettled()
      requires Numbered(roster, added)
      ensures Settled(roster, map id | id in roster :: roster[id].events)
    {
    }

    lemma AllGone(everyone: map<word, Client>, before: map<word, seq<Event>>)
      requires Settled(everyone, before) && roster == map[]
      ensures before.Keys == everyone.Keys
      ensures forall id | id in everyone :: !everyone[id].watched && everyone[id].events == before[id] + [Drop]
    {
    }

    // The cursor moves on; the client it returns, if any, is dropped.
    method DropNext(cursor: Cursor<Client>, ghost everyone: map<word, Client>, ghost before: map<word, seq<Event>>)
      returns (more: bool)
      requires Walking(cursor, cursor.Remaining()) && Settled(everyone, before)
      modifies cursor`col, cursor`row, this`roster, clients, clients.items, clients.filed
      modifies everyone.Values`watched, everyone.Values`state, everyone.Values`events
      ensures Walking(cursor, cursor.Remaining()) && Settled(everyone, before)
      ensures if more then |cursor.Remaining()| < old(|cursor.Remaining()|) else cursor.Remaining() == []
      ensures Exchanged(old(clients.holds), old(cursor.Held()), clients.holds, cursor.Held())
      ensures clients.filed <= old(clients.filed) && clients.live + clients.freed == old(clients.live + clients.freed)
    {
      hide Distinct, Table.Valid, Filed, Rest, IdKey, Numbered, Exchanged, Cursor.Held, Settled;
      ghost var ahead := cursor.Remaining();
      var client, item := cursor.Next();
      more := client.Some?;
      if more {
        assert ahead == [item] + cursor.Remaining();
        DropAndSettle(cursor, item, client.value, everyone, before);
      }
    }

    method DropAndSettle(cursor: Cursor<Client>, ghost item: Item<Client>, client: Client,
                         ghost everyone: map<word, Client>, ghost before: map<word, seq<Event>>)
      requires Walking(cursor, [item] + cursor.Remaining()) && item.data == Some(client)
      requires Settled(everyone, before)
      modifies this`roster, clients, clients.items, clients.filed
      modifies everyone.Values`watched, everyone.Values`state, everyone.Values`events
      ensures Walking(cursor, cursor.Remaining()) && cursor.Remaining() == old(cursor.Remaining())
      ensures Settled(everyone, before)
      ensures clients.holds == old(clients.holds) && clients.live + clients.freed == old(clients.live + clients.freed)
      ensures clients.filed <= old(clients.filed)
    {
      hide Distinct, Table.Valid, Filed, Rest, IdKey, Numbered, Cursor.Held, Cursor.Valid;
      assert item in [item] + cursor.Remaining();
      Owner(item);
      assert client == everyone[client.id];
      DropReturned(cursor, item, client);
    }

    // Drops the clients still before the cursor.
    method DropRest(cursor: Cursor<Client>, ghost everyone: map<word, Client>, ghost before: map<word, seq<Event>>)
      requires Walking(cursor, cursor.Remaining()) && Settled(everyone, before)
      modifies cursor`col, cursor`row, this`roster, clients, clients.items, clients.filed
      modifies everyone.Values`watched, everyone.Values`state, everyone.Values`events
      ensures Valid() && cursor.Valid() && cursor.Steady() && cursor.hash == clients && clients.filed == {} && clients.contents == map[]
      ensures Exchanged(old(clients.holds), old(cursor.Held()), clients.holds, cursor.Held())
      ensures clients.live + clients.freed == old(clients.live + clients.freed)
      ensures roster == map[] && Settled(everyone, before)
    {
      hide Distinct, Table.Valid, Filed, Rest, Numbered, IdKey, Exchanged, Cursor.Held, Settled;
      ExchangedNot(clients.holds, cursor.Held());
      var more := true;
      while more
        invariant Walking(cursor, cursor.Remaining()) && (!more ==> cursor.Remaining() == [])
        invariant Exchanged(old(clients.holds), old(cursor.Held()), clients.holds, cursor.Held())
        invariant clients.filed <= old(clients.filed)
        invariant clients.live + clients.freed == old(clients.live + clients.freed)
        invariant Settled(everyone, before)
        decreases more, |cursor.Remaining()|
      {
        ghost var held, holds := cursor.Held(), clients.holds;
        more := DropNext(cursor, everyone, before);
        ExchangedTwice(old(clients.holds), old(cursor.Held()), holds, held, clients.holds, cursor.Held());
      }
      NoneLeft();
    }

    // A cursor with all items of the table before it.
    method StartWalking() returns (cursor: Cursor<Client>)
      requires Valid()
      modifies clients`holds, clients.filed`ref
      ensures fresh(cursor) && Walking(cursor, cursor.Remaining())
      ensures clients.holds == old(clients.holds) + cursor.Held()
    {
      hide Distinct, Table.Valid, Filed, Rest, IdKey, Numbered;
      EachOnce(clients);
      cursor := new Cursor(clients);
    }

    method StopWalking(cursor: Cursor<Client>)
      requires Valid() && cursor.hash == clients && cursor.Valid() && cursor.Steady()
      modifies cursor`row, clients`holds, clients`live, clients`freed, clients.filed
      ensures Valid() && Exchanged(old(clients.holds), old(cursor.Held()), clients.holds, multiset{})
      ensures clients.live == old(clients.live) && clients.freed == old(clients.freed)
    {
      hide Table.Valid, Filed, IdKey, Numbered;
      cursor.Free();
    }

    // Drops every client in the table, exactly once, and leaves the table empty.
    method DropAllClients()
      requires Valid()
      modifies this`roster, clients, clients.items, clients.filed
      modifies roster.Values`watched, roster.Values`state, roster.Values`events
      ensures Valid() && roster == map[] && clients.contents == map[] && clients.filed == {}
      ensures forall id | id in old(roster) ::
                var client := old(roster)[id]; !client.watched && client.events == old(client.events) + [Drop]
      ensures clients.holds == old(clients.holds) && clients.live + clients.freed == old(clients.live + clients.freed)
    {
      hide Distinct, Table.Valid, Filed, Rest, IdKey, Exchanged, Numbered, Settled, Cursor.Valid, Cursor.Held;
      ghost var everyone := roster;
      ghost var before := map id | id in roster :: roster[id].events;
      StartsSettled();
      var cursor := StartWalking();
      ghost var held, holds := cursor.Held(), clients.holds;
      DropRest(cursor, everyone, before);
      ghost var held', holds' := cursor.Held(), clients.holds;
      StopWalking(cursor);
      ExchangedTwice(holds, held, holds', held', clients.holds, multiset{});
      ExchangedBack(old(clients.holds), held, clients.holds);
      AllGone(everyone, before);
    }
  }
}
