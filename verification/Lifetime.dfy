// What has been done on behalf of a client over its whole life: it is dropped at
// most once, and in the end exactly once.
module Lifetimes {
  import opened Bytes
  import opened Clients
  import opened Sessions
  import opened Conversations
  import opened Readers
  import opened Server
  import opened Validation
  import opened Runs
  import Frames
  import H = Handshake

  predicate NeverDropped(events: seq<Event>) {
    forall k | 0 <= k < |events| :: events[k] != Drop
  }

  predicate DroppedOnce(events: seq<Event>) {
    events != [] && events[|events| - 1] == Drop && NeverDropped(events[..|events| - 1])
  }

  // A session ends with a drop, and has none before.
  predicate Tells(s: Session, events: seq<Event>) {
    if s.Dropped? then DroppedOnce(events) else NeverDropped(events)
  }

  lemma TellsOn(events: seq<Event>, s: Session, more: seq<Event>)
    requires NeverDropped(events) && Tells(s, more)
    ensures Tells(s, events + more)
  {
    var all := events + more;
    if s.Dropped? {
      assert all[..|all| - 1] == events + more[..|more| - 1];
    }
  }

  lemma {:induction false} ConsumeTells(s: Session, u: seq<byte>, stall: bool)
    requires !s.Dropped?
    ensures Tells(Consume(s, u, stall).session, Consume(s, u, stall).events)
    decreases |u|
  {
    hide Frames.Parse, Breaches, Sessions.AddFragment, Tells;
    ParseConsumes(u, Carry(s));
    var o := Frames.Parse(u, Carry(s));
    Quiet(s);
    if o.Done? {
      if !o.frame.masked {
        if !stall {
          ConsumeTells(s, u[o.consumed..], stall);
        }
      } else {
        var r := Handle(s, o.frame);
        HandleTells(s, o.frame);
        if !r.next.Dropped? {
          ConsumeTells(r.next, u[o.consumed..], stall);
          TellsOn(r.events, Consume(r.next, u[o.consumed..], stall).session, Consume(r.next, u[o.consumed..], stall).events);
        } else {
          assert r.events + [] == r.events;
        }
      }
    }
  }

  lemma Quiet(s: Session)
    ensures Tells(Dropped, [Drop]) && (!s.Dropped? ==> Tells(s, []))
  {
  }

  lemma HandleTells(s: Session, f: Frames.Parsed)
    requires !s.Dropped?
    ensures var r := Handle(s, f); Tells(r.next, r.events) && (!r.next.Dropped? ==> NeverDropped(r.events))
  {
  }

  ghost predicate ToldOf(c: Conversation) {
    c.Talking? ==> Tells(c.progress.session, c.progress.events)
  }

  lemma WokenTells(c: Conversation, wake: Wake, origins: Origins)
    requires ToldOf(c)
    ensures ToldOf(Woken(c, wake, origins))
  {
    hide Tells, Consume, Validates, H.Parse, H.Rewrite;
    Quiet(Between);
    if c.Talking? && !c.progress.session.Dropped? {
      var p := c.progress;
      NotYet(p.session, p.events);
      TellsOn(p.events, Dropped, [Drop]);
      if wake.Readable? {
        ConsumeTells(p.session, p.rest + Concat(wake.pieces), true);
        var q := Sessions.OnData(p.session, p.rest + Concat(wake.pieces));
        TellsOn(p.events, q.session, q.events);
      }
    }
  }

  lemma NotYet(s: Session, events: seq<Event>)
    requires Tells(s, events) && !s.Dropped?
    ensures NeverDropped(events)
  {
  }

  lemma {:induction false} WokenAllTells(c: Conversation, wakes: seq<Wake>, origins: Origins)
    requires ToldOf(c)
    ensures ToldOf(WokenAll(c, wakes, origins))
    decreases |wakes|
  {
    hide Woken, ToldOf;
    if wakes != [] {
      WokenTells(c, wakes[0], origins);
      WokenAllTells(Woken(c, wakes[0], origins), wakes[1..], origins);
    }
  }

  // All that has been done for a client by the time it is gone.
  function Life(wakes: seq<Wake>, origins: Origins): (events: seq<Event>) {
    var c := WokenAll(Shaking([]), wakes, origins);
    if Over(c) then SoFar(c) else SoFar(c) + [Drop]
  }

  lemma DropsOnce(wakes: seq<Wake>, origins: Origins)
    ensures DroppedOnce(Life(wakes, origins))
  {
    hide WokenAll, Tells, NeverDropped;
    WokenAllTells(Shaking([]), wakes, origins);
    var c := WokenAll(Shaking([]), wakes, origins);
    assert Tells(Between, []) by { Quiet(Between); }
    if Over(c) {
      assert DroppedOnce(SoFar(c)) by { IsOver(c.progress.session, SoFar(c)); }
    } else {
      if c.Talking? { NotYet(c.progress.session, SoFar(c)); } else { NotYet(Between, []); }
      assert (SoFar(c) + [Drop])[..|SoFar(c)|] == SoFar(c);
    }
  }

  lemma IsOver(s: Session, events: seq<Event>)
    requires Tells(s, events) && s.Dropped?
    ensures DroppedOnce(events)
  {
  }

  lemma Standing(client: Client, c: Conversation)
    requires InOrder(client, c)
    ensures client.events == SoFar(c) && (client.watched <==> !Over(c))
  {
  }

  lemma InRoster(reader: Reader, cs: seq<Client>, i: nat)
    requires i < |cs| && Seated(reader.roster, cs, Listening(cs))
    ensures cs[i].watched <==> cs[i] in reader.roster.Values
    ensures cs[i].watched ==> i + 1 in reader.roster && reader.roster[i + 1] == cs[i]
  {
    assert forall id | id in reader.roster :: reader.roster[id] == cs[id - 1] && cs[id - 1].watched;
  }

  // A whole life of the server: whatever comes, and everybody dropped in the end.
  // Then each client has been dropped exactly once, after all else done for it.
  method ServeAndStop(run: seq<Occurrence>, origins: Origins) returns (reader: Reader, cs: seq<Client>)
    requires Sensible(run) && Arrivals(run) < TWO_TO_32
    ensures |cs| == Arrivals(run) && reader.Valid() && reader.roster == map[]
    ensures forall i | 0 <= i < |cs| :: !cs[i].watched && cs[i].events == Life(Own(run, i), origins)
    ensures forall i | 0 <= i < |cs| :: DroppedOnce(cs[i].events)
  {
    hide *;
    reader, cs := Runs.Serve(run, origins);
    forall i | 0 <= i < |cs|
      ensures cs[i].watched <==> cs[i] in reader.roster.Values
      ensures cs[i].watched ==> i + 1 in reader.roster && reader.roster[i + 1] == cs[i]
      ensures cs[i].watched ==> cs[i].events + [Drop] == Life(Own(run, i), origins)
      ensures !cs[i].watched ==> cs[i].events == Life(Own(run, i), origins)
      ensures DroppedOnce(Life(Own(run, i), origins))
    {
      var c := WokenAll(Shaking([]), Own(run, i), origins);
      InRoster(reader, cs, i);
      Standing(cs[i], c);
      LifeIs(Own(run, i), origins, c);
      DropsOnce(Own(run, i), origins);
    }
    OnlyThese(reader, cs);
    reader.DropAllClients();
  }

  lemma OnlyThese(reader: Reader, cs: seq<Client>)
    requires Seated(reader.roster, cs, Listening(cs))
    ensures forall x | x in reader.roster.Values :: x in cs
  {
    assert forall id | id in reader.roster :: reader.roster[id] == cs[id - 1];
  }

  lemma LifeIs(wakes: seq<Wake>, origins: Origins, c: Conversation)
    requires c == WokenAll(Shaking([]), wakes, origins)
    ensures Life(wakes, origins) == if Over(c) then SoFar(c) else SoFar(c) + [Drop]
  {
  }
}
