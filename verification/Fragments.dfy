// Fragmented messages over every run of the decoder: what the fragment buffer
// holds, told over the list of frames handled so far.
module Fragments {
  import opened Bytes
  import opened Wire
  import opened Frames
  import opened Sessions

  // The masked frames that the decoder handled without dropping the client.
  // With `stall` set, an unmasked frame ends the call.
  function Handled(s: Session, u: seq<byte>, stall: bool): seq<Parsed>
    decreases |u|
  {
    if s.Dropped? then []
    else
      match Parse(u, Carry(s))
      case Done(f, n) =>
        ParseConsumes(u, Carry(s));
        if !f.masked then if stall then [] else Handled(s, u[n..], stall)
        else if Handle(s, f).next.Dropped? then []
        else [f] + Handled(Handle(s, f).next, u[n..], stall)
      case _ => []
  }

  // A message began with frame k and has not ended since.
  predicate OpenSince(fs: seq<Parsed>, k: nat) {
    && k < |fs|
    && (fs[k].opcode == TEXT || fs[k].opcode == BIN) && !fs[k].fin
    && forall j | k < j < |fs| :: IsControl(fs[j].opcode) || (fs[j].opcode == CONT && !fs[j].fin)
  }

  // The payloads of the data frames, in order.
  function DataOf(fs: seq<Parsed>): seq<byte> {
    if fs == [] then []
    else DataOf(fs[..|fs| - 1]) + if IsData(fs[|fs| - 1].opcode) then fs[|fs| - 1].data else []
  }

  // A fragmented message is pending exactly when one is open; then the pending
  // opcode is that of its first frame, and the fragment buffer holds the
  // payloads of all its frames in order.
  ghost predicate Explains(s: Session, fs: seq<Parsed>) {
    && (s.Inside? <==> exists k: nat :: OpenSince(fs, k))
    && (s.Inside? ==>
          && (s.opcode == TEXT || s.opcode == BIN)
          && forall k: nat | OpenSince(fs, k) :: s.opcode == fs[k].opcode && s.data == DataOf(fs[k..]))
  }

  lemma AppendFrame(fs: seq<Parsed>, f: Parsed, k: nat)
    requires k <= |fs|
    ensures DataOf((fs + [f])[k..]) == DataOf(fs[k..]) + if IsData(f.opcode) then f.data else []
  {
    var gs := (fs + [f])[k..];
    assert gs[..|gs| - 1] == fs[k..];
  }

  lemma OpenAfter(fs: seq<Parsed>, f: Parsed, k: nat)
    ensures OpenSince(fs + [f], k) <==>
            if k == |fs| then (f.opcode == TEXT || f.opcode == BIN) && !f.fin
            else OpenSince(fs, k) && (IsControl(f.opcode) || (f.opcode == CONT && !f.fin))
  {
    var gs := fs + [f];
    if k < |fs| {
      if OpenSince(gs, k) {
        forall j | k < j < |fs|
          ensures IsControl(fs[j].opcode) || (fs[j].opcode == CONT && !fs[j].fin)
        {
          assert gs[j] == fs[j];
        }
        assert gs[|fs|] == f;
      }
    }
  }

  lemma StepExplains(s: Session, fs: seq<Parsed>, f: Parsed)
    requires Explains(s, fs) && !s.Dropped? && KnownOpcode(f.opcode)
    requires !Handle(s, f).next.Dropped?
    ensures Explains(Handle(s, f).next, fs + [f])
  {
    var t := Handle(s, f).next;
    forall k: nat
      ensures OpenSince(fs + [f], k) <==>
              if k == |fs| then (f.opcode == TEXT || f.opcode == BIN) && !f.fin
              else OpenSince(fs, k) && (IsControl(f.opcode) || (f.opcode == CONT && !f.fin))
    {
      OpenAfter(fs, f, k);
    }
    if t.Inside? {
      if s.Inside? {
        var k: nat :| OpenSince(fs, k);
        assert OpenSince(fs + [f], k);
      } else {
        assert OpenSince(fs + [f], |fs|);
      }
      forall k: nat | OpenSince(fs + [f], k)
        ensures t.opcode == (fs + [f])[k].opcode && t.data == DataOf((fs + [f])[k..])
      {
        AppendFrame(fs, f, k);
        if k == |fs| {
          assert fs[k..] == [];
        }
      }
    }
  }

  lemma {:induction false} RunExplains(s: Session, fs: seq<Parsed>, u: seq<byte>, stall: bool)
    requires Explains(s, fs)
    ensures var p := Consume(s, u, stall); !p.session.Dropped? ==> Explains(p.session, fs + Handled(s, u, stall))
    decreases |u|
  {
    hide Parse;
    ParseConsumes(u, Carry(s));
    if !s.Dropped? && Parse(u, Carry(s)).Done? {
      var Done(f, n) := Parse(u, Carry(s));
      if !f.masked {
        if stall {
          assert fs + [] == fs;
        } else {
          RunExplains(s, fs, u[n..], stall);
        }
      } else {
        var t := Handle(s, f).next;
        if !t.Dropped? {
          StepExplains(s, fs, f);
          RunExplains(t, fs + [f], u[n..], stall);
          var more := Handled(t, u[n..], stall);
          assert Handled(s, u, stall) == [f] + more;
          assert fs + [f] + more == fs + ([f] + more);
          assert Consume(s, u, stall).session == Consume(t, u[n..], stall).session;
        } else {
          assert Consume(t, u[n..], stall).session == Dropped;
        }
      }
    } else {
      assert fs + [] == fs;
    }
  }

  // The frames handled on a stream that arrives in chunks.
  function HandledAll(p: Progress, chunks: seq<seq<byte>>): seq<Parsed>
    decreases |chunks|
  {
    if chunks == [] || p.session.Dropped? then []
    else Handled(p.session, p.rest + chunks[0], true) + HandledAll(Receive(p, chunks[0]), chunks[1..])
  }

  lemma {:induction false} ChunksExplain(p: Progress, fs: seq<Parsed>, chunks: seq<seq<byte>>)
    requires !p.session.Dropped? ==> Explains(p.session, fs)
    ensures var q := ReceiveAll(p, chunks); !q.session.Dropped? ==> Explains(q.session, fs + HandledAll(p, chunks))
    decreases |chunks|
  {
    hide Consume, Explains;
    if chunks == [] {
      assert fs + [] == fs;
    } else if p.session.Dropped? {
      DroppedIgnores(p, chunks);
    } else {
      var now := Handled(p.session, p.rest + chunks[0], true);
      RunExplains(p.session, fs, p.rest + chunks[0], true);
      ChunksExplain(Receive(p, chunks[0]), fs + now, chunks[1..]);
      var more := HandledAll(Receive(p, chunks[0]), chunks[1..]);
      assert fs + now + more == fs + (now + more);
    }
  }

  // Over every run, from an open connection on, in any chunks, masked or not.
  lemma FragmentsInOrder(chunks: seq<seq<byte>>)
    ensures var q := ReceiveAll(START, chunks); !q.session.Dropped? ==> Explains(q.session, HandledAll(START, chunks))
  {
    ChunksExplain(START, [], chunks);
    assert [] + HandledAll(START, chunks) == HandledAll(START, chunks);
  }

  // The last fragment hands on all payloads since the first, under its opcode.
  lemma CompletionDelivers(s: Session, fs: seq<Parsed>, f: Parsed)
    requires Explains(s, fs) && s.Inside?
    requires f.opcode == CONT && f.fin && f.rsv == 0
    ensures exists k: nat ::
              && OpenSince(fs, k)
              && Handle(s, f) == Reply(Between, [Message(fs[k].opcode, DataOf((fs + [f])[k..]))])
  {
    var k: nat :| OpenSince(fs, k);
    AppendFrame(fs, f, k);
  }
}
