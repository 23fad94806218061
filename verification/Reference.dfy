// How the server reads the protocol, told over whole frames and whole messages,
// without automaton states, buffers or read positions; and that it does follow
// this. Where it is more indulgent than sections 5.1 to 5.5 of RFC 6455 is told
// in Strict.
module Reference {
  import opened Bytes
  import opened Wrappers
  import opened Wire
  import opened Frames
  import opened Sessions
  import Utf8

  // The data of an unfinished message, under the opcode of its first frame.
  datatype Unfinished = Unfinished(opcode: nat, data: seq<byte>)

  // The message data up to and including w.
  function SoFar(p: Option<Unfinished>, w: RawFrame): seq<byte> {
    if w.opcode == CONT && p.Some? then p.value.data + w.payload else w.payload
  }

  predicate IsText(p: Option<Unfinished>, w: RawFrame) {
    w.opcode == TEXT || (w.opcode == CONT && p.Some? && p.value.opcode == TEXT)
  }

  // Text that is not UTF-8, or can no longer become UTF-8; or an oversized ping.
  ghost predicate BadPayload(p: Option<Unfinished>, w: RawFrame) {
    || (IsText(p, w) && if w.fin then !Utf8.Valid(SoFar(p, w)) else !Utf8.Viable(SoFar(p, w)))
    || (w.opcode == PING && |w.payload| > 125)
  }

  predicate BadSequence(p: Option<Unfinished>, w: RawFrame) {
    || w.rsv != 0
    || (IsControl(w.opcode) && !w.fin)
    || (w.opcode == CONT && p.None?)
    || ((w.opcode == TEXT || w.opcode == BIN) && p.Some?)
  }

  // What the client at the other end of ws is sent. `tail` is the beginning of
  // a frame whose first byte may already give away an unknown opcode.
  ghost function Interpret(p: Option<Unfinished>, ws: seq<RawFrame>, tail: seq<byte>): seq<Event>
    decreases |ws|
  {
    if ws == [] then
      if tail != [] && !KnownOpcode(tail[0] % 16) then [Drop] else []
    else
      var w := ws[0];
      if !KnownOpcode(w.opcode) then [Drop]
      else if NeverCompletes(w) then []
      else if BadPayload(p, w) then [Drop]
      else if !w.masked then Interpret(p, ws[1..], tail)
      else if BadSequence(p, w) then [Drop]
      else if w.opcode == CLOSE then [Drop]
      else if w.opcode == PING then [Pong(w.payload)] + Interpret(p, ws[1..], tail)
      else if w.opcode == PONG then Interpret(p, ws[1..], tail)
      else
        var opcode := if w.opcode == CONT then p.value.opcode else w.opcode;
        if w.fin then [Message(opcode, SoFar(p, w))] + Interpret(None, ws[1..], tail)
        else Interpret(Some(Unfinished(opcode, SoFar(p, w))), ws[1..], tail)
  }

  // ---- Every stream is frames and the beginning of one more ----

  function FramesOf(u: seq<byte>): (ws: seq<RawFrame>)
    ensures forall w :: w in ws ==> w.WellFormed()
    decreases |u|
  {
    if HasFrame(u) then
      FoundIsEncoded(u);
      [FrameAt(u)] + FramesOf(u[FrameLength(u)..])
    else []
  }

  function TailOf(u: seq<byte>): seq<byte>
    decreases |u|
  {
    if HasFrame(u) then TailOf(u[FrameLength(u)..]) else u
  }

  lemma {:induction false} StreamIsFrames(u: seq<byte>)
    ensures u == EncodeFrames(FramesOf(u)) + TailOf(u)
    ensures !HasFrame(TailOf(u))
    decreases |u|
  {
    if HasFrame(u) {
      var w, n := FrameAt(u), FrameLength(u);
      FoundIsEncoded(u);
      StreamIsFrames(u[n..]);
      FirstFrame(w, FramesOf(u[n..]), TailOf(u));
      assert u == Encode(w) + u[n..];
    } else {
      assert [] + u == u;
    }
  }

  lemma FirstFrame(w: RawFrame, ws: seq<RawFrame>, tail: seq<byte>)
    requires w.WellFormed() && forall v :: v in ws ==> v.WellFormed()
    ensures EncodeFrames([w] + ws) + tail == Encode(w) + (EncodeFrames(ws) + tail)
  {
    assert ([w] + ws)[1..] == ws;
  }

  // ---- The server follows it ----

  // The session's automaton state is that of the text received so far.
  ghost predicate Agrees(s: Session, p: Option<Unfinished>) {
    match p
    case None => s == Between
    case Some(m) =>
      && (m.opcode == TEXT || m.opcode == BIN)
      && s.Inside? && s.opcode == m.opcode && s.data == m.data
      && Utf8.Run(Expectation(m.opcode, Utf8.Anything), m.data) == Some(s.utf8)
  }

  // The parser's verdict in terms of the whole message.
  lemma Verdict(s: Session, p: Option<Unfinished>, w: RawFrame, n: nat)
    requires Agrees(s, p) && KnownOpcode(w.opcode) && !NeverCompletes(w)
    ensures Judge(w, n, Carry(s)) == Critical <==> BadPayload(p, w)
    ensures !BadPayload(p, w) ==> Judge(w, n, Carry(s)).Done?
    ensures !BadPayload(p, w) && IsData(w.opcode) ==>
              Utf8.Run(if IsText(p, w) then Utf8.Char else Utf8.Anything, SoFar(p, w))
              == Some(Judge(w, n, Carry(s)).frame.utf8)
  {
    if IsData(w.opcode) {
      var start := if IsText(p, w) then Utf8.Char else Utf8.Anything;
      if w.opcode == CONT && p.Some? {
        Utf8.RunConcat(start, p.value.data, w.payload);
      }
      assert Utf8.Run(start, SoFar(p, w)) == Utf8.Run(Expectation(w.opcode, Carry(s)), w.payload);
      Utf8.Exact(SoFar(p, w));
      Utf8.RefusesOnlyHopeless(SoFar(p, w));
      Utf8.RunAnything(SoFar(p, w));
      Utf8.RunNeverAnything(Utf8.Char, SoFar(p, w));
    }
  }

  lemma {:induction false} DecoderFollows(s: Session, p: Option<Unfinished>, ws: seq<RawFrame>, tail: seq<byte>)
    requires Agrees(s, p) && !HasFrame(tail)
    requires forall w :: w in ws ==> w.WellFormed()
    ensures Decode(s, EncodeFrames(ws) + tail).events == Interpret(p, ws, tail)
    decreases |ws|
  {
    if ws == [] {
      assert EncodeFrames(ws) + tail == tail;
    } else {
      var w, rest := ws[0], EncodeFrames(ws[1..]) + tail;
      FirstFrame(w, ws[1..], tail);
      assert ws == [w] + ws[1..];
      DecodeFrame(s, w, rest);
      if KnownOpcode(w.opcode) && !NeverCompletes(w) {
        var n := |Encode(w)|;
        Verdict(s, p, w, n);
        if !BadPayload(p, w) {
          FollowsFrame(s, p, w, n);
          if !w.masked {
            DecoderFollows(s, p, ws[1..], tail);
          } else if !BadSequence(p, w) && w.opcode != CLOSE {
            DecoderFollows(Handle(s, Judge(w, n, Carry(s)).frame).next, After(p, w), ws[1..], tail);
          }
        }
      }
    }
  }

  // The decoder's step on an encoded frame.
  lemma DecodeFrame(s: Session, w: RawFrame, rest: seq<byte>)
    requires w.WellFormed() && !s.Dropped?
    ensures Decode(s, Encode(w) + rest).events ==
            if !KnownOpcode(w.opcode) then [Drop]
            else
              match Judge(w, |Encode(w)|, Carry(s))
              case Done(f, _) =>
                if !w.masked then Decode(s, rest).events
                else Handle(s, f).events + Decode(Handle(s, f).next, rest).events
              case Incomplete => []
              case _ => [Drop]
  {
    ParseEncoded(w, rest, Carry(s));
    assert (Encode(w) + rest)[|Encode(w)|..] == rest;
  }

  // The unfinished message behind a proper frame.
  function After(p: Option<Unfinished>, w: RawFrame): Option<Unfinished>
    requires !BadSequence(p, w)
  {
    if IsControl(w.opcode) then p
    else if w.fin then None
    else Some(Unfinished(if w.opcode == CONT then p.value.opcode else w.opcode, SoFar(p, w)))
  }

  lemma FollowsFrame(s: Session, p: Option<Unfinished>, w: RawFrame, n: nat)
    requires Agrees(s, p) && KnownOpcode(w.opcode) && !NeverCompletes(w) && !BadPayload(p, w)
    ensures Judge(w, n, Carry(s)).Done?
    ensures var f := Judge(w, n, Carry(s)).frame;
            && (Breaches(s, f) <==> BadSequence(p, w))
            && (!BadSequence(p, w) && w.opcode != CLOSE ==> Agrees(Handle(s, f).next, After(p, w)))
  {
    Verdict(s, p, w, n);
  }

  // The main result: cut into chunks in any way, a masked stream makes the
  // server send exactly what this reference says about its frames.
  lemma ServerFollowsProtocol(chunks: seq<seq<byte>>)
    requires MaskedStream(Between, Concat(chunks))
    ensures var u := Concat(chunks);
            ReceiveAll(START, chunks).events == Interpret(None, FramesOf(u), TailOf(u))
  {
    var u := Concat(chunks);
    ChunkIndependence(chunks);
    StreamIsFrames(u);
    DecoderFollows(Between, None, FramesOf(u), TailOf(u));
  }

  // The same, told from the sender's side: for any masked frames, cut anywhere.
  lemma SentFramesAreFollowed(chunks: seq<seq<byte>>, ws: seq<RawFrame>, tail: seq<byte>)
    requires forall w :: w in ws ==> w.WellFormed() && w.masked
    requires !HasFrame(tail) && Concat(chunks) == EncodeFrames(ws) + tail
    ensures ReceiveAll(START, chunks).events == Interpret(None, ws, tail)
  {
    MaskedFrames(Between, ws, tail);
    ChunkIndependence(chunks);
    DecoderFollows(Between, None, ws, tail);
  }

  lemma {:induction false} MaskedFrames(s: Session, ws: seq<RawFrame>, tail: seq<byte>)
    requires forall w :: w in ws ==> w.WellFormed() && w.masked
    requires !HasFrame(tail)
    ensures MaskedStream(s, EncodeFrames(ws) + tail)
    decreases |ws|
  {
    if ws == [] {
      assert EncodeFrames(ws) + tail == tail;
    } else if !s.Dropped? {
      var w, rest := ws[0], EncodeFrames(ws[1..]) + tail;
      FirstFrame(w, ws[1..], tail);
      assert ws == [w] + ws[1..];
      ParseEncoded(w, rest, Carry(s));
      assert (Encode(w) + rest)[|Encode(w)|..] == rest;
      var o := Judge(w, |Encode(w)|, Carry(s));
      if o.Done? {
        MaskedFrames(Handle(s, o.frame).next, ws[1..], tail);
      }
    }
  }

  ghost predicate TextIsValid(events: seq<Event>) {
    forall e <- events :: e.Message? && e.opcode == TEXT ==> Utf8.Valid(e.data)
  }

  lemma {:induction false} InterpretedTextIsValid(p: Option<Unfinished>, ws: seq<RawFrame>, tail: seq<byte>)
    ensures TextIsValid(Interpret(p, ws, tail))
    decreases |ws|
  {
    if ws != [] {
      var w := ws[0];
      InterpretedTextIsValid(p, ws[1..], tail);
      InterpretedTextIsValid(None, ws[1..], tail);
      if IsData(w.opcode) && !BadSequence(p, w) {
        InterpretedTextIsValid(After(p, w), ws[1..], tail);
      }
    }
  }

  // Whatever arrives, however cut, masked or not: every text message handed on
  // is UTF-8, also when characters straddle fragments and pings come between.
  lemma DeliveredTextIsValid(chunks: seq<seq<byte>>)
    requires chunks != []
    ensures TextIsValid(ReceiveAll(START, chunks).events)
  {
    var u := Concat(chunks);
    ChunksBetween(chunks);
    StreamIsFrames(u);
    DecoderFollows(Between, None, FramesOf(u), TailOf(u));
    InterpretedTextIsValid(None, FramesOf(u), TailOf(u));
  }
}
