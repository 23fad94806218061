// The receiving side of RFC 6455 without indulgence, and exactly where the
// server is more indulgent than that.
module Strict {
  import opened Bytes
  import opened Wrappers
  import opened Wire
  import opened Sessions
  import opened Reference
  import FrameHead
  import Frames
  import Utf8

  const TWO_TO_63: int := 0x8000_0000_0000_0000

  // A frame a client may send: masked (section 5.1), with the shortest form of a
  // length whose top bit is clear and no reserved bits (section 5.2), and, if it
  // is a control frame, whole and of at most 125 bytes (section 5.5).
  predicate Conforming(w: RawFrame) {
    && w.masked && w.rsv == 0 && KnownOpcode(w.opcode)
    && |w.payload| < TWO_TO_63 && w.form == FrameHead.FormFor(|w.payload|)
    && (IsControl(w.opcode) ==> w.fin && |w.payload| <= 125)
  }

  // The shortest form, told by the heads of all frames with the same payload.
  lemma FormIsShortest(w: RawFrame)
    requires w.WellFormed()
    ensures w.form == FrameHead.FormFor(|w.payload|) <==>
              !exists v: RawFrame :: v.WellFormed() && v.payload == w.payload && v.masked == w.masked
                                     && |Header(v)| < |Header(w)|
  {
    hide Header;
    var best := w.(form := FrameHead.FormFor(|w.payload|));
    FrameHead.HeaderSize(w);
    FrameHead.HeaderSize(best);
    forall v: RawFrame | v.WellFormed() && v.payload == w.payload && v.masked == w.masked
      ensures |Header(best)| <= |Header(v)|
    {
      FrameHead.HeaderSize(v);
    }
  }

  // In its place in the stream: fragments follow a beginning, nothing else
  // interrupts them (section 5.4), and text is UTF-8 (section 8.1).
  ghost predicate Acceptable(p: Option<Unfinished>, w: RawFrame) {
    && Conforming(w)
    && (w.opcode == CONT ==> p.Some?) && (w.opcode == TEXT || w.opcode == BIN ==> p.None?)
    && (IsText(p, w) ==> if w.fin then Utf8.Valid(SoFar(p, w)) else Utf8.Viable(SoFar(p, w)))
  }

  // What is sent in response to one frame, and whether that was the last one listened to.
  datatype Response = Response(events: seq<Event>, last: bool)

  const FAIL := Response([Drop], true)

  // What is sent for a frame that is in order.
  function Proper(p: Option<Unfinished>, w: RawFrame): Response {
    if w.opcode == CLOSE then FAIL
    else if w.opcode == PING then Response([Pong(w.payload)], false)
    else if w.opcode == PONG || !w.fin then Response([], false)
    else Response([Message(if w.opcode == CONT && p.Some? then p.value.opcode else w.opcode, SoFar(p, w))], false)
  }

  // The message that is unfinished behind a frame that is in order.
  function Pending(p: Option<Unfinished>, w: RawFrame): Option<Unfinished> {
    if IsControl(w.opcode) then p
    else if w.fin then None
    else Some(Unfinished(if w.opcode == CONT && p.Some? then p.value.opcode else w.opcode, SoFar(p, w)))
  }

  // A strict receiver fails the connection on everything else.
  ghost function Respond(p: Option<Unfinished>, w: RawFrame): Response {
    if Acceptable(p, w) then Proper(p, w) else FAIL
  }

  ghost function Responses(p: Option<Unfinished>, ws: seq<RawFrame>): seq<Response>
    decreases |ws|
  {
    if ws == [] then []
    else
      var r := Respond(p, ws[0]);
      [r] + if r.last then [] else Responses(Pending(p, ws[0]), ws[1..])
  }

  // Everything a strict receiver sends. The first byte of an unfinished frame
  // may already give away an unknown opcode.
  ghost function Receives(p: Option<Unfinished>, ws: seq<RawFrame>, tail: seq<byte>): seq<Event>
    decreases |ws|
  {
    if ws == [] then
      if tail != [] && !KnownOpcode(tail[0] % 16) then [Drop] else []
    else
      var r := Respond(p, ws[0]);
      r.events + if r.last then [] else Receives(Pending(p, ws[0]), ws[1..], tail)
  }

  // ---- The server, frame by frame ----

  // Rules on single frames that the server does not enforce.
  predicate Deviates(w: RawFrame) {
    || !w.masked
    || |w.payload| >= TWO_TO_63 || w.form != FrameHead.FormFor(|w.payload|)
    || (IsControl(w.opcode) && |w.payload| > 125)
  }

  // Frames the server fails the connection on.
  ghost predicate Refused(p: Option<Unfinished>, w: RawFrame) {
    || !KnownOpcode(w.opcode)
    || (!Frames.NeverCompletes(w)
        && (BadPayload(p, w) || (w.masked && (BadSequence(p, w) || w.opcode == CLOSE))))
  }

  ghost function ServerResponds(p: Option<Unfinished>, w: RawFrame): Response {
    if Refused(p, w) then FAIL
    else if Frames.NeverCompletes(w) then Response([], true)
    else if !w.masked then Response([], false)
    else Proper(p, w)
  }

  function ServerPending(p: Option<Unfinished>, w: RawFrame): Option<Unfinished> {
    if w.masked then Pending(p, w) else p
  }

  ghost function ServerResponses(p: Option<Unfinished>, ws: seq<RawFrame>): seq<Response>
    decreases |ws|
  {
    if ws == [] then []
    else
      var r := ServerResponds(p, ws[0]);
      [r] + if r.last then [] else ServerResponses(ServerPending(p, ws[0]), ws[1..])
  }

  // The server's reference is this, frame by frame.
  lemma InterpretsByFrame(p: Option<Unfinished>, ws: seq<RawFrame>, tail: seq<byte>)
    requires ws != []
    ensures Interpret(p, ws, tail)
         == ServerResponds(p, ws[0]).events
            + if ServerResponds(p, ws[0]).last then [] else Interpret(ServerPending(p, ws[0]), ws[1..], tail)
  {
  }

  // The server reaches a deviating frame that it does not refuse anyway.
  ghost predicate ReachesDeviation(p: Option<Unfinished>, ws: seq<RawFrame>)
    decreases |ws|
  {
    && ws != [] && !Refused(p, ws[0])
    && (Deviates(ws[0]) || ReachesDeviation(ServerPending(p, ws[0]), ws[1..]))
  }

  // On a single frame server and strict receiver differ exactly when it deviates
  // and is not refused anyway.
  lemma DiffersExactly(p: Option<Unfinished>, w: RawFrame)
    requires w.WellFormed()
    ensures ServerResponds(p, w) == Respond(p, w) <==> Refused(p, w) || !Deviates(w)
    ensures !Deviates(w) ==> ServerPending(p, w) == Pending(p, w)
  {
  }

  // The server answers every frame it reaches as a strict receiver does if and
  // only if it reaches no deviating frame that it does not refuse.
  lemma {:induction false} ConformsExactly(p: Option<Unfinished>, ws: seq<RawFrame>)
    requires forall w :: w in ws ==> w.WellFormed()
    ensures ServerResponses(p, ws) == Responses(p, ws) <==> !ReachesDeviation(p, ws)
    decreases |ws|
  {
    if ws != [] {
      var w := ws[0];
      DiffersExactly(p, w);
      var r, t := ServerResponds(p, w), Respond(p, w);
      if r == t && !r.last {
        ConformsExactly(ServerPending(p, w), ws[1..]);
        assert ServerResponses(p, ws) == [r] + ServerResponses(ServerPending(p, w), ws[1..]);
        assert Responses(p, ws) == [r] + Responses(Pending(p, w), ws[1..]);
        assert ServerResponses(p, ws)[1..] == ServerResponses(ServerPending(p, w), ws[1..]);
        assert Responses(p, ws)[1..] == Responses(Pending(p, w), ws[1..]);
      } else {
        assert ServerResponses(p, ws)[0] == r && Responses(p, ws)[0] == t;
      }
    }
  }

  // What the server sends from the first deviating frame on that it does not refuse.
  ghost function FromDeviation(p: Option<Unfinished>, ws: seq<RawFrame>, tail: seq<byte>): seq<Event>
    requires ReachesDeviation(p, ws)
    decreases |ws|
  {
    if Deviates(ws[0]) then Interpret(p, ws, tail)
    else FromDeviation(ServerPending(p, ws[0]), ws[1..], tail)
  }

  // Told by all that is sent: it is the same if and only if no such frame is
  // reached, or the server happens to fail the connection behind it without
  // having sent anything more.
  lemma {:induction false} SendsTheSameExactly(p: Option<Unfinished>, ws: seq<RawFrame>, tail: seq<byte>)
    requires forall w :: w in ws ==> w.WellFormed()
    ensures Interpret(p, ws, tail) == Receives(p, ws, tail)
       <==> (ReachesDeviation(p, ws) ==> FromDeviation(p, ws, tail) == [Drop])
    decreases |ws|
  {
    if ws != [] {
      var w := ws[0];
      InterpretsByFrame(p, ws, tail);
      DiffersExactly(p, w);
      var r := ServerResponds(p, w);
      if r == Respond(p, w) && !r.last {
        var q := ServerPending(p, w);
        SendsTheSameExactly(q, ws[1..], tail);
        var a, b := Interpret(q, ws[1..], tail), Receives(q, ws[1..], tail);
        assert r.events + a == r.events + b ==> a == (r.events + a)[|r.events|..] == b;
      }
    }
  }

  // ---- The server on a stream ----

  // However the frames are cut into chunks, the client is sent what a strict
  // receiver sends, unless the server reaches a deviating frame that it tolerates.
  lemma ServerConforms(chunks: seq<seq<byte>>, ws: seq<RawFrame>, tail: seq<byte>)
    requires forall w :: w in ws ==> w.WellFormed() && w.masked
    requires !HasFrame(tail) && Concat(chunks) == EncodeFrames(ws) + tail
    ensures !ReachesDeviation(None, ws) ==> ReceiveAll(START, chunks).events == Receives(None, ws, tail)
    ensures ReceiveAll(START, chunks).events == Receives(None, ws, tail)
       <==> (ReachesDeviation(None, ws) ==> FromDeviation(None, ws, tail) == [Drop])
  {
    SentFramesAreFollowed(chunks, ws, tail);
    SendsTheSameExactly(None, ws, tail);
  }

  // A client whose frames conform one by one gets just what the protocol says,
  // whatever their sequence and the text in them.
  lemma ConformingClientIsServed(chunks: seq<seq<byte>>, ws: seq<RawFrame>, tail: seq<byte>)
    requires forall w :: w in ws ==> w.WellFormed() && Conforming(w)
    requires !HasFrame(tail) && Concat(chunks) == EncodeFrames(ws) + tail
    ensures ReceiveAll(START, chunks).events == Receives(None, ws, tail)
  {
    ConformingReachesNone(None, ws);
    ServerConforms(chunks, ws, tail);
  }

  lemma {:induction false} ConformingReachesNone(p: Option<Unfinished>, ws: seq<RawFrame>)
    requires forall w :: w in ws ==> Conforming(w)
    ensures !ReachesDeviation(p, ws)
    decreases |ws|
  {
    if ws != [] {
      assert Conforming(ws[0]);
      ConformingReachesNone(ServerPending(p, ws[0]), ws[1..]);
    }
  }

  // ---- One frame for each rule that is not enforced ----

  function Zeros(n: nat): seq<byte> {
    seq(n, _ => 0)
  }

  // Section 5.5: a pong of 200 bytes is passed over.
  lemma LongPongTolerated()
    ensures var w := RawFrame(true, 0, PONG, true, NO_KEY, Medium, Zeros(200));
            w.WellFormed() && Interpret(None, [w], []) == [] && Receives(None, [w], []) == [Drop]
  {
  }

  // Section 5.2: three bytes in the 64-bit form of the length are delivered.
  lemma LongFormTolerated()
    ensures var w := RawFrame(true, 0, BIN, true, NO_KEY, Long, Zeros(3));
            w.WellFormed() && Interpret(None, [w], []) == [Message(BIN, Zeros(3))] && Receives(None, [w], []) == [Drop]
  {
  }

  // Section 5.2: three bytes of text in the 16-bit form are waited for for ever.
  lemma ShortTextWaits()
    ensures var w := RawFrame(true, 0, TEXT, true, NO_KEY, Medium, Zeros(3));
            w.WellFormed() && Interpret(None, [w], []) == [] && Receives(None, [w], []) == [Drop]
  {
  }

  // Section 5.1: an unmasked frame is passed over.
  lemma UnmaskedTolerated()
    ensures var w := RawFrame(true, 0, BIN, false, NO_KEY, Short, Zeros(3));
            w.WellFormed() && Interpret(None, [w], []) == [] && Receives(None, [w], []) == [Drop]
  {
  }
}
