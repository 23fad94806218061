// Streams in literal bytes, and what the server does with them: the numbers of
// sections 5.2 to 5.7 of RFC 6455, written out.
module Vectors {
  import opened Bytes
  import opened Wrappers
  import opened Wire
  import opened Frames
  import opened Sessions
  import Utf8

  // ---- One frame at a time ----

  // A masked frame that is accepted, behind everything read so far.
  lemma Handled(p: Progress, w: RawFrame, bytes: seq<byte>, f: Parsed)
    requires !p.session.Dropped? && p.rest == [] && w.WellFormed() && w.masked && KnownOpcode(w.opcode)
    requires Encode(w) == bytes && Judge(w, |bytes|, Carry(p.session)) == Done(f, |bytes|)
    ensures var r := Handle(p.session, f); Receive(p, bytes) == Progress(r.next, [], p.events + r.events)
  {
    hide Encode, Judge, Handle, Parse;
    var s := p.session;
    ParseEncoded(w, [], Carry(s));
    assert Encode(w) + [] == bytes && p.rest + bytes == bytes && bytes[|bytes|..] == [];
    OneRound(s, bytes);
    Masked(w, |bytes|, Carry(s));
    Nothing(Handle(s, f).next);
    var r := Handle(s, f);
    assert r.events + [] == r.events;
    assert Consume(s, bytes, true) == Before(r.events, Consume(r.next, [], true));
  }

  lemma Masked(w: RawFrame, n: nat, carry: Utf8.State)
    ensures Judge(w, n, carry).Done? ==> Judge(w, n, carry).frame.masked == w.masked
  {
  }

  lemma Nothing(s: Session)
    ensures Consume(s, [], true) == Progress(s, [], [])
  {
  }

  // A frame that is refused, or whose opcode is unknown.
  lemma Refused(p: Progress, w: RawFrame, bytes: seq<byte>)
    requires !p.session.Dropped? && p.rest == [] && w.WellFormed() && Encode(w) == bytes
    requires !KnownOpcode(w.opcode) || Judge(w, |bytes|, Carry(p.session)).Critical?
    ensures Receive(p, bytes).session == Dropped && Receive(p, bytes).events == p.events + [Drop]
  {
    hide Encode, Judge, Handle, Parse;
    ParseEncoded(w, [], Carry(p.session));
    assert Encode(w) + [] == bytes && p.rest + bytes == bytes;
    OneRound(p.session, bytes);
  }

  lemma OneChunk(bytes: seq<byte>)
    ensures ReceiveAll(START, [bytes]) == Receive(START, bytes)
  {
    hide Receive;
    assert [bytes][1..] == [] && [bytes][0] == bytes;
  }

  lemma TwoChunks(a: seq<byte>, b: seq<byte>)
    ensures ReceiveAll(START, [a, b]) == Receive(Receive(START, a), b)
  {
    hide Receive;
    var p := Receive(START, a);
    assert [a, b][1..] == [b];
    assert ReceiveAll(p, [b]) == ReceiveAll(Receive(p, b), [b][1..]);
  }

  // ---- Headers in bytes ----

  lemma ShortFrame(w: RawFrame)
    requires w.WellFormed() && w.masked && w.form == Short
    ensures Encode(w) == [(if w.fin then 128 else 0) + 16 * w.rsv + w.opcode, 128 + |w.payload|] + w.key
                         + Mask(w.payload, w.key)
  {
    assert ExtendedLength(w) == [];
  }

  // ---- The example of section 5.7: a masked text ----

  lemma Octet(payload: seq<byte>, key: Key, i: nat, a: byte, b: byte)
    requires i < |payload| && payload[i] == a && key[i % 4] == b
    ensures Mask(payload, key)[i] == ((a as bv8) ^ (b as bv8)) as int
  {
    hide Mask;
    MaskIsBitwise(payload, key, i);
  }

  lemma HelloMasked(payload: seq<byte>, key: Key)
    requires payload == [0x48, 0x65, 0x6c, 0x6c, 0x6f] && key == [0x37, 0xfa, 0x21, 0x3d]
    ensures Mask(payload, key) == [0x7f, 0x9f, 0x4d, 0x51, 0x58]
  {
    hide Mask;
    Octet(payload, key, 0, 0x48, 0x37);
    Octet(payload, key, 1, 0x65, 0xfa);
    Octet(payload, key, 2, 0x6c, 0x21);
    Octet(payload, key, 3, 0x6c, 0x3d);
    Octet(payload, key, 4, 0x6f, 0x37);
  }

  // Seven-bit text is text.
  lemma {:induction false} SevenBit(s: seq<byte>)
    requires forall i | 0 <= i < |s| :: s[i] < 128
    ensures Utf8.Run(Utf8.Char, s) == Some(Utf8.Char)
  {
    if s != [] {
      SevenBit(s[..|s| - 1]);
    }
  }

  // A masked, final text frame of fewer than 126 seven-bit characters.
  lemma ShortText(payload: seq<byte>, key: Key)
    requires |payload| < 126 && forall i | 0 <= i < |payload| :: payload[i] < 128
    ensures ReceiveAll(START, [[0x81, 0x80 + |payload|] + key + Mask(payload, key)]).events == [Message(1, payload)]
  {
    hide Receive, ReceiveAll, Mask, Utf8.Run;
    var w := RawFrame(true, 0, 1, true, key, Short, payload);
    var bytes := [0x81, 0x80 + |payload|] + key + Mask(payload, key);
    ShortFrame(w);
    SevenBit(payload);
    Handled(START, w, bytes, Parsed(true, 0, 1, true, payload, Utf8.Char));
    OneChunk(bytes);
  }

  // "Hello", as section 5.7 has it.
  lemma Hello()
    ensures ReceiveAll(START, [[0x81, 0x85, 0x37, 0xfa, 0x21, 0x3d, 0x7f, 0x9f, 0x4d, 0x51, 0x58]]).events
         == [Message(1, [0x48, 0x65, 0x6c, 0x6c, 0x6f])]
  {
    hide ReceiveAll, Mask;
    HelloMasked([0x48, 0x65, 0x6c, 0x6c, 0x6f], [0x37, 0xfa, 0x21, 0x3d]);
    ShortText([0x48, 0x65, 0x6c, 0x6c, 0x6f], [0x37, 0xfa, 0x21, 0x3d]);
    assert [0x81, 0x80 + 5] + [0x37, 0xfa, 0x21, 0x3d] + [0x7f, 0x9f, 0x4d, 0x51, 0x58]
        == [0x81, 0x85, 0x37, 0xfa, 0x21, 0x3d, 0x7f, 0x9f, 0x4d, 0x51, 0x58];
  }

  // ---- Frames without a payload, for every key ----

  lemma Empty(fin: bool, rsv: nat, opcode: nat, key: Key)
    requires rsv < 8 && opcode < 16
    ensures var w := RawFrame(fin, rsv, opcode, true, key, Short, []);
            w.WellFormed() && Encode(w) == [(if fin then 0x80 else 0) + 16 * rsv + opcode, 0x80] + key
  {
    ShortFrame(RawFrame(fin, rsv, opcode, true, key, Short, []));
    assert Mask([], key) == [];
  }

  lemma EmptyFrame(fin: bool, rsv: nat, opcode: nat, key: Key, f: Parsed)
    requires rsv < 8 && (opcode == 0 || opcode == 1 || opcode == 2 || opcode == 8 || opcode == 9 || opcode == 10)
    requires f == Parsed(fin, rsv, opcode, true, [], if opcode == 1 then Utf8.Char else Utf8.Anything)
    ensures ReceiveAll(START, [[(if fin then 0x80 else 0) + 16 * rsv + opcode, 0x80] + key]).events
         == Handle(Between, f).events
  {
    hide ReceiveAll, Receive, Encode, Handle;
    var bytes := [(if fin then 0x80 else 0) + 16 * rsv + opcode, 0x80] + key;
    var w := RawFrame(fin, rsv, opcode, true, key, Short, []);
    Empty(fin, rsv, opcode, key);
    Handled(START, w, bytes, f);
    OneChunk(bytes);
    assert START.events + Handle(Between, f).events == Handle(Between, f).events;
  }

  // A ping is answered, a pong is not, a close ends the connection; data is delivered.
  lemma WholeFrames(key: Key)
    ensures ReceiveAll(START, [[0x89, 0x80] + key]).events == [Pong([])]
    ensures ReceiveAll(START, [[0x8a, 0x80] + key]).events == []
    ensures ReceiveAll(START, [[0x88, 0x80] + key]).events == [Drop]
    ensures ReceiveAll(START, [[0x81, 0x80] + key]).events == [Message(1, [])]
    ensures ReceiveAll(START, [[0x82, 0x80] + key]).events == [Message(2, [])]
  {
    hide ReceiveAll;
    EmptyFrame(true, 0, 9, key, Parsed(true, 0, 9, true, [], Utf8.Anything));
    EmptyFrame(true, 0, 10, key, Parsed(true, 0, 10, true, [], Utf8.Anything));
    EmptyFrame(true, 0, 8, key, Parsed(true, 0, 8, true, [], Utf8.Anything));
    EmptyFrame(true, 0, 1, key, Parsed(true, 0, 1, true, [], Utf8.Char));
    EmptyFrame(true, 0, 2, key, Parsed(true, 0, 2, true, [], Utf8.Anything));
  }

  // Continuing nothing, reserved bits and a control frame in pieces end the connection.
  lemma BrokenFrames(key: Key)
    ensures ReceiveAll(START, [[0x80, 0x80] + key]).events == [Drop]
    ensures ReceiveAll(START, [[0x92, 0x80] + key]).events == [Drop]
    ensures ReceiveAll(START, [[0xa2, 0x80] + key]).events == [Drop]
    ensures ReceiveAll(START, [[0xc2, 0x80] + key]).events == [Drop]
    ensures ReceiveAll(START, [[0x09, 0x80] + key]).events == [Drop]
    ensures ReceiveAll(START, [[0x0a, 0x80] + key]).events == [Drop]
  {
    hide ReceiveAll;
    EmptyFrame(true, 0, 0, key, Parsed(true, 0, 0, true, [], Utf8.Anything));
    EmptyFrame(true, 1, 2, key, Parsed(true, 1, 2, true, [], Utf8.Anything));
    EmptyFrame(true, 2, 2, key, Parsed(true, 2, 2, true, [], Utf8.Anything));
    EmptyFrame(true, 4, 2, key, Parsed(true, 4, 2, true, [], Utf8.Anything));
    EmptyFrame(false, 0, 9, key, Parsed(false, 0, 9, true, [], Utf8.Anything));
    EmptyFrame(false, 0, 10, key, Parsed(false, 0, 10, true, [], Utf8.Anything));
  }

  // So does every other opcode.
  lemma UnknownOpcodes(opcode: nat, key: Key)
    requires opcode < 16 && opcode !in {0, 1, 2, 8, 9, 10}
    ensures ReceiveAll(START, [[0x80 + opcode, 0x80] + key]).events == [Drop]
  {
    hide ReceiveAll, Receive, Encode;
    Empty(true, 0, opcode, key);
    Refused(START, RawFrame(true, 0, opcode, true, key, Short, []), [0x80 + opcode, 0x80] + key);
    OneChunk([0x80 + opcode, 0x80] + key);
  }

  // ---- A message in two pieces ----

  // The beginning of a text frame that is not the last, and the frame that ends it.
  lemma TwoPieces(first: seq<byte>, second: seq<byte>, key: Key, key': Key)
    requires |first| < 126 && |second| < 126
    requires forall i | 0 <= i < |first| :: first[i] < 128
    requires forall i | 0 <= i < |second| :: second[i] < 128
    ensures ReceiveAll(START, [[0x01, 0x80 + |first|] + key + Mask(first, key),
                               [0x80, 0x80 + |second|] + key' + Mask(second, key')]).events
         == [Message(1, first + second)]
  {
    hide Receive, Mask, Utf8.Run, Encode;
    var a := [0x01, 0x80 + |first|] + key + Mask(first, key);
    var b := [0x80, 0x80 + |second|] + key' + Mask(second, key');
    var w, w' := RawFrame(false, 0, 1, true, key, Short, first), RawFrame(true, 0, 0, true, key', Short, second);
    ShortFrame(w);
    ShortFrame(w');
    SevenBit(first);
    SevenBit(second);
    Handled(START, w, a, Parsed(false, 0, 1, true, first, Utf8.Char));
    var p := Receive(START, a);
    assert p == Progress(Inside(1, Utf8.Char, first), [], []);
    Handled(p, w', b, Parsed(true, 0, 0, true, second, Utf8.Char));
    TwoChunks(a, b);
  }

  // Another data frame in between ends the connection, for every key.
  lemma Injected(key: Key)
    ensures ReceiveAll(START, [[0x01, 0x80] + key, [0x82, 0x80] + key]).events == [Drop]
  {
    hide Receive, Encode;
    var a, b := [0x01, 0x80] + key, [0x82, 0x80] + key;
    Empty(false, 0, 1, key);
    Empty(true, 0, 2, key);
    Handled(START, RawFrame(false, 0, 1, true, key, Short, []), a, Parsed(false, 0, 1, true, [], Utf8.Char));
    var p := Receive(START, a);
    Handled(p, RawFrame(true, 0, 2, true, key, Short, []), b, Parsed(true, 0, 2, true, [], Utf8.Anything));
    TwoChunks(a, b);
  }

  // ---- Pings up to 125 bytes ----

  lemma ShortPing(payload: seq<byte>, key: Key)
    requires |payload| < 126
    ensures ReceiveAll(START, [[0x89, 0x80 + |payload|] + key + Mask(payload, key)]).events == [Pong(payload)]
  {
    hide Receive, ReceiveAll, Mask;
    var w := RawFrame(true, 0, 9, true, key, Short, payload);
    var bytes := [0x89, 0x80 + |payload|] + key + Mask(payload, key);
    ShortFrame(w);
    Handled(START, w, bytes, Parsed(true, 0, 9, true, payload, Utf8.Anything));
    OneChunk(bytes);
  }

  lemma MediumFrame(w: RawFrame)
    requires w.WellFormed() && w.form == Medium
    ensures Encode(w) == [(if w.fin then 128 else 0) + 16 * w.rsv + w.opcode, if w.masked then 254 else 126]
                         + [|w.payload| / 256, |w.payload| % 256] + (if w.masked then w.key else [])
                         + Mask(w.payload, w.key)
  {
    var n := |w.payload|;
    assert ToBigEndian(n, 2) == [n / 256, n % 256] by {
      assert ToBigEndian(n / 256, 1) == [] + [n / 256 % 256];
    }
  }

  lemma LongPing(payload: seq<byte>, key: Key)
    requires 126 <= |payload| < 0x1_0000
    ensures var n := |payload|;
            ReceiveAll(START, [[0x89, 0xfe, n / 256, n % 256] + key + Mask(payload, key)]).events == [Drop]
  {
    hide Receive, ReceiveAll, Mask, Encode;
    var n := |payload|;
    var w := RawFrame(true, 0, 9, true, key, Medium, payload);
    var bytes := [0x89, 0xfe, n / 256, n % 256] + key + Mask(payload, key);
    MediumFrame(w);
    assert [0x89, 0xfe] + [n / 256, n % 256] == [0x89, 0xfe, n / 256, n % 256];
    Refused(START, w, bytes);
    OneChunk(bytes);
  }

  // A binary message in the 16-bit form.
  lemma MediumBinary(payload: seq<byte>, key: Key)
    requires |payload| < 0x1_0000
    ensures var n := |payload|;
            ReceiveAll(START, [[0x82, 0xfe, n / 256, n % 256] + key + Mask(payload, key)]).events
              == [Message(2, payload)]
  {
    hide Receive, ReceiveAll, Mask, Encode, Utf8.Run;
    var n := |payload|;
    var w := RawFrame(true, 0, 2, true, key, Medium, payload);
    var bytes := [0x82, 0xfe, n / 256, n % 256] + key + Mask(payload, key);
    MediumFrame(w);
    assert [0x82, 0xfe] + [n / 256, n % 256] == [0x82, 0xfe, n / 256, n % 256];
    Utf8.RunAnything(payload);
    Handled(START, w, bytes, Parsed(true, 0, 2, true, payload, Utf8.Anything));
    OneChunk(bytes);
  }
}
