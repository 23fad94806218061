// Parsing one frame out of the input buffer, unmasking its payload in place.
module Frames {
  import opened Bytes
  import opened Wrappers
  import opened Buffers
  import opened Wire
  import Utf8

  datatype Code = ParseDone | ParseIncomplete | ErrorInvalidOpcode | ErrorCritical

  // What a parsed frame hands on: only data and ping frames carry their payload.
  datatype Parsed = Parsed(
    fin: bool, rsv: nat, opcode: nat, masked: bool, data: seq<byte>, utf8: Utf8.State)

  datatype Outcome = Incomplete | InvalidOpcode | Critical | Done(frame: Parsed, consumed: nat)

  function CodeOf(o: Outcome): Code {
    match o
    case Incomplete => ParseIncomplete
    case InvalidOpcode => ErrorInvalidOpcode
    case Critical => ErrorCritical
    case Done(_, _) => ParseDone
  }

  // The automaton state a data frame starts from; continuations resume `carry`.
  function Expectation(opcode: nat, carry: Utf8.State): Utf8.State {
    if opcode == TEXT then Utf8.Char else if opcode == BIN then Utf8.Anything else carry
  }

  // A text frame that spells a length below 4 in an extended form is never completed.
  predicate NeverCompletes(w: RawFrame) {
    w.opcode == TEXT && !w.form.Short? && |w.payload| < 4
  }

  // The parser's verdict on a whole frame that takes n bytes.
  function Judge(w: RawFrame, n: nat, carry: Utf8.State): Outcome {
    if NeverCompletes(w) then Incomplete
    else if IsData(w.opcode) then
      match Utf8.Run(Expectation(w.opcode, carry), w.payload)
      case None => Critical
      case Some(s) =>
        if w.fin && !Utf8.MayEnd(s) then Critical
        else Done(Parsed(w.fin, w.rsv, w.opcode, w.masked, w.payload, s), n)
    else if w.opcode == PING then
      if |w.payload| > 125 then Critical
      else Done(Parsed(w.fin, w.rsv, w.opcode, w.masked, w.payload, carry), n)
    else Done(Parsed(w.fin, w.rsv, w.opcode, w.masked, [], carry), n)
  }

  // The result of parsing when u is what is left to read.
  function Parse(u: seq<byte>, carry: Utf8.State): Outcome {
    if u == [] then Incomplete
    else if !KnownOpcode(u[0] % 16) then InvalidOpcode
    else if !HasFrame(u) then Incomplete
    else Judge(FrameAt(u), FrameLength(u), carry)
  }

  // ---- What the parser recognises ----

  // u begins with the encoding of w, and w, n bytes long, is accepted as f.
  ghost predicate BeginsWith(u: seq<byte>, w: RawFrame, carry: Utf8.State, f: Parsed, n: nat) {
    && w.WellFormed() && KnownOpcode(w.opcode)
    && Encode(w) <= u && n == |Encode(w)| && Judge(w, n, carry) == Done(f, n)
  }

  // A frame is parsed exactly when the bytes begin with the encoding of a
  // well-formed frame of known opcode that the verdict accepts.
  lemma DoneExactly(u: seq<byte>, carry: Utf8.State, f: Parsed, n: nat)
    ensures Parse(u, carry) == Done(f, n) <==> exists w: RawFrame :: BeginsWith(u, w, carry, f, n)
  {
    hide Utf8.Run, Encode;
    if Parse(u, carry) == Done(f, n) {
      FoundIsEncoded(u);
      assert BeginsWith(u, FrameAt(u), carry, f, n);
    }
    if w: RawFrame :| BeginsWith(u, w, carry, f, n) {
      assert u == Encode(w) + u[n..];
      ParseEncoded(w, u[n..], carry);
    }
  }

  lemma ParseEncoded(w: RawFrame, rest: seq<byte>, carry: Utf8.State)
    requires w.WellFormed()
    ensures Parse(Encode(w) + rest, carry) ==
            if KnownOpcode(w.opcode) then Judge(w, |Encode(w)|, carry) else InvalidOpcode
  {
    EncodedIsFound(w, rest);
    FirstByteFields(w);
    assert (Encode(w) + rest)[0] == FirstByte(w);
  }

  // Any result but INCOMPLETE is final: more bytes do not change it.
  lemma ParseIsStable(u: seq<byte>, more: seq<byte>, carry: Utf8.State)
    ensures !Parse(u, carry).Incomplete? ==> Parse(u + more, carry) == Parse(u, carry)
    ensures HasFrame(u) ==> Parse(u + more, carry) == Parse(u, carry)
  {
    if HasFrame(u) {
      FrameIsStable(u, more);
    }
  }

  lemma StillIncomplete(u: seq<byte>, carry: Utf8.State)
    requires u == [] || KnownOpcode(u[0] % 16)
    requires !HasFrame(u) || NeverCompletes(FrameAt(u))
    ensures Parse(u, carry) == Incomplete
  {
    hide Mask;
  }

  // The test whether a payload has arrived adds position and length in 64 bits. It
  // says what the model says exactly if that sum does not wrap around; so it does for
  // every length with a clear top bit, in a buffer of less than 2^63 bytes.
  lemma LengthTestExactly(used: nat, pos: nat, length: nat)
    requires pos <= used < TWO_TO_64 && length < TWO_TO_64
    ensures (used <= (pos + length) % TWO_TO_64 <==> used <= pos + length) <==> pos + length < TWO_TO_64
    ensures 2 * used < TWO_TO_64 && 2 * length < TWO_TO_64 ==> pos + length < TWO_TO_64
  {
    if pos + length >= TWO_TO_64 {
      assert (pos + length) % TWO_TO_64 == pos + length - TWO_TO_64;
    }
  }

  // ---- The frame object ----

  datatype HeaderResult = Stop(code: Code) | PayloadAt(pos: nat)

  class Frame {
    var rsv: nat
    var payloadLen: nat
    var opcode: nat
    var mask: Key
    var data: Option<seq<byte>>
    var dataLength: nat
    var utf8State: Utf8.State
    var isMasked: bool
    var isFin: bool

    constructor ()
      ensures mask == NO_KEY && utf8State == Utf8.Anything && data == None && dataLength == 0
    {
      rsv, payloadLen, opcode, mask := 0, 0, 0, NO_KEY;
      data, dataLength, utf8State := None, 0, Utf8.Anything;
      isMasked, isFin := false, false;
    }

    function Data(): seq<byte>
      reads this
    {
      match data case None => [] case Some(d) => d
    }

    // The fields as one value.
    function Value(): Parsed
      reads this
    {
      Parsed(isFin, rsv, opcode, isMasked, Data(), utf8State)
    }

    ghost predicate HeaderRead(u: seq<byte>)
      requires |u| >= 2 && |u| >= HeaderLength(u[1])
      reads this
    {
      && isFin == (u[0] / 128 == 1) && rsv == u[0] / 16 % 8 && opcode == u[0] % 16
      && isMasked == (u[1] / 128 == 1)
      && payloadLen == PayloadLength(u)
      && mask == KeyAt(u)
    }

    // Reads opcode, flags, length and key. The length checks look at all bytes
    // stored, not at those left to read, so this may run past the content.
    method ReadHeader(buffer: Buffer) returns (r: HeaderResult)
      requires buffer.Valid() && buffer.rpos <= |buffer.Content()|
      requires mask == NO_KEY
      modifies this`rsv, this`payloadLen, this`opcode, this`mask, this`isMasked, this`isFin
      ensures var u := buffer.Unread();
              && (r == Stop(ErrorInvalidOpcode) <==> u != [] && !KnownOpcode(u[0] % 16))
              && (r.Stop? ==> r.code == ErrorInvalidOpcode || r.code == ParseIncomplete)
              && (r == Stop(ParseIncomplete) ==> !HasFrame(u) || NeverCompletes(FrameAt(u)))
              && (r.PayloadAt? ==>
                    if |u| >= 2 && |u| >= HeaderLength(u[1]) then
                      && r.pos == buffer.rpos + HeaderLength(u[1])
                      && HeaderRead(u)
                      && !(opcode == TEXT && !FormOf(u[1]).Short? && payloadLen < 4)
                    else buffer.used <= r.pos)
    {
      if buffer.used < 2 {
        return Stop(ParseIncomplete);
      }
      var known, second := ReadFlags(buffer);
      if !known {
        return Stop(ErrorInvalidOpcode);
      }
      r := ReadLength(buffer, second);
      if r.PayloadAt? && isMasked {
        ghost var u, start := buffer.Unread(), 2 + ExtensionOf(second);
        if |u| >= start + 4 { buffer.UnreadSlice(start, start + 4); }
        r := ReadKey(buffer, r.pos);
      }
    }

    // Reads the first two bytes; on an unknown opcode the flags are left alone.
    method ReadFlags(buffer: Buffer) returns (known: bool, second: byte)
      requires buffer.Valid() && buffer.rpos <= |buffer.Content()| && buffer.used >= 2
      modifies this`rsv, this`opcode, this`isMasked, this`isFin
      ensures var u := buffer.Unread();
              && (known <==> u == [] || KnownOpcode(u[0] % 16))
              && (known && u != [] ==> opcode == u[0] % 16 && rsv == u[0] / 16 % 8 && isFin == (u[0] / 128 == 1))
              && (|u| >= 2 ==> second == u[1])
              && (known ==> isMasked == (second / 128 == 1))
    {
      ghost var u := buffer.Unread();
      var first := buffer.Peek(buffer.rpos);
      second := buffer.Peek(buffer.rpos + 1);
      assert first == if u == [] then 0 else u[0];
      known := KnownOpcode(first % 16);
      if !known {
        return;
      }
      opcode := first % 16;
      rsv := first / 16 % 8;
      isFin := first / 128 == 1;
      isMasked := second / 128 == 1;
    }

    // Reads the payload length that the second byte announces.
    method ReadLength(buffer: Buffer, second: byte) returns (r: HeaderResult)
      requires buffer.Valid() && buffer.rpos <= |buffer.Content()|
      modifies this`payloadLen
      ensures r == Stop(ParseIncomplete) || r == PayloadAt(buffer.rpos + 2 + ExtensionOf(second))
      ensures var u := buffer.Unread();
              |u| >= 2 + ExtensionOf(second) && u[1] == second ==>
                && payloadLen == PayloadLength(u)
                && (r.Stop? <==> opcode == TEXT && !FormOf(second).Short? && payloadLen < 4)
    {
      var form := FormOf(second);
      var enough := ReadExtension(buffer, second);
      if !enough || (form != Short && payloadLen < 4 && opcode == TEXT) {
        return Stop(ParseIncomplete);
      }
      return PayloadAt(buffer.rpos + 2 + ExtensionOf(second));
    }

    method ReadExtension(buffer: Buffer, second: byte) returns (enough: bool)
      requires buffer.Valid() && buffer.rpos <= |buffer.Content()|
      modifies this`payloadLen
      ensures var u := buffer.Unread();
              |u| >= 2 + ExtensionOf(second) && u[1] == second ==> enough && payloadLen == PayloadLength(u)
    {
      ghost var u := buffer.Unread();
      match FormOf(second) {
        case Short =>
          payloadLen := second % 128;
          enough := true;
        case Medium =>
          if buffer.used < 4 {
            return false;
          }
          payloadLen := ReadNetwork(buffer, buffer.rpos + 2, 2);
          if |u| >= 4 { buffer.UnreadSlice(2, 4); }
          enough := true;
        case Long =>
          if buffer.used < 10 {
            return false;
          }
          payloadLen := ReadLongLength(buffer, buffer.rpos + 2);
          if |u| >= 10 { buffer.UnreadSlice(2, 10); }
          enough := true;
      }
    }

    method ReadKey(buffer: Buffer, at: nat) returns (r: HeaderResult)
      requires buffer.Valid()
      modifies this`mask
      ensures r == if buffer.used < at + 4 then Stop(ParseIncomplete) else PayloadAt(at + 4)
      ensures r.PayloadAt? ==> mask == buffer.mem[at..at + 4]
      ensures r.Stop? ==> mask == old(mask)
    {
      if buffer.used < at + 4 {
        return Stop(ParseIncomplete);
      }
      var k0 := buffer.Peek(at);
      var k1 := buffer.Peek(at + 1);
      var k2 := buffer.Peek(at + 2);
      var k3 := buffer.Peek(at + 3);
      mask := [k0, k1, k2, k3];
      return PayloadAt(at + 4);
    }

    // A 64-bit length, assembled from its two halves.
    method ReadLongLength(buffer: Buffer, at: nat) returns (v: nat)
      requires buffer.Valid()
      ensures at + 8 <= buffer.used ==> v == BigEndian(buffer.mem[at..at + 8])
    {
      var high := ReadNetwork(buffer, at, 4);
      var low := ReadNetwork(buffer, at + 4, 4);
      v := high * TWO_TO_32 + low;
      if at + 8 <= buffer.used {
        JoinHalves(buffer.mem[at..at + 4], buffer.mem[at + 4..at + 8]);
        assert buffer.mem[at..at + 8] == buffer.mem[at..at + 4] + buffer.mem[at + 4..at + 8];
      }
    }

    // n bytes in network order, wherever they lie.
    method ReadNetwork(buffer: Buffer, at: nat, n: nat) returns (v: nat)
      requires buffer.Valid()
      ensures at + n <= buffer.used ==> v == BigEndian(buffer.mem[at..at + n])
    {
      v := 0;
      for i := 0 to n
        invariant at + i <= buffer.used ==> v == BigEndian(buffer.mem[at..at + i])
      {
        var b := buffer.Peek(at + i);
        v := 256 * v + b;
        if at + i + 1 <= buffer.used {
          assert buffer.mem[at..at + i + 1][..i] == buffer.mem[at..at + i];
        }
      }
    }

    // Unmasks a data payload and runs the automaton over it, in one pass. A
    // refused octet leaves the rest of the payload masked.
    method UnmaskUtf8Stream(mem: array<byte>, at: nat) returns (ok: bool)
      requires IsData(opcode) && at + payloadLen <= mem.Length
      modifies mem, this`utf8State
      ensures SameOutside(mem, at, at + payloadLen)
      ensures var plain := Mask(old(mem[at..at + payloadLen]), mask);
              var end := Utf8.Run(Expectation(opcode, old(utf8State)), plain);
              && (ok <==> end.Some? && (isFin ==> Utf8.MayEnd(end.value)))
              && (ok ==> utf8State == end.value && mem[at..at + payloadLen] == plain)
    {
      hide Utf8.Step, Utf8.Run, Xor;
      ghost var plain := Mask(mem[at..at + payloadLen], mask);
      var start := Expectation(opcode, utf8State);
      var expected := start;
      Utf8.RunEmpty(start, plain);
      for i := 0 to payloadLen
        invariant SameOutside(mem, at, at + i)
        invariant forall k {:trigger plain[k]} | 0 <= k < i :: mem[at + k] == plain[k]
        invariant Utf8.Run(start, plain[..i]) == Some(expected)
      {
        var ch := Xor(mem[at + i], mask[i % 4]);
        assert ch == plain[i];
        mem[at + i] := ch;
        Utf8.RunNext(start, plain, i);
        match Utf8.Step(expected, ch) {
          case None =>
            return false;
          case Some(next) =>
            expected := next;
        }
      }
      assert plain[..payloadLen] == plain;
      assert mem[at..at + payloadLen] == plain;
      if isFin && expected != Utf8.Char && expected != Utf8.Anything {
        return false;
      }
      utf8State := expected;
      return true;
    }

    // Unmasks a payload without looking at it.
    method Unmask(mem: array<byte>, at: nat)
      requires at + payloadLen <= mem.Length
      modifies mem
      ensures SameOutside(mem, at, at + payloadLen)
      ensures mem[at..at + payloadLen] == Mask(old(mem[at..at + payloadLen]), mask)
    {
      ghost var plain := Mask(mem[at..at + payloadLen], mask);
      for i := 0 to payloadLen
        invariant SameOutside(mem, at, at + i)
        invariant forall k {:trigger plain[k]} | 0 <= k < i :: mem[at + k] == plain[k]
      {
        var ch := Xor(mem[at + i], mask[i % 4]);
        assert ch == plain[i];
        mem[at + i] := ch;
      }
      assert plain[..payloadLen] == plain;
      assert mem[at..at + payloadLen] == plain;
    }

    // The header fields are those of w, whose payload lies masked at `at`.
    ghost predicate Describes(w: RawFrame, mem: array<byte>, at: nat)
      reads this, mem
    {
      && isFin == w.fin && rsv == w.rsv && opcode == w.opcode && isMasked == w.masked
      && payloadLen == |w.payload| && at + payloadLen <= mem.Length
      && Mask(mem[at..at + payloadLen], mask) == w.payload
    }

    // f has been read into this object, and its data put in place in front of `end`.
    twostate predicate Taken(f: Parsed, mem: array<byte>, end: nat)
      reads this, mem
    {
      && Value() == f && dataLength == |f.data|
      && (data.Some? <==> IsData(opcode) || opcode == PING)
      && InPlace(f.data, mem, end)
    }

    // Unmasks and copies out the payload, unless the frame carries none worth keeping.
    method TakePayload(mem: array<byte>, at: nat, ghost w: RawFrame, ghost n: nat) returns (ok: bool)
      requires Describes(w, mem, at) && !NeverCompletes(w)
      requires data == None && dataLength == 0
      modifies mem, this`data, this`dataLength, this`utf8State
      ensures SameOutside(mem, at, at + payloadLen)
      ensures ok <==> Judge(w, n, old(utf8State)).Done?
      ensures if ok then Judge(w, n, old(utf8State)).consumed == n else Judge(w, n, old(utf8State)) == Critical
      ensures ok ==> Taken(Judge(w, n, old(utf8State)).frame, mem, at + payloadLen)
    {
      hide Judge, NeverCompletes, Describes, Taken, SameOutside;
      if IsData(opcode) {
        ok := TakeData(mem, at, w, n);
      } else if opcode == PING {
        ok := TakePing(mem, at, w, n);
      } else {
        ok := TakeNone(mem, at, w, n);
      }
    }

    // Close and pong frames: the payload is skipped.
    method TakeNone(mem: array<byte>, at: nat, ghost w: RawFrame, ghost n: nat) returns (ok: bool)
      requires Describes(w, mem, at) && !NeverCompletes(w) && !IsData(opcode) && opcode != PING
      requires data == None && dataLength == 0
      ensures ok && SameOutside(mem, at, at + payloadLen)
      ensures Judge(w, n, utf8State).Done? && Judge(w, n, utf8State).consumed == n
      ensures Taken(Judge(w, n, utf8State).frame, mem, at + payloadLen)
    {
      hide Mask;
      return true;
    }

    method TakeData(mem: array<byte>, at: nat, ghost w: RawFrame, ghost n: nat) returns (ok: bool)
      requires Describes(w, mem, at) && !NeverCompletes(w) && IsData(opcode)
      requires data == None && dataLength == 0
      modifies mem, this`data, this`dataLength, this`utf8State
      ensures SameOutside(mem, at, at + payloadLen)
      ensures ok <==> Judge(w, n, old(utf8State)).Done?
      ensures if ok then Judge(w, n, old(utf8State)).consumed == n else Judge(w, n, old(utf8State)) == Critical
      ensures ok ==> Taken(Judge(w, n, old(utf8State)).frame, mem, at + payloadLen)
    {
      ok := UnmaskUtf8Stream(mem, at);
      if ok {
        data := Some(mem[at..at + payloadLen]);
        dataLength := payloadLen;
      }
    }

    method TakePing(mem: array<byte>, at: nat, ghost w: RawFrame, ghost n: nat) returns (ok: bool)
      requires Describes(w, mem, at) && !NeverCompletes(w) && opcode == PING
      requires data == None && dataLength == 0
      modifies mem, this`data, this`dataLength, this`utf8State
      ensures SameOutside(mem, at, at + payloadLen)
      ensures ok <==> Judge(w, n, old(utf8State)).Done?
      ensures if ok then Judge(w, n, old(utf8State)).consumed == n else Judge(w, n, old(utf8State)) == Critical
      ensures ok ==> Taken(Judge(w, n, old(utf8State)).frame, mem, at + payloadLen)
    {
      if payloadLen > 125 {
        return false;
      }
      Unmask(mem, at);
      data := Some(mem[at..at + payloadLen]);
      dataLength := payloadLen;
      return true;
    }

    // Reads the header and checks that the whole payload has arrived. From then
    // on the parser's result is its verdict on a whole frame w of n bytes.
    method LocatePayload(buffer: Buffer) returns (r: HeaderResult, ghost w: RawFrame, ghost n: nat)
      requires buffer.Valid() && buffer.rpos <= |buffer.Content()|
      requires mask == NO_KEY
      modifies this`rsv, this`payloadLen, this`opcode, this`mask, this`isMasked, this`isFin
      ensures r.Stop? ==> r.code != ParseDone && r.code == CodeOf(Parse(buffer.Unread(), utf8State))
      ensures r.PayloadAt? ==>
                && Parse(buffer.Unread(), utf8State) == Judge(w, n, utf8State)
                && !NeverCompletes(w) && Describes(w, buffer.mem, r.pos)
                && r.pos + payloadLen == buffer.rpos + n < buffer.used && buffer.rpos < r.pos
      ensures r.PayloadAt? ==> var u := buffer.Unread();
                HasFrame(u) && n == FrameLength(u) && r.pos == buffer.rpos + HeaderLength(u[1])
    {
      hide Utf8.Run, Mask, PayloadLength, KeyAt, HeaderLength, FormOf, ExtensionOf, Judge, Describes;
      ghost var u := buffer.Unread();
      w, n := RawFrame(false, 0, 0, false, NO_KEY, Short, []), 0;
      r := ReadHeader(buffer);
      if r.Stop? {
        if r.code == ParseIncomplete {
          StillIncomplete(u, utf8State);
        }
        return;
      }
      if buffer.used <= r.pos + payloadLen {
        StillIncomplete(u, utf8State);
        return Stop(ParseIncomplete), w, n;
      }
      w, n := FrameAt(u), FrameLength(u);
      WholeFrame(buffer, r.pos);
    }

    // With the whole payload in the buffer, the header describes the frame there.
    lemma WholeFrame(buffer: Buffer, pos: nat)
      requires buffer.Valid() && buffer.rpos <= |buffer.Content()|
      requires HasFrame(buffer.Unread()) && HeaderRead(buffer.Unread())
      requires pos == buffer.rpos + HeaderLength(buffer.Unread()[1])
      ensures var u := buffer.Unread();
              && Describes(FrameAt(u), buffer.mem, pos)
              && pos + payloadLen == buffer.rpos + FrameLength(u) && FrameLength(u) <= |u|
    {
      hide Mask, PayloadLength, KeyAt, HeaderLength, FormOf;
      var u := buffer.Unread();
      buffer.UnreadSlice(HeaderLength(u[1]), FrameLength(u));
    }

    // How an outcome shows in the frame and the buffer: nothing but the bytes of
    // a refused or accepted payload changes, and only success moves the read position.
    twostate predicate Reflects(o: Outcome, code: Code, buffer: Buffer)
      requires old(buffer.Valid()) && buffer.Valid()
      reads this, buffer, buffer.mem
    {
      && code == CodeOf(o) && buffer.mem == old(buffer.mem)
      && (o.Incomplete? || o.InvalidOpcode? ==> buffer.mem[..] == old(buffer.mem[..]))
      && (!o.Done? ==> buffer.rpos == old(buffer.rpos))
      && (o.Done? ==>
            && buffer.rpos == old(buffer.rpos) + o.consumed
            && Taken(o.frame, buffer.mem, buffer.rpos)
            && o.consumed <= |old(buffer.Unread())|
            && buffer.Unread() == old(buffer.Unread())[o.consumed..])
    }

    // Takes the located frame and, unless it is refused, moves the read position behind it.
    method TakeFrame(buffer: Buffer, at: nat, ghost w: RawFrame, ghost n: nat) returns (code: Code)
      requires buffer.Valid() && buffer.rpos <= at && at + payloadLen == buffer.rpos + n < buffer.used
      requires Describes(w, buffer.mem, at) && !NeverCompletes(w)
      requires data == None && dataLength == 0
      modifies this`data, this`dataLength, this`utf8State, buffer`rpos, buffer.mem
      ensures buffer.Valid()
      ensures Reflects(Judge(w, n, old(utf8State)), code, buffer)
      ensures SameOutside(buffer.mem, at, at + payloadLen)
    {
      hide Judge, Mask, NeverCompletes, Taken, Describes;
      ghost var before, end := buffer.mem[..], at + payloadLen;
      var ok := TakePayload(buffer.mem, at, w, n);
      KeptBehind(before, buffer.mem[..], end, buffer.rpos, buffer.used);
      if !ok {
        return ErrorCritical;
      }
      buffer.rpos := at + payloadLen;
      return ParseDone;
    }

    // Parses one frame from what is left to read. On success the payload is
    // unmasked in place and copied out, and the read position moves behind it.
    method ParseBuffer(buffer: Buffer) returns (code: Code)
      requires buffer.Valid() && buffer.rpos <= |buffer.Content()|
      requires mask == NO_KEY && data == None && dataLength == 0
      modifies this, buffer`rpos, buffer.mem
      ensures buffer.Valid()
      ensures Reflects(Parse(old(buffer.Unread()), old(utf8State)), code, buffer)
      ensures code == ErrorCritical ==> var u, start := old(buffer.Unread()), old(buffer.rpos);
                HasFrame(u) && SameOutside(buffer.mem, start + HeaderLength(u[1]), start + FrameLength(u))
    {
      var located, w, n := LocatePayload(buffer);
      if located.Stop? {
        return located.code;
      }
      code := TakeFrame(buffer, located.pos, w, n);
    }
  }

  // The bytes in front of `end` are now data; all others are as they were.
  twostate predicate InPlace(data: seq<byte>, mem: array<byte>, end: nat)
    reads mem
  {
    && |data| <= end <= mem.Length
    && mem[end - |data|..end] == data && SameOutside(mem, end - |data|, end)
  }

  twostate predicate SameOutside(mem: array<byte>, start: nat, end: nat)
    reads mem
  {
    forall i | 0 <= i < mem.Length && !(start <= i < end) :: mem[i] == old(mem[i])
  }

  // What lies behind a rewritten payload stays as it was, the sentinel included.
  lemma KeptBehind(before: seq<byte>, after: seq<byte>, end: nat, rpos: nat, used: nat)
    requires rpos <= end < used <= |before| == |after|
    requires forall i | end <= i < |before| :: after[i] == before[i]
    ensures after[end..used - 1] == before[rpos..used - 1][end - rpos..]
    ensures after[used - 1] == before[used - 1]
  {
  }

  lemma JoinHalves(high: seq<byte>, low: seq<byte>)
    requires |low| == 4
    ensures BigEndian(high + low) == BigEndian(high) * TWO_TO_32 + BigEndian(low)
  {
    BigEndianConcat(high, low);
    assert Pow256(2) == TWO_TO_16;
  }
}
