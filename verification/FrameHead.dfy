// Generating the head of an outgoing frame, and reading such a frame back.
module FrameHead {
  import opened Bytes
  import opened Wire
  import opened Frames
  import Utf8

  // ---- Byte order, as a little-endian machine stores and swaps integers ----

  // htons and ntohl: the n stored bytes of v, read in the other order.
  function Swap(v: nat, n: nat): nat {
    BigEndian(ToLittleEndian(v, n))
  }

  function Reverse(s: seq<byte>): (r: seq<byte>)
    ensures |r| == |s|
  {
    if s == [] then [] else Reverse(s[1..]) + [s[0]]
  }

  lemma {:induction false} ReverseLast(s: seq<byte>, b: byte)
    ensures Reverse(s + [b]) == [b] + Reverse(s)
  {
    if s != [] {
      ReverseLast(s[1..], b);
      assert (s + [b])[1..] == s[1..] + [b];
      assert [b] + (Reverse(s[1..]) + [s[0]]) == [b] + Reverse(s[1..]) + [s[0]];
    }
  }

  lemma {:induction false} LittleEndianReversed(v: nat, n: nat)
    ensures Reverse(ToLittleEndian(v, n)) == ToBigEndian(v, n)
  {
    if n > 0 {
      LittleEndianReversed(v / 256, n - 1);
      assert ToLittleEndian(v, n)[1..] == ToLittleEndian(v / 256, n - 1);
    }
  }

  lemma {:induction false} StoredSwapped(s: seq<byte>)
    ensures ToLittleEndian(BigEndian(s), |s|) == Reverse(s)
  {
    if s != [] {
      var init, last := s[..|s| - 1], s[|s| - 1];
      StoredSwapped(init);
      ReverseLast(init, last);
      assert s == init + [last];
      assert BigEndian(s) % 256 == last && BigEndian(s) / 256 == BigEndian(init);
    }
  }

  // Storing a swapped integer lays it out in network order.
  lemma SwappedIsNetworkOrder(v: nat, n: nat)
    ensures ToLittleEndian(Swap(v, n), n) == ToBigEndian(v, n)
  {
    StoredSwapped(ToLittleEndian(v, n));
    LittleEndianReversed(v, n);
  }

  lemma {:induction false} LittleEndianHalves(low: nat, high: nat, m: nat, n: nat)
    requires low < Pow256(m)
    ensures ToLittleEndian(high * Pow256(m) + low, m + n) == ToLittleEndian(low, m) + ToLittleEndian(high, n)
  {
    if m > 0 {
      Shifted(low, high, Pow256(m - 1));
      LittleEndianHalves(low / 256, high, m - 1, n);
    }
  }

  lemma Shifted(low: nat, high: nat, p: nat)
    ensures (high * (256 * p) + low) % 256 == low % 256
    ensures (high * (256 * p) + low) / 256 == high * p + low / 256
  {
    assert high * (256 * p) + low == 256 * (high * p + low / 256) + low % 256;
  }

  lemma BigEndianHalves(low: nat, high: nat)
    requires low < TWO_TO_32 && high < TWO_TO_32
    ensures ToBigEndian(high * TWO_TO_32 + low, 8) == ToBigEndian(high, 4) + ToBigEndian(low, 4)
  {
    var s := ToBigEndian(high, 4) + ToBigEndian(low, 4);
    assert Pow256(2) == TWO_TO_16;
    BigEndianRoundTrip(high, 4);
    BigEndianRoundTrip(low, 4);
    BigEndianConcat(ToBigEndian(high, 4), ToBigEndian(low, 4));
    ToBigEndianRoundTrip(s);
  }

  // The 64-bit length the code assembles from two swapped halves.
  function NetworkLength(v: nat): nat {
    Swap(v % TWO_TO_32, 4) * TWO_TO_32 % TWO_TO_64 + Swap(v / TWO_TO_32, 4)
  }

  lemma SwapFits(v: nat)
    ensures Swap(v, 4) < TWO_TO_32
  {
    assert Pow256(2) == TWO_TO_16;
    ToBigEndianRoundTrip(ToLittleEndian(v, 4));
  }

  lemma NetworkLengthIsNetworkOrder(v: nat)
    requires v < TWO_TO_64
    ensures ToLittleEndian(NetworkLength(v), 8) == ToBigEndian(v, 8)
  {
    var low, high := v % TWO_TO_32, v / TWO_TO_32;
    var a, b := Swap(low, 4), Swap(high, 4);
    SwapFits(low);
    SwapFits(high);
    assert NetworkLength(v) == a * TWO_TO_32 + b;
    assert Pow256(2) == TWO_TO_16;
    assert Pow256(4) == TWO_TO_32;
    LittleEndianHalves(b, a, 4, 4);
    SwappedIsNetworkOrder(low, 4);
    SwappedIsNetworkOrder(high, 4);
    BigEndianHalves(low, high);
    assert v == high * TWO_TO_32 + low;
  }

  // ---- The head ----

  function FormFor(length: nat): LengthForm {
    if length < 126 then Short else if length < TWO_TO_16 then Medium else Long
  }

  // The frame that a head announces: final, without reserved bits, in the
  // shortest length form.
  function Outgoing(opcode: byte, masked: bool, key: Key, payload: seq<byte>): (w: RawFrame)
    requires |payload| < TWO_TO_64
    ensures w.WellFormed()
  {
    RawFrame(true, 0, opcode % 16, masked, if masked then key else NO_KEY, FormFor(|payload|), payload)
  }

  lemma HeaderSize(w: RawFrame)
    requires w.WellFormed()
    ensures |Header(w)|
         == 2 + (match w.form case Short => 0 case Medium => 2 case Long => 8) + if w.masked then 4 else 0
  {
  }

  // No frame with this payload has a shorter head.
  lemma ShortestForm(opcode: byte, masked: bool, key: Key, payload: seq<byte>, w: RawFrame)
    requires |payload| < TWO_TO_64 && w.WellFormed() && w.payload == payload && w.masked == masked
    ensures |Header(Outgoing(opcode, masked, key, payload))| <= |Header(w)|
  {
    hide Header;
    HeaderSize(w);
    HeaderSize(Outgoing(opcode, masked, key, payload));
  }

  // The head of an unmasked frame in numbers: 1 to 125 in a byte, up to 65535 in two
  // bytes behind 126, all other lengths in eight bytes behind 127.
  lemma HeadInNumbers(opcode: byte, payload: seq<byte>)
    requires |payload| < TWO_TO_64 && opcode < 16
    ensures var h, n := Header(Outgoing(opcode, false, NO_KEY, payload)), |payload|;
            if n <= 125 then h == [0x80 + opcode, n]
            else if n <= 65535 then h == [0x80 + opcode, 126, n / 256, n % 256]
            else h == [0x80 + opcode, 127] + ToBigEndian(n, 8)
  {
    var n := |payload|;
    assert n / 256 < 256 ==> ToBigEndian(n, 2) == [n / 256, n % 256] by {
      assert ToBigEndian(n / 256, 1) == [] + [n / 256 % 256];
    }
  }

  // A store of n native bytes through the write position.
  method StoreNative(a: array<byte>, at: nat, v: nat, n: nat)
    requires at + n <= a.Length
    modifies a
    ensures a[..at] == old(a[..at]) && a[at..at + n] == ToLittleEndian(v, n)
    ensures a[at + n..] == old(a[at + n..])
  {
    var rest := v;
    for i := 0 to n
      invariant a[..at] == old(a[..at]) && a[at + n..] == old(a[at + n..])
      invariant a[at..at + i] + ToLittleEndian(rest, n - i) == ToLittleEndian(v, n)
    {
      ghost var done := a[at..at + i];
      a[at + i] := rest % 256;
      assert a[at..at + i + 1] == done + [rest % 256];
      rest := rest / 256;
    }
  }

  // Writes the head of a frame that carries `payload`, of which only the length matters.
  method GenerateFrameHead(ghost payload: seq<byte>, dataLength: nat, masked: bool, key: Key, opcode: byte)
    returns (head: array<byte>)
    requires dataLength == |payload| < TWO_TO_64
    ensures fresh(head) && head[..] == Header(Outgoing(opcode, masked, key, payload))
  {
    var headLength := 2;
    if dataLength < 126 {
    } else if dataLength < 65536 {
      headLength := headLength + 2;
    } else {
      headLength := headLength + 8;
    }
    if masked {
      headLength := headLength + 4;
    }
    head := new byte[headLength];
    var mark := if masked then 128 else 0;
    head[0] := opcode % 16 + 128;
    var at := 1;
    if dataLength < 126 {
      head[1] := dataLength + mark;
      at := 2;
    } else if dataLength < 65536 {
      head[1] := 126 + mark;
      StoreNative(head, 2, Swap(dataLength, 2), 2);
      SwappedIsNetworkOrder(dataLength, 2);
      at := 4;
    } else {
      head[1] := 127 + mark;
      StoreNative(head, 2, NetworkLength(dataLength), 8);
      NetworkLengthIsNetworkOrder(dataLength);
      at := 10;
    }
    ghost var w := Outgoing(opcode, masked, key, payload);
    assert head[..at] == [FirstByte(w), SecondByte(w)] + ExtendedLength(w);
    if masked {
      forall i | 0 <= i < 4 {
        head[at + i] := key[i];
      }
      assert head[..] == head[..at] + key;
    } else {
      assert head[..] == head[..at] + [];
    }
  }

  // ---- Reading it back ----

  // Payloads the receiving side takes for this opcode, as a first frame.
  ghost predicate Legal(opcode: nat, payload: seq<byte>) {
    && (opcode == TEXT ==> Utf8.Valid(payload))
    && (opcode == PING ==> |payload| <= 125)
  }

  // Of the supported opcodes, the head followed by the masked payload parses
  // exactly when the payload is legal; then to a final frame of the same
  // opcode, and with the same data where that is kept, ending behind the frame.
  lemma FrameRoundTrip(opcode: byte, masked: bool, key: Key, payload: seq<byte>, rest: seq<byte>)
    requires KnownOpcode(opcode) && |payload| < TWO_TO_64
    ensures var w := Outgoing(opcode, masked, key, payload);
            var sent := Header(w) + Mask(payload, if masked then key else NO_KEY);
            var o := Parse(sent + rest, Utf8.Anything);
            if Legal(opcode, payload) then
              && o.Done? && o.consumed == |sent|
              && o.frame.fin && o.frame.rsv == 0 && o.frame.opcode == opcode && o.frame.masked == masked
              && o.frame.data == (if IsData(opcode) || opcode == PING then payload else [])
            else o == Critical
  {
    hide Parse, Judge;
    var w := Outgoing(opcode, masked, key, payload);
    assert Header(w) + Mask(payload, if masked then key else NO_KEY) == Encode(w);
    ParseEncoded(w, rest, Utf8.Anything);
    OutgoingIsJudged(opcode, masked, key, payload, |Encode(w)|);
  }

  lemma OutgoingIsJudged(opcode: byte, masked: bool, key: Key, payload: seq<byte>, n: nat)
    requires KnownOpcode(opcode) && |payload| < TWO_TO_64
    ensures var o := Judge(Outgoing(opcode, masked, key, payload), n, Utf8.Anything);
            if Legal(opcode, payload) then
              && o.Done? && o.consumed == n
              && o.frame.fin && o.frame.rsv == 0 && o.frame.opcode == opcode && o.frame.masked == masked
              && o.frame.data == (if IsData(opcode) || opcode == PING then payload else [])
            else o == Critical
  {
    Utf8.Exact(payload);
    Utf8.RunNeverAnything(Utf8.Char, payload);
    Utf8.RunAnything(payload);
  }
}
