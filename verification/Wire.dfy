// The frame layout of section 5.2 of RFC 6455, written down as an encoder, and
// what it means for a byte sequence to begin with a whole frame.
module Wire {
  import opened Bytes
  import Bits

  const CONT := 0
  const TEXT := 1
  const BIN := 2
  const CLOSE := 8
  const PING := 9
  const PONG := 10

  predicate KnownOpcode(opcode: int) {
    IsData(opcode) || opcode == CLOSE || opcode == PING || opcode == PONG
  }

  predicate IsControl(opcode: int) {
    8 <= opcode
  }

  // Text, binary and continuation frames carry message data.
  predicate IsData(opcode: int) {
    opcode == CONT || opcode == TEXT || opcode == BIN
  }

  // The three ways to write a payload length.
  datatype LengthForm = Short | Medium | Long

  type Key = k: seq<byte> | |k| == 4 witness [0, 0, 0, 0]

  const NO_KEY: Key := [0, 0, 0, 0]

  datatype RawFrame = RawFrame(
    fin: bool, rsv: nat, opcode: nat, masked: bool, key: Key, form: LengthForm, payload: seq<byte>)
  {
    predicate WellFormed() {
      && rsv < 8
      && opcode < 16
      && (!masked ==> key == NO_KEY)
      && |payload| < (match form case Short => 126 case Medium => TWO_TO_16 case Long => TWO_TO_64)
    }
  }

  function Mask(payload: seq<byte>, key: Key): (r: seq<byte>)
    ensures |r| == |payload|
  {
    seq(|payload|, i requires 0 <= i < |payload| => Xor(payload[i], key[i % 4]))
  }

  lemma MaskCancels(payload: seq<byte>, key: Key)
    ensures Mask(Mask(payload, key), key) == payload
    ensures Mask(payload, NO_KEY) == payload
  {
    forall i | 0 <= i < |payload|
      ensures Mask(Mask(payload, key), key)[i] == payload[i]
      ensures Mask(payload, NO_KEY)[i] == payload[i]
    {
      XorCancels(payload[i], key[i % 4]);
      XorCancels(payload[i], 0);
    }
  }

  // Every octet is combined, bit by bit, with the octet of the key whose turn it is.
  lemma MaskIsBitwise(payload: seq<byte>, key: Key, i: nat)
    requires i < |payload|
    ensures Mask(payload, key)[i] == ((payload[i] as bv8) ^ (key[i % 4] as bv8)) as int
  {
    hide Xor;
    Bits.XorIsBitwise(payload[i], key[i % 4]);
  }

  // ---- Encoding ----

  function FirstByte(w: RawFrame): byte
    requires w.WellFormed()
  {
    (if w.fin then 128 else 0) + 16 * w.rsv + w.opcode
  }

  function SecondByte(w: RawFrame): byte
    requires w.WellFormed()
  {
    (if w.masked then 128 else 0) +
    (match w.form case Short => |w.payload| case Medium => 126 case Long => 127)
  }

  function ExtendedLength(w: RawFrame): seq<byte> {
    match w.form
    case Short => []
    case Medium => ToBigEndian(|w.payload|, 2)
    case Long => ToBigEndian(|w.payload|, 8)
  }

  function Header(w: RawFrame): (h: seq<byte>)
    requires w.WellFormed()
  {
    [FirstByte(w), SecondByte(w)] + ExtendedLength(w) + (if w.masked then w.key else [])
  }

  function Encode(w: RawFrame): seq<byte>
    requires w.WellFormed()
  {
    Header(w) + Mask(w.payload, w.key)
  }

  function EncodeFrames(ws: seq<RawFrame>): seq<byte>
    requires forall w :: w in ws ==> w.WellFormed()
  {
    if ws == [] then [] else Encode(ws[0]) + EncodeFrames(ws[1..])
  }

  // ---- Reading the layout back ----

  function FormOf(second: byte): LengthForm {
    if second % 128 == 126 then Medium else if second % 128 == 127 then Long else Short
  }

  function ExtensionOf(second: byte): nat {
    match FormOf(second) case Short => 0 case Medium => 2 case Long => 8
  }

  function HeaderLength(second: byte): (n: nat)
    ensures 2 <= n <= 14
  {
    2 + ExtensionOf(second) + if second / 128 == 1 then 4 else 0
  }

  function PayloadLength(u: seq<byte>): (n: nat)
    requires |u| >= 2 && |u| >= 2 + ExtensionOf(u[1])
  {
    match FormOf(u[1])
    case Short => u[1] % 128
    case Medium => BigEndian(u[2..4])
    case Long => BigEndian(u[2..10])
  }

  // u begins with a whole frame.
  predicate HasFrame(u: seq<byte>) {
    && |u| >= 2
    && |u| >= HeaderLength(u[1])
    && |u| >= HeaderLength(u[1]) + PayloadLength(u)
  }

  function FrameLength(u: seq<byte>): (n: nat)
    requires HasFrame(u)
    ensures 2 <= n <= |u|
  {
    HeaderLength(u[1]) + PayloadLength(u)
  }

  function KeyAt(u: seq<byte>): Key
    requires |u| >= 2 && |u| >= HeaderLength(u[1])
  {
    var start := 2 + ExtensionOf(u[1]);
    if u[1] / 128 == 1 then u[start..start + 4] else NO_KEY
  }

  function FrameAt(u: seq<byte>): RawFrame
    requires HasFrame(u)
  {
    var h := HeaderLength(u[1]);
    RawFrame(u[0] / 128 == 1, u[0] / 16 % 8, u[0] % 16, u[1] / 128 == 1, KeyAt(u), FormOf(u[1]),
             Mask(u[h..h + PayloadLength(u)], KeyAt(u)))
  }

  // ---- The two directions agree ----

  lemma FirstByteFields(w: RawFrame)
    requires w.WellFormed()
    ensures var b := FirstByte(w); b / 128 == (if w.fin then 1 else 0) && b / 16 % 8 == w.rsv && b % 16 == w.opcode
  {
    var b := FirstByte(w);
    assert b / 16 == (if w.fin then 8 else 0) + w.rsv;
  }

  lemma SecondByteFields(w: RawFrame)
    requires w.WellFormed()
    ensures SecondByte(w) / 128 == (if w.masked then 1 else 0)
    ensures FormOf(SecondByte(w)) == w.form
    ensures w.form.Short? ==> SecondByte(w) % 128 == |w.payload|
    ensures HeaderLength(SecondByte(w)) == |Header(w)|
  {
  }

  // Whatever follows an encoded frame, reading finds that frame and no other.
  lemma EncodedIsFound(w: RawFrame, rest: seq<byte>)
    requires w.WellFormed()
    ensures HasFrame(Encode(w) + rest)
    ensures FrameLength(Encode(w) + rest) == |Encode(w)|
    ensures FrameAt(Encode(w) + rest) == w
  {
    var u := Encode(w) + rest;
    var h := |Header(w)|;
    FirstByteFields(w);
    SecondByteFields(w);
    assert u[..h] == Header(w);
    assert u[0] == FirstByte(w) && u[1] == SecondByte(w);
    EncodedLength(w, u);
    assert u[h..h + |w.payload|] == Mask(w.payload, w.key);
    MaskCancels(w.payload, w.key);
    var start := 2 + ExtensionOf(u[1]);
    if w.masked {
      assert u[start..start + 4] == Header(w)[start..start + 4] == w.key;
    }
  }

  lemma EncodedLength(w: RawFrame, u: seq<byte>)
    requires w.WellFormed() && Header(w) <= u
    ensures |u| >= 2 && |u| >= HeaderLength(u[1]) && PayloadLength(u) == |w.payload|
  {
    SecondByteFields(w);
    assert u[1] == Header(w)[1] == SecondByte(w);
    LengthLimits();
    match w.form
    case Short =>
    case Medium =>
      assert u[2..4] == Header(w)[2..4] == ToBigEndian(|w.payload|, 2);
      BigEndianRoundTrip(|w.payload|, 2);
    case Long =>
      assert u[2..10] == Header(w)[2..10] == ToBigEndian(|w.payload|, 8);
      BigEndianRoundTrip(|w.payload|, 8);
  }

  lemma LengthLimits()
    ensures Pow256(2) == TWO_TO_16
    ensures Pow256(8) == TWO_TO_64
  {
    assert Pow256(1) == 256;
    assert Pow256(4) == TWO_TO_32;
    assert Pow256(6) == TWO_TO_32 * TWO_TO_16;
  }

  lemma FoundLength(u: seq<byte>)
    requires HasFrame(u)
    ensures FrameAt(u).WellFormed()
    ensures |FrameAt(u).payload| == PayloadLength(u)
    ensures u[2..2 + ExtensionOf(u[1])] == ExtendedLength(FrameAt(u))
  {
    LengthLimits();
    match FormOf(u[1])
    case Short =>
    case Medium => ToBigEndianRoundTrip(u[2..4]);
    case Long => ToBigEndianRoundTrip(u[2..10]);
  }

  lemma FoundFirstBytes(u: seq<byte>)
    requires HasFrame(u) && FrameAt(u).WellFormed()
    requires |FrameAt(u).payload| == PayloadLength(u)
    ensures FirstByte(FrameAt(u)) == u[0] && SecondByte(FrameAt(u)) == u[1]
  {
  }

  lemma FoundHeader(u: seq<byte>)
    requires HasFrame(u)
    ensures FrameAt(u).WellFormed()
    ensures Header(FrameAt(u)) == u[..HeaderLength(u[1])]
  {
    FoundLength(u);
    FoundFirstBytes(u);
    var w, e := FrameAt(u), 2 + ExtensionOf(u[1]);
    var h := HeaderLength(u[1]);
    assert u[..h] == [u[0], u[1]] + u[2..e] + u[e..h];
    assert (if w.masked then w.key else []) == u[e..h];
  }

  // Whatever reading finds is, byte for byte, the encoding of what it found.
  lemma FoundIsEncoded(u: seq<byte>)
    requires HasFrame(u)
    ensures FrameAt(u).WellFormed()
    ensures Encode(FrameAt(u)) == u[..FrameLength(u)]
  {
    FoundHeader(u);
    var h, n := HeaderLength(u[1]), PayloadLength(u);
    MaskCancels(u[h..h + n], KeyAt(u));
    assert u[..h + n] == u[..h] + u[h..h + n];
  }

  // Bytes that follow a whole frame do not change it.
  lemma FrameIsStable(u: seq<byte>, more: seq<byte>)
    requires HasFrame(u)
    ensures HasFrame(u + more)
    ensures FrameAt(u + more) == FrameAt(u) && FrameLength(u + more) == FrameLength(u)
  {
    FoundIsEncoded(u);
    var w, n := FrameAt(u), FrameLength(u);
    assert u + more == Encode(w) + (u[n..] + more);
    EncodedIsFound(w, u[n..] + more);
  }
}
