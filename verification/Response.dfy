// The answer to an accepted opening request: a status line and three headers, the
// last of which carries a digest in base64. The digest itself is a parameter.
module Responses {
  import opened Bytes
  import opened Wrappers
  import opened Handshake
  import opened HeaderPrint
  import opened HeaderTables
  import opened Validation
  import opened WriteLoop
  import opened HashTable
  import opened Cursors
  import Base64
  import Murmur
  import HashExamples

  const DIGEST_LENGTH := 20

  const STATUS: seq<byte> := Ascii("HTTP/1.1 101 Switching Protocols") + CRLF

  const ACCEPT_NAME := "Sec-WebSocket-Accept"

  // The headers in the order in which they are added.
  function Answer(digest: seq<byte>): seq<Header> {
    [Header(Ascii("Upgrade"), Ascii("websocket")),
     Header(Ascii("Connection"), Ascii("Upgrade")),
     Header(Ascii(ACCEPT_NAME), Base64.Encode(digest))]
  }

  // In the table, the three headers are ordered by their keys.
  function InOrder(digest: seq<byte>): seq<Header> {
    [Answer(digest)[1], Answer(digest)[2], Answer(digest)[0]]
  }

  // ---- The headers are printed as they are ----

  // Printable text without blanks.
  predicate Plain(s: seq<byte>) {
    s != [] && forall i | 0 <= i < |s| :: 33 <= s[i] < 127
  }

  predicate PlainName(s: seq<byte>) {
    s != [] && forall i | 0 <= i < |s| :: IsUpperCase(s[i]) || IsLowerCase(s[i]) || s[i] == '-' as int
  }

  lemma PlainIsPrintable(h: Header)
    requires PlainName(h.name) && Plain(h.value)
    ensures Printable(h)
  {
  }

  lemma Base64IsPlain(digest: seq<byte>)
    requires digest != []
    ensures Plain(Base64.Encode(digest))
  {
    hide Base64.Encode;
    Base64.EncodedLength(digest);
    forall i | 0 <= i < |Base64.Encode(digest)|
      ensures 33 <= Base64.Encode(digest)[i] < 127
    {
      Base64.OnlyAlphabet(digest, i);
    }
  }

  lemma AnswerIsPrintable(digest: seq<byte>)
    requires digest != []
    ensures forall h | h in Answer(digest) :: Printable(h)
  {
    hide Legal, Base64.Encode;
    Base64IsPlain(digest);
    var hs := Answer(digest);
    PlainIsPrintable(hs[0]);
    PlainIsPrintable(hs[1]);
    PlainIsPrintable(hs[2]);
  }

  // ---- Building and sending ----

  // A table with the three headers.
  method Build(digest: seq<byte>) returns (table: HeaderTable)
    requires |digest| == DIGEST_LENGTH
    ensures table.Valid() && table.added == Answer(digest)
    ensures fresh(table) && fresh(table.headers) && fresh(table.headers.items) && fresh(table.headers.filed)
  {
    hide HeaderTable.Valid, Base64.Encode;
    table := new HeaderTable();
    table.AddHeader(Ascii("Upgrade"), Ascii("websocket"));
    table.AddHeader(Ascii("Connection"), Ascii("Upgrade"));
    var text := new byte[(DIGEST_LENGTH + 2) / 3 * 4 + 1];
    var length := Base64.EncodeBase64(text, digest);
    table.AddHeader(Ascii(ACCEPT_NAME), text[..length]);
  }

  // What a socket takes of the answer: of the status line and of the header block
  // what one write each takes.
  function Answered(line: Line, block: seq<byte>): Line {
    var after := Later(line.script);
    Line(line.taken + STATUS[..Count(Capped(First(line.script), |STATUS|))]
           + block[..Count(Capped(First(after), |block|))],
         Later(after))
  }

  // These are headers of the answer in the order of the table, and every key of a
  // header of the answer is there.
  ghost predicate Covers(listed: seq<Header>, digest: seq<byte>) {
    && (forall i | 0 <= i < |listed| :: listed[i] in Answer(digest))
    && (forall i, j | 0 <= i < j < |listed| ::
          Precedes(HeaderKey(listed[i].name), HeaderKey(listed[j].name), HEADERS_SCALE))
    && forall h | h in Answer(digest) :: Filed(listed, h)
  }

  // The status line and the header block, with the headers in the order of the table.
  method Respond(socket: Socket, digest: seq<byte>)
    requires |digest| == DIGEST_LENGTH
    modifies socket
    ensures LineOf(socket) == Answered(old(LineOf(socket)), PrintHeaders(InOrder(digest)))
  {
    hide PrintHeaders, HeaderTable.Valid, Lists, Flatten, Legal, Answer, Covers, CHeaders, InOrder;
    var table := Build(digest);
    var _ := socket.Write(STATUS);
    var text, size, listed := table.GetHeadersString();
    AnswerIsPrintable(digest);
    LegalAreListed(table, listed);
    ListedCovers(table, listed, digest);
    ListedInOrder(listed, digest);
    assert text[..size] == PrintHeaders(listed);
    var _ := socket.Write(text[..size]);
  }

  lemma ListedCovers(table: HeaderTable, listed: seq<Header>, digest: seq<byte>)
    requires table.Valid() && Lists(Flatten(table.headers.chains), listed) && table.added == Answer(digest)
    ensures Covers(listed, digest)
  {
    hide HeaderTable.Valid, Lists, Flatten, HeaderKey, FindKey, Answer;
    OncePerName(table, listed);
    forall i | 0 <= i < |listed|
      ensures listed[i] in Answer(digest)
    {
      FindsMatching(table.added, HeaderKey(listed[i].name));
    }
  }

  // The keys of the three names, and their buckets: 6, 0 and 3.
  lemma AnswerKeys(digest: seq<byte>)
    ensures var hs := Answer(digest);
            && |hs| == 3 && HeaderKey(hs[0].name) == 0x40f19002 && HeaderKey(hs[1].name) == 0xf2e56c7e
            && HeaderKey(hs[2].name) == 0x38a76923
  {
    hide Ascii, Murmur.Hash;
    NamesInBytes();
    HashExamples.Upgrade();
    HashExamples.Connection();
    HashExamples.Accept();
  }

  lemma AnswerBuckets(digest: seq<byte>)
    ensures var hs := Answer(digest);
            && |hs| == 3 && Col(HeaderKey(hs[1].name), HEADERS_SCALE) == 0
            && Col(HeaderKey(hs[2].name), HEADERS_SCALE) == 3 && Col(HeaderKey(hs[0].name), HEADERS_SCALE) == 6
  {
    hide Answer, HeaderKey;
    AnswerKeys(digest);
  }

  lemma NamesInBytes()
    ensures Ascii("Upgrade") + [NUL] == HashExamples.UPGRADE && Ascii("Connection") + [NUL] == HashExamples.CONNECTION
    ensures Ascii(ACCEPT_NAME) + [NUL] == HashExamples.ACCEPT
  {
  }

  // A header under the key of h is among them.
  ghost predicate Filed(listed: seq<Header>, h: Header) {
    exists i :: 0 <= i < |listed| && HeaderKey(listed[i].name) == HeaderKey(h.name)
  }

  lemma Ordered(listed: seq<Header>, x: Header, y: Header, z: Header)
    requires forall h | h in listed :: h == x || h == y || h == z
    requires Col(HeaderKey(x.name), HEADERS_SCALE) < Col(HeaderKey(y.name), HEADERS_SCALE) < Col(HeaderKey(z.name), HEADERS_SCALE)
    requires forall i, j | 0 <= i < j < |listed| ::
               Precedes(HeaderKey(listed[i].name), HeaderKey(listed[j].name), HEADERS_SCALE)
    requires Filed(listed, x) && Filed(listed, y) && Filed(listed, z)
    ensures listed == [x, y, z]
  {
    hide HeaderKey, Col;
    var i :| 0 <= i < |listed| && HeaderKey(listed[i].name) == HeaderKey(x.name);
    var j :| 0 <= j < |listed| && HeaderKey(listed[j].name) == HeaderKey(y.name);
    var k :| 0 <= k < |listed| && HeaderKey(listed[k].name) == HeaderKey(z.name);
    assert listed[i] in listed && listed[j] in listed && listed[k] in listed;
    assert i < j < k;
    forall n | 0 <= n < |listed|
      ensures (listed[n] == x && n == i) || (listed[n] == y && n == j) || (listed[n] == z && n == k)
    {
      assert listed[n] in listed;
    }
    assert i == 0 by { var first := listed[0]; }
    assert j == 1 by { var second := listed[1]; }
    assert k == 2 by { var third := listed[2]; }
    assert |listed| == 3 by { var last := listed[|listed| - 1]; }
  }

  lemma ListedInOrder(listed: seq<Header>, digest: seq<byte>)
    requires Covers(listed, digest)
    ensures listed == InOrder(digest)
  {
    hide Answer, HeaderKey, Precedes, Col, Filed;
    AnswerBuckets(digest);
    var hs := Answer(digest);
    assert hs[0] in hs && hs[1] in hs && hs[2] in hs;
    Ordered(listed, hs[1], hs[2], hs[0]);
  }

  // The answer in characters, around the digest in base64.
  const BEFORE: seq<byte> :=
    Ascii("HTTP/1.1 101 Switching Protocols\r\n") + Ascii("Connection: Upgrade\r\n") + Ascii("Sec-WebSocket-Accept: ")
  const BEHIND: seq<byte> := Ascii("\r\n") + Ascii("Upgrade: websocket\r\n") + Ascii("\r\n")

  lemma ThreePrinted(x: Header, y: Header, z: Header)
    ensures PrintHeaders([x, y, z]) == HeaderLine(x) + HeaderLine(y) + HeaderLine(z) + CRLF
  {
    hide HeaderLine;
    LinesThenEnd([x, y, z], []);
    assert [x, y, z][..2] == [x, y] && [x, y][..1] == [x] && [x][..0] == [];
    assert PrintLines([x]) == HeaderLine(x);
    assert PrintLines([x, y]) == HeaderLine(x) + HeaderLine(y);
    assert PrintLines([x, y, z]) == HeaderLine(x) + HeaderLine(y) + HeaderLine(z);
    assert [x, y, z] + [] == [x, y, z];
  }

  lemma UpgradePrinted(digest: seq<byte>)
    ensures |Answer(digest)| == 3 && HeaderLine(Answer(digest)[0]) == Ascii("Upgrade: websocket\r\n")
  {
    hide Base64.Encode;
  }

  lemma ConnectionPrinted(digest: seq<byte>)
    ensures |Answer(digest)| == 3 && HeaderLine(Answer(digest)[1]) == Ascii("Connection: Upgrade\r\n")
  {
    hide Base64.Encode;
  }

  lemma AcceptPrinted(digest: seq<byte>)
    ensures |Answer(digest)| == 3
    ensures HeaderLine(Answer(digest)[2]) == Ascii("Sec-WebSocket-Accept: ") + Base64.Encode(digest) + CRLF
  {
    hide Base64.Encode;
    assert Ascii(ACCEPT_NAME) + COLON_SPACE == Ascii("Sec-WebSocket-Accept: ");
  }

  lemma EndsPrinted()
    ensures STATUS == Ascii("HTTP/1.1 101 Switching Protocols\r\n") && Ascii("\r\n") == CRLF
  {
  }

  lemma Joined(status: seq<byte>, first: seq<byte>, name: seq<byte>, value: seq<byte>, last: seq<byte>)
    ensures status + (first + (name + value + CRLF) + last + CRLF) == status + first + name + value + (CRLF + last + CRLF)
  {
  }

  lemma Printed(digest: seq<byte>)
    ensures STATUS + PrintHeaders(InOrder(digest)) == BEFORE + Base64.Encode(digest) + BEHIND
  {
    hide Answer, Ascii, HeaderLine, Base64.Encode, PrintHeaders;
    var hs := Answer(digest);
    UpgradePrinted(digest);
    ConnectionPrinted(digest);
    AcceptPrinted(digest);
    EndsPrinted();
    ThreePrinted(hs[1], hs[2], hs[0]);
    Joined(STATUS, HeaderLine(hs[1]), Ascii("Sec-WebSocket-Accept: "), Base64.Encode(digest), HeaderLine(hs[0]));
  }

  // A client whose socket takes everything gets this text, and in it the digest.
  lemma AnswerArrives(line: Line, digest: seq<byte>)
    requires var script := line.script;
             && |script| >= 2 && script[0].Took? && script[0].count >= |STATUS|
             && script[1].Took? && script[1].count >= |PrintHeaders(InOrder(digest))|
    ensures Answered(line, PrintHeaders(InOrder(digest))).taken
         == line.taken + BEFORE + Base64.Encode(digest) + BEHIND
    ensures Base64.Decode(Base64.Encode(digest)) == Some(digest)
  {
    hide PrintHeaders, HeaderKey, Answer, Ascii, InOrder, Base64.Encode, Base64.Decode;
    var block := PrintHeaders(InOrder(digest));
    assert STATUS[..|STATUS|] == STATUS && block[..|block|] == block;
    Printed(digest);
    Base64.DecodeEncoded(digest);
    assert line.taken + STATUS + block == line.taken + (STATUS + block);
  }
}
