// The headers of a request, in a table filed by their names.
module HeaderTables {
  import opened Bytes
  import opened Wrappers
  import opened Buffers
  import opened HashTable
  import opened Cursors
  import opened Handshake
  import opened HeaderPrint
  import opened Validation
  import HandshakeParser
  import Murmur

  const HEADERS_SCALE := 10

  // Of all headers added, the map has the first one with each key.
  ghost predicate FirstOnly(added: seq<Header>, contents: map<Murmur.word, Header>) {
    forall key: Murmur.word :: FindKey(added, key) == if key in contents then Some(contents[key]) else None
  }

  class HeaderTable {
    const headers: Table<Header>

    // The headers added, in order, those that found their name taken included.
    ghost var added: seq<Header>

    ghost predicate Valid()
      reads this, headers, headers.items
      reads headers.filed`next, headers.filed`key, headers.filed`data, headers.live`ref
    {
      headers.Valid() && |headers.chains| == HEADERS_SCALE && FirstOnly(added, headers.contents)
    }

    constructor ()
      ensures Valid() && added == [] && fresh(headers) && fresh(headers.items)
      ensures headers.filed == {} && headers.holds == multiset{}
    {
      headers := new Table<Header>(HEADERS_SCALE);
      added := [];
    }

    // A header whose name is taken already is not filed.
    method AddHeader(name: seq<byte>, value: seq<byte>)
      requires Valid()
      modifies this, headers, headers.items, headers.filed
      ensures Valid() && added == old(added) + [Header(name, value)] && headers.holds == old(headers.holds)
      ensures fresh(headers.filed - old(headers.filed))
    {
      hide HeaderKey, FindKey, Table.Valid;
      var h := Header(name, value);
      forall key
        ensures FindKey(added + [h], key)
             == if FindKey(added, key).None? && HeaderKey(h.name) == key then Some(h) else FindKey(added, key)
      {
        FirstWins(added, h, key);
      }
      var _ := headers.Insert(HeaderKey(name), h);
      added := added + [h];
    }

    // The table answers with the first header added under the name.
    method GetHeader(name: seq<byte>) returns (h: Option<Header>)
      requires Valid()
      ensures h == FindHeader(added, name)
    {
      hide HeaderKey, Table.Valid;
      h := headers.ExistsKey(HeaderKey(name));
    }

    // The cursor has been over some items, and the buffer has their headers.
    ghost predicate Printing(cursor: Cursor<Header>, buffer: Buffer, items: seq<Item<Header>>, listed: seq<Header>)
      reads headers, headers.items, headers.filed, headers.live, cursor, buffer, buffer.mem, items`data
    {
      && cursor.hash == headers && cursor.Valid() && cursor.Steady() && buffer.Valid()
      && (forall i | 0 <= i < |items| :: items[i] in headers.filed)
      && |listed| <= |items| && Lists(items[..|listed|], listed) && cursor.Remaining() == items[|listed|..]
      && buffer.Content() == PrintLines(CHeaders(listed))
    }

    // The cursor moves on, and the header it returns, if any, is printed.
    method PrintNext(cursor: Cursor<Header>, buffer: Buffer, ghost items: seq<Item<Header>>, ghost listed: seq<Header>)
      returns (more: bool, ghost now: seq<Header>)
      requires Printing(cursor, buffer, items, listed)
      modifies cursor`col, cursor`row, buffer, buffer.mem
      modifies headers`holds, headers`live, headers`freed, headers.filed
      ensures buffer.mem == old(buffer.mem) || fresh(buffer.mem)
      ensures Printing(cursor, buffer, items, now)
      ensures if more then |now| == |listed| + 1 else now == listed && |listed| == |items|
      ensures Exchanged(old(headers.holds), old(cursor.Held()), headers.holds, cursor.Held())
      ensures headers.live == old(headers.live) && headers.freed == old(headers.freed)
    {
      hide Table.Valid, Flatten, CHeaders, Rest, Exchanged, Cursor.Held, PrintLines, HeaderLine;
      var header, item := cursor.Next();
      more, now := header.Some?, listed;
      if more {
        AppendLine(buffer, header.value);
        now := listed + [header.value];
        ListsNext(items, listed, header.value);
        LinesNext(listed, header.value);
      }
    }

    // Prints all headers before the cursor.
    method PrintRest(cursor: Cursor<Header>, buffer: Buffer, ghost items: seq<Item<Header>>)
      returns (ghost listed: seq<Header>)
      requires Printing(cursor, buffer, items, [])
      modifies cursor`col, cursor`row, buffer, buffer.mem
      modifies headers`holds, headers`live, headers`freed, headers.filed
      ensures buffer.mem == old(buffer.mem) || fresh(buffer.mem)
      ensures cursor.hash == headers && cursor.Valid() && cursor.Steady() && Lists(items, listed)
      ensures forall i | 0 <= i < |items| :: items[i] in headers.filed
      ensures buffer.Valid() && buffer.used > 0 && buffer.Content() == PrintHeaders(CHeaders(listed))
      ensures Exchanged(old(headers.holds), old(cursor.Held()), headers.holds, cursor.Held())
      ensures headers.live == old(headers.live) && headers.freed == old(headers.freed)
    {
      hide Table.Valid, Flatten, CHeaders, Rest, Exchanged, Cursor.Held, PrintLines, Lists;
      ExchangedNot(headers.holds, cursor.Held());
      listed := [];
      var more := true;
      while more
        invariant buffer.mem == old(buffer.mem) || fresh(buffer.mem)
        invariant Printing(cursor, buffer, items, listed) && (!more ==> |listed| == |items|)
        invariant headers.live == old(headers.live) && headers.freed == old(headers.freed)
        invariant Exchanged(old(headers.holds), old(cursor.Held()), headers.holds, cursor.Held())
        decreases more, |items| - |listed|
      {
        ghost var held, holds := cursor.Held(), headers.holds;
        more, listed := PrintNext(cursor, buffer, items, listed);
        ExchangedTwice(old(headers.holds), old(cursor.Held()), holds, held, headers.holds, cursor.Held());
      }
      assert items[..|listed|] == items;
      LinesEnd(CHeaders(listed));
      buffer.Append(CRLF);
    }

    // A new buffer, and a cursor with all headers before it.
    method StartPrinting() returns (cursor: Cursor<Header>, buffer: Buffer)
      requires Valid()
      modifies headers`holds, headers.filed`ref
      ensures Printing(cursor, buffer, Flatten(headers.chains), [])
      ensures headers.holds == old(headers.holds) + cursor.Held()
      ensures fresh(cursor) && fresh(buffer) && fresh(buffer.mem)
    {
      hide Table.Valid, FirstOnly, Flatten, Distinct, Rest;
      EachOnce(headers);
      buffer := new Buffer(1024);
      cursor := new Cursor(headers);
    }

    // Gives up the cursor, and copies the text out of the buffer.
    method EndPrinting(cursor: Cursor<Header>, buffer: Buffer) returns (text: seq<byte>, size: nat)
      requires cursor.hash == headers && cursor.Valid() && cursor.Steady() && buffer.Valid() && buffer.used > 0
      modifies cursor`row, headers`holds, headers`live, headers`freed, headers.filed
      ensures headers.Valid() && Exchanged(old(headers.holds), old(cursor.Held()), headers.holds, multiset{})
      ensures headers.live == old(headers.live) && headers.freed == old(headers.freed)
      ensures forall x | x in headers.filed :: x.data == old(x.data)
      ensures text == old(buffer.Content()) + [NUL] && size == |text| - 1
    {
      hide Table.Valid;
      size := buffer.used - 1;
      text := buffer.mem[..buffer.used];
      assert text == buffer.Content() + [NUL];
      cursor.Free();
    }

    // Prints the headers in the order of the table, as C strings.
    method GetHeadersString() returns (text: seq<byte>, size: nat, ghost listed: seq<Header>)
      requires Valid()
      modifies headers`holds, headers`live, headers`freed, headers.filed
      ensures Valid() && headers.holds == old(headers.holds)
      ensures headers.live == old(headers.live) && headers.freed == old(headers.freed)
      ensures Lists(Flatten(headers.chains), listed)
      ensures text == PrintHeaders(CHeaders(listed)) + [NUL] && size == |text| - 1
    {
      hide Table.Valid, FirstOnly, Flatten, Distinct, Rest, Exchanged, PrintHeaders, PrintLines, CHeaders, Cursor.Valid;
      var cursor, buffer := StartPrinting();
      ghost var items := Flatten(headers.chains);
      ghost var held, holds := cursor.Held(), headers.holds;
      listed := PrintRest(cursor, buffer, items);
      ghost var last, lastHolds := cursor.Held(), headers.holds;
      text, size := EndPrinting(cursor, buffer);
      ExchangedTwice(holds, held, lastHolds, last, headers.holds, multiset{});
      ExchangedBack(old(headers.holds), held, headers.holds);
    }
  }

  lemma LinesEnd(hs: seq<Header>)
    ensures PrintLines(hs) + CRLF == PrintHeaders(hs)
  {
    LinesThenEnd(hs, []);
    assert hs + [] == hs;
  }

  lemma LinesNext(listed: seq<Header>, h: Header)
    ensures PrintLines(CHeaders(listed + [h]))
         == PrintLines(CHeaders(listed)) + HeaderLine(Header(CString(h.name), CString(h.value)))
  {
    var all := CHeaders(listed + [h]);
    assert all[..|all| - 1] == CHeaders(listed);
  }

  // What is printed: of all headers added, the first one under each name, once, and
  // in the order of buckets and keys.
  lemma OncePerName(table: HeaderTable, listed: seq<Header>)
    requires table.Valid() && Lists(Flatten(table.headers.chains), listed)
    ensures forall i | 0 <= i < |listed| :: FindHeader(table.added, listed[i].name) == Some(listed[i])
    ensures forall i, j | 0 <= i < j < |listed| :: Precedes(HeaderKey(listed[i].name), HeaderKey(listed[j].name), HEADERS_SCALE)
    ensures forall h | h in table.added :: exists i :: 0 <= i < |listed| && HeaderKey(listed[i].name) == HeaderKey(h.name)
  {
    hide Table.Valid, HeaderKey, FindKey, Flatten, Precedes;
    var items := Flatten(table.headers.chains);
    EachOnce(table.headers);
    forall i | 0 <= i < |items|
      ensures items[i].key == HeaderKey(listed[i].name)
      ensures FindKey(table.added, items[i].key) == Some(listed[i])
    {
      assert items[i] in items;
      KeyedOnce(table.headers, items[i]);
      FindsMatching(table.added, items[i].key);
    }
    forall i, j | 0 <= i < j < |items|
      ensures Precedes(items[i].key, items[j].key, HEADERS_SCALE)
    {
      InOrderOfKeys(table.headers);
    }
    forall h | h in table.added
      ensures exists i :: 0 <= i < |listed| && HeaderKey(listed[i].name) == HeaderKey(h.name)
    {
      FindsMatching(table.added, HeaderKey(h.name));
      var x := ItemOf(table.headers, HeaderKey(h.name));
      var i :| 0 <= i < |items| && items[i] == x;
      assert HeaderKey(listed[i].name) == x.key;
    }
  }

  // What is printed of legal headers is legal, and printed whole.
  lemma LegalAreListed(table: HeaderTable, listed: seq<Header>)
    requires table.Valid() && Lists(Flatten(table.headers.chains), listed)
    requires forall h | h in table.added :: Printable(h)
    ensures (forall i | 0 <= i < |listed| :: Printable(listed[i])) && CHeaders(listed) == listed
    ensures table.added != [] ==> listed != []
  {
    hide HeaderTable.Valid, HeaderKey, FindKey, Flatten, Lists;
    OncePerName(table, listed);
    forall i | 0 <= i < |listed|
      ensures Printable(listed[i]) && CHeaders(listed)[i] == listed[i]
    {
      FindsMatching(table.added, HeaderKey(listed[i].name));
      LegalIsWhole(listed[i].name);
      LegalIsWhole(listed[i].value);
    }
    if table.added != [] {
      assert table.added[0] in table.added;
    }
  }

  lemma FiledInOrder(table: HeaderTable)
    requires table.Valid()
    ensures forall x | x in Flatten(table.headers.chains) :: x in table.headers.filed
  {
    hide Table.Valid, Flatten, FirstOnly;
    EachOnce(table.headers);
  }

  // The text of a request in a new buffer, and what the parser makes of it.
  method ParseText(line: seq<byte>, text: seq<byte>)
    returns (request: HandshakeParser.Request, result: Option<Code>)
    ensures match Parse(line + text)
            case Incomplete => result == None
            case Finished(code, uri, hs) => result == Some(code) && request.uri == uri && request.headers == hs
  {
    hide Parse, Rewrite;
    var buffer := new Buffer(4096);
    buffer.Append(line);
    buffer.Append(text);
    request := new HandshakeParser.Request();
    assert buffer.Content() == line + text;
    buffer.UnreadIs();
    result := HandshakeParser.ParseHandshakeRequest(request, buffer);
  }

  // A table of legal headers is printed behind a request line, and that text is
  // parsed: the parser ends with the URI and with just the headers of the table.
  method PrintAndParse(table: HeaderTable, uri: seq<byte>)
    returns (request: HandshakeParser.Request, result: Option<Code>, ghost listed: seq<Header>)
    requires table.Valid() && LegalUri(uri) && table.added != [] && forall h | h in table.added :: Printable(h)
    modifies table.headers`holds, table.headers`live, table.headers`freed, table.headers.filed
    ensures table.Valid() && table.added == old(table.added) && Lists(Flatten(table.headers.chains), listed)
    ensures result == Some(Done) && request.uri == Some(uri) && request.headers == AllAsParsed(listed)
  {
    hide Legal, LegalUri, HeaderTable.Valid, Flatten, Parse, PrintHeaders, RequestLine, Lists, AllAsParsed, CHeaders;
    var text, size;
    text, size, listed := table.GetHeadersString();
    LegalAreListed(table, listed);
    PrintedRequestParses(uri, listed);
    ghost var items := Flatten(table.headers.chains);
    assert forall i | 0 <= i < |items| :: items[i] in items && items[i] in table.headers.filed by {
      FiledInOrder(table);
    }
    assert text[..size] == PrintHeaders(listed);
    request, result := ParseText(RequestLine(uri), text[..size]);
  }
}
