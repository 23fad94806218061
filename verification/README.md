# Hayk in Dafny

Hayk is a WebSocket server. This project models what it does with the bytes of
its clients, from the first byte of the opening request to the last frame, and
the tables that hold its clients and headers, and proves properties of that
model. `dafny verify dfyconfig.toml` verifies all files.

## What is modelled

| file | part of the system |
|---|---|
| `Bytes.dfy`, `Bits.dfy` | bytes, exclusive or, byte order; exclusive or bit by bit |
| `Buffer.dfy` | `hk_buffer.c`: the growing buffer with its hidden sentinel |
| `Utf8.dfy` | the nine-state automaton of `hk_ws.c` against section 4 of RFC 3629 |
| `Wire.dfy` | frames as bytes, written from section 5.2 of RFC 6455 |
| `Frames.dfy` | `hk_ws_frame_parse_buffer` and the two unmasking loops, in place on the buffer |
| `FrameHead.dfy` | `hk_ws_generate_frame_head`, byte order tricks included |
| `Session.dfy` | the frame loop of `hk_reader_on_data` as a function of session and bytes; chunks |
| `Reference.dfy` | how the server reads RFC 6455, over whole frames and messages |
| `Strict.dfy` | the receiving side of RFC 6455 without indulgence, and where the server differs |
| `Vectors.dfy` | streams in literal bytes, and what is sent for them |
| `Fragments.dfy` | what the fragment buffer holds, over every run |
| `Storage.dfy`, `FragmentMemory.dfy` | how much memory it takes, and when its sentinel leaves it |
| `Client.dfy` | the client object and the frame loop as it updates it |
| `Handshake.dfy`, `HandshakeParser.dfy` | the 11-state request parser as a function, and in place on the buffer |
| `RequestShape.dfy` | what an accepted request looks like |
| `HeaderPrint.dfy`, `HeaderTable.dfy`, `Validation.dfy` | printing, filing and validating headers |
| `Response.dfy` | the answer to an accepted request: status line, header table, base64 |
| `Conversation.dfy`, `Server.dfy`, `EventLoop.dfy` | a connection from its first byte on, under the event loop |
| `Run.dfy`, `Lifetime.dfy` | any number of clients that come and go, over a whole run, and all dropped in the end |
| `Example.dfy` | concrete requests: accepted, cut, and spelled otherwise |
| `Murmur.dfy`, `HashExample.dfy` | the hash of all tables, and its inverse on one word; the hashes of some names, worked out |
| `HashTable.dfy`, `Cursor.dfy` | chained table, reference counts, cursors |
| `Reader.dfy`, `Broadcast.dfy`, `Relay.dfy` | the reader's table of clients; dropping all; sending to all; what one client's bytes make the others' sockets take |
| `ConcurrentInsert.dfy`, `InsertOrder.dfy`, `InsertRace.dfy`, `InsertKeys.dfy` | `hk_hash_insert` as single reads and compare-and-swaps of any number of threads |
| `Base64.dfy`, `WriteLoop.dfy` | base64, and the partial-write loops |

The imperative parts (`Buffers.Buffer`, `Frames.Frame`, `Clients.Client`,
`HandshakeParser`, `HashTable.Table`, `Cursors.Cursor`, `Readers.Reader`,
`WriteLoop`, ...) update objects and arrays as the C code does. Each method
is tied by its contract to a function of the bytes, and the laws are proved of
those functions.

## Main results

* However the frames of a client are cut into chunks, it is sent exactly what a
  strict receiver of RFC 6455 sends, if and only if the server reaches no frame
  that deviates from a rule it does not enforce, or fails the connection behind
  such a frame without having sent anything more (`Strict.ServerConforms`). It
  never does for a client whose frames conform one by one, from the first report
  of the event loop on (`Conversations.ConformingClientIsServed`).
* The mutable objects do what these functions say, over a whole run of the server:
  clients arrive and are reported on in any order, and each is in the conversation
  with what was reported on it, as if there were no others; the table has exactly
  those listened to, each under its own number (`Runs.Serve`). When all are dropped
  in the end, each client has been dropped exactly once, and last (`Lifetimes.ServeAndStop`).
* A request is accepted if its line is GET, URI and HTTP/1.1, with what may lie
  between, and only then (`RequestShapes.AcceptedShape`, `LineIsTaken`), and it opens a
  conversation if and only if its headers qualify as well (`Conversations.OpensExactly`).
  The answer is worked out to the last byte, the order of its headers in the table
  included (`Responses.AnswerArrives`).
* Whoever hangs up is dropped, once, and nothing is done for him afterwards
  (`Conversations.NothingAfterHangingUp`).
* When bytes of one client complete messages, the socket of every other open client
  takes just what the write loop sends of the frames, in order
  (`Relays.OnEventRelayed`); if it takes everything, those frames can be read back
  from it (`Relays.RelayedWhole`, `ReadBack`).
* The fused automaton accepts exactly UTF-8 (`Utf8.Exact`) and refuses only what
  cannot become UTF-8 any more (`Utf8.RefusesOnlyHopeless`); every delivered text
  is UTF-8, whatever arrives (`Reference.DeliveredTextIsValid`).
* The fragment buffer holds the payloads of the open message in order, over every
  run in any chunks (`Fragments.FragmentsInOrder`).
* The table refines a map under insertion, removal and lookup; reference counts
  equal holders at all times; dropping all clients while a cursor walks over the
  table drops each of them exactly once (`Readers.Reader.DropAllClients`).
* For any number of threads that insert at once, chains stay finite, nothing
  reachable is lost and nothing is linked twice (`ConcurrentInserts.ChainsStayFinite`,
  `EveryCallAccountedFor`, `StaysReachable`). Whether the chains stay sorted, the first
  insertion wins, and every key is found, in every run, is decided by the keys alone
  (`InsertKeys.SortedForKeys`, `FirstWinsForKeys`, `SearchForKeys`).
* The client table files fewer than 2^32 clients without a collision (`Runs.AddAll`),
  because the hash is a bijection on one word (`Murmur.HashWordIsBijection`).
* A table of legal headers, printed and parsed by the server's own code, comes back
  as it was but for the spelling of names (`HeaderTables.PrintAndParse`).

## Where the code does not do what one would expect

Each comes with the exact condition, and most with an input.

* Rules of RFC 6455 on single frames that the server does not enforce: masking
  (section 5.1), the shortest form of the length and its clear top bit (section
  5.2), and at most 125 bytes in pong and close frames (section 5.5). Server and
  strict receiver answer every frame alike if and only if no such frame is reached
  that the server does not refuse for another reason (`Strict.ConformsExactly`).
  Inputs: `Strict.UnmaskedTolerated`, `LongFormTolerated`, `ShortTextWaits`,
  `LongPongTolerated`.
* Chunk independence fails with unmasked frames: the loop consumes such a frame
  and stops, so what comes behind it in the same call waits for the next chunk.
  It holds if and only if nothing observable comes behind the first unmasked
  frame (`Sessions.ChunkIndependentExactly`; input: `Sessions.UnmaskedFrameDelays`).
* A request that would be accepted in one piece is accepted in chunks if and
  only if no chunk ends inside its request line, where the parser runs over the
  sentinel (`Handshake.ResumesExactly`; input: `Examples.OneCutDecides`).
* The first character of a header name is not upper-cased. Two spellings of a
  name are parsed alike if and only if they begin alike
  (`HeaderPrint.SpelledAlike`), and a header is filed under the name the server
  looks for if and only if its own does not begin with a small letter
  (`Validation.FoundExactly`; input: `Examples.SmallLetterHides`).
* That first character is not checked, either: a header name may begin with a separator
  or a colon. The names of headers in accepted requests are exactly those that begin with
  no line end and no blank, and go on without separators, colons and small letters
  (`RequestShapes.NamesExactly`; input: `RequestShapes.FirstCharacterIsFree`).
* A version other than 13 is taken if and only if it begins with 13 and goes on
  (`Validation.OtherVersionExactly`; input: `Examples.OtherVersionOpens`).
* Interleaved insertions can leave a chain unsorted, so that a search misses a
  key that is there (`InsertRaces.LosesAKey`), and can keep a key twice
  (`InsertRaces.KeepsAKeyTwice`). Every run leaves all chains sorted if and only if in
  each bucket at most one call has a key above the smallest one
  (`InsertKeys.SortedForKeys`); no key twice if and only if no two calls share a key
  that is not the smallest of its bucket (`FirstWinsForKeys`); every key to be found
  if and only if in each bucket all keys above the smallest are equal
  (`SearchForKeys`). For a single run see `InsertOrders.SortedExactly` and
  `FirstWinsExactly`; calls that follow one another on each bucket are safe
  whatever their keys (`SerialCallsKeepOrder`).
* A first append of exactly the size of the allocation writes its sentinel one
  byte behind it; no other append does (`Buffers.Buffer.Append`). Reading never
  gets there (`Server.Fill`). The fragment buffer does if and only if the first data
  stored of a message is as long as its allocation, which `Storages.KeepAll` follows
  over the frames of a call (`Clients.Client.OnFrameData`). Without a data frame whose
  length is a multiple of 2048, from 4096 on, it never does
  (`FragmentMemory.StaysInside`; inputs: `FragmentMemory.FullFragmentOverruns`).
* A cursor goes astray by a removal if and only if the item it holds has been taken
  out of the table before and the one behind that is taken out now; the link it goes
  on by then leads to an item that may be freed (`Cursors.Cursor.RemoveUnderway`;
  input: `Cursors.TwoRemovals`).
* The test whether a payload has arrived wraps around for lengths close to 2^64
  (`Frames.LengthTestExactly`); see below.
* In the write loops the first write is not retried: one more retryable failure makes
  a difference if and only if it comes in front of everything and something would have
  been sent (`WriteLoop.OnlyLaterWritesAreRetried`; input: `WriteLoop.FirstRetryStops`).
  A payload goes whole if and only if the first write takes some of it and the
  following ones get on (`WriteLoop.SendCompletesExactly`). The result of writing the head is not looked
  at: the frame goes whole if and only if the head happened to
  (`WriteLoop.DeliveredExactly`).
* A printed block without any header never completes a request; with legal headers
  it always does (`HeaderPrint.PrintedRequestParses`).

## Model
| member | source | states |
|---|---|---|
| Buffers.Buffer.constructor | src/lib/hk_buffer.c:10-33 | a new buffer is empty and within its allocation |
| Buffers.Buffer.Append | src/lib/hk_buffer.c:101-143 | the content grows by exactly the bytes appended, the read position and unread bytes are kept over reallocation, the allocation is the next multiple of 2048 above what is wanted when that is more, and the sentinel ends inside it if and only if this was not a first append of exactly the allocated size |
| Buffers.Buffer.TrimLeft | src/lib/hk_buffer.c:145-162 | exactly the unread bytes are kept, and moved to the front; nothing happens when the sentinel has been read |
| Buffers.Buffer.Clear | src/lib/hk_buffer.c:164-169 | the buffer becomes the empty one without a sentinel, memory is kept |
| Buffers.Buffer.CopyWithoutSentinel | src/lib/hk_buffer.c:77-98 | the copy is the content, and missing exactly when nothing was ever appended |
| Utf8.Exact | src/lib/hk_ws.c:363-439 | started between characters, the automaton ends between characters exactly on the encodings of sequences of Unicode scalar values |
| Utf8.RefusesOnlyHopeless | src/lib/hk_ws.c:374-429 | the automaton refuses bytes exactly when no continuation makes them UTF-8 |
| Utf8.RunConcat | src/lib/hk_ws.c:363-437 | running over fragments one by one with the carried state is running over their concatenation |
| Utf8.RunScalars | src/lib/hk_ws.c:378-425 | every encoding of scalar values is accepted |
| Utf8.AcceptedIsValid | src/lib/hk_ws.c:378-439 | what is accepted can be decoded into scalar values |
| Wire.MaskCancels | src/lib/hk_ws.c:347-351 | masking twice with one key restores the payload |
| Bits.XorIsBitwise | src/lib/hk_ws.c:349 | exclusive or of two octets is that of their bits |
| Bits.XorSplits | src/lib/hk_hash.c:333 | on longer numbers the lower bits and the higher ones are combined for themselves |
| Wire.MaskIsBitwise | src/lib/hk_ws.c:347-371 | octet i of the payload is combined, bit by bit, with octet i modulo 4 of the key |
| Wire.EncodedIsFound | src/lib/hk_ws.c:193-270 | the header fields read from an encoded frame, in each of the three length forms, are those of the frame, and the length is that of its encoding |
| Wire.FoundIsEncoded | src/lib/hk_ws.c:193-270 | whatever is found to be a whole frame is the encoding of a well-formed frame |
| Wire.FrameIsStable | src/lib/hk_ws.c:189-270 | a frame once whole is read the same when bytes are appended |
| Frames.DoneExactly | src/lib/hk_ws.c:177-313 | parsing succeeds exactly when the bytes begin with the encoding of a well-formed frame of known opcode that passes the payload checks |
| Frames.ParseEncoded | src/lib/hk_ws.c:177-313 | the result on an encoded frame is the verdict on the frame, or an unknown opcode, whatever follows |
| Frames.ParseIsStable | src/lib/hk_ws.c:187-312 | any result but incomplete is unchanged by more bytes |
| Frames.LengthTestExactly | src/lib/hk_ws.c:267-270 | the 64-bit test whether the payload has arrived says what the model says if and only if position and length do not add up to 2^64; with a clear top bit they never do |
| Frames.Frame.ReadHeader | src/lib/hk_ws.c:189-265 | although its length checks count bytes already read, the header is right whenever it lies in the unread bytes, and otherwise the later check is sure to fail |
| Frames.Frame.UnmaskUtf8Stream | src/lib/hk_ws.c:356-440 | accepts exactly when the automaton accepts the unmasked payload; then the slice holds the unmasked payload and the state is carried; nothing outside the slice is touched |
| Frames.Frame.Unmask | src/lib/hk_ws.c:341-354 | the slice is unmasked, nothing else is touched |
| Frames.Frame.TakePayload | src/lib/hk_ws.c:272-307 | the payload checks give the verdict on the frame; accepted payloads are unmasked in place and copied out |
| Frames.Frame.LocatePayload | src/lib/hk_ws.c:187-270 | stops with the result the unread bytes call for, or has the whole payload inside the content |
| Frames.Frame.ParseBuffer | src/lib/hk_ws.c:177-313 | the result is a function of the unread bytes alone; incomplete leaves buffer and position alone; success moves behind the frame and keeps what follows; success and refusal rewrite only the payload |
| FrameHead.SwappedIsNetworkOrder | src/lib/hk_ws.c:102 | storing the swapped number natively writes it in network order |
| FrameHead.NetworkLengthIsNetworkOrder | src/lib/hk_ws.c:108-110 | two swapped halves, shifted and added with 64-bit wrap-around, store the 64-bit length in network order |
| FrameHead.GenerateFrameHead | src/lib/hk_ws.c:47-122 | the bytes written are the head of the final frame in the shortest length form, as RFC 6455 lays it out |
| FrameHead.ShortestForm | src/lib/hk_ws.c:68-83 | no frame with the same payload, masked or not alike, has a shorter head |
| FrameHead.HeadInNumbers | src/lib/hk_ws.c:68-115 | the head in numbers: up to 125 in two bytes, up to 65535 in four with 126, else in ten with 127 |
| FrameHead.FrameRoundTrip | src/lib/hk_ws.c:47-122 | head and masked payload parse back to the same final frame exactly when the payload is legal for the opcode, otherwise to a critical error |
| Sessions.Resumes | src/lib/hk_reader.c:254-336 | decoding the bytes of a call and then those left with more is decoding them together |
| Sessions.ChunksResume | src/lib/hk_reader.c:254-336 | the chunks of any stream send a beginning of what the one-shot decoder sends, and all of it once the rest is decoded |
| Sessions.ChunkIndependence | src/lib/hk_reader.c:254-336 | masked streams send the same, end in the same session and leave the same bytes for every way of cutting them |
| Sessions.DroppedIgnores | src/lib/hk_reader.c:230-300 | a dropped client ignores all later bytes |
| Sessions.OnePieceIsLeast | src/lib/hk_reader.c:276-279 | no way of cutting a stream sends less than one piece does |
| Sessions.ChunksBetween | src/lib/hk_reader.c:254-336 | what any chunks send lies between one call and the one-shot decoder |
| Sessions.ChunkIndependentExactly | src/lib/hk_reader.c:276-279 | all cuts agree with the decoder if and only if nothing observable comes behind the first unmasked frame |
| Sessions.UnmaskedFrameDelays | src/lib/hk_reader.c:276-279 | a concrete stream on which two cuts differ |
| Reference.StreamIsFrames | src/lib/hk_reader.c:256-333 | every stream is well-formed frames and a tail without a whole frame |
| Reference.Verdict | src/lib/hk_ws.c:272-307 | the per-frame checks with the carried state refuse exactly what spoils the whole message |
| Reference.DecoderFollows | src/lib/hk_reader.c:254-336 | the decoder sends what the reference says, from every state of an unfinished message |
| Reference.ServerFollowsProtocol | src/lib/hk_reader.c:254-336 | cut in any way, a masked stream makes the server send exactly what the reference of its own reading says |
| Reference.SentFramesAreFollowed | src/lib/hk_reader.c:254-336 | the same from the sender's frames |
| Strict.FormIsShortest | src/lib/hk_ws.c:223-254 | the form a strict receiver asks for is the one with which no frame of that payload has a shorter head |
| Strict.DiffersExactly | src/lib/hk_ws.c:213-294 | on one frame server and strict receiver differ exactly when it deviates and is not refused for another reason |
| Strict.ConformsExactly | src/lib/hk_reader.c:254-336 | the server answers every frame it reaches as a strict receiver does if and only if it reaches no deviating frame that it does not refuse |
| Strict.SendsTheSameExactly | src/lib/hk_reader.c:254-336 | told by all that is sent: it is the same if and only if no such frame is reached or only a drop follows from there |
| Strict.ServerConforms | src/lib/hk_reader.c:254-336 | the same for a masked stream in any chunks |
| Strict.ConformingClientIsServed | src/lib/hk_reader.c:254-336 | a client whose frames conform one by one is sent just what RFC 6455 says |
| Strict.LongPongTolerated | src/lib/hk_ws.c:290-294 | a pong of 200 bytes is passed over |
| Strict.LongFormTolerated | src/lib/hk_ws.c:237-252 | three bytes in the 64-bit form are delivered |
| Strict.ShortTextWaits | src/lib/hk_ws.c:232-234 | three bytes of text in the 16-bit form are waited for for ever |
| Strict.UnmaskedTolerated | src/lib/hk_reader.c:276-279 | an unmasked frame is passed over |
| Vectors.Hello | src/lib/hk_ws.c:356-440 | the masked "Hello" of section 5.7 of RFC 6455, in literal bytes, is delivered as text |
| Vectors.ShortText | src/lib/hk_reader.c:254-336 | 81, the length and any key in front of masked ASCII text delivers the text |
| Vectors.WholeFrames | src/lib/hk_reader.c:317-331 | for every key: 89 80 is answered by a pong, 8a 80 by nothing, 88 80 drops, 81 80 and 82 80 deliver |
| Vectors.BrokenFrames | src/lib/hk_reader.c:280-300 | for every key: a continuation of nothing, each reserved bit and a control frame in pieces drop |
| Vectors.UnknownOpcodes | src/lib/hk_ws.c:196-205 | for every key the ten opcodes without a meaning drop |
| Vectors.TwoPieces | src/lib/hk_reader.c:302-315 | 01 and 80, each with its own key, deliver the two texts as one |
| Vectors.Injected | src/lib/hk_reader.c:295-300 | 01 followed by 82 drops |
| Vectors.ShortPing | src/lib/hk_reader.c:320-321 | a ping of up to 125 bytes is answered with its payload |
| Vectors.LongPing | src/lib/hk_ws.c:290-294 | a longer one drops |
| Vectors.MediumBinary | src/lib/hk_ws.c:223-240 | a binary message in the 16-bit form is delivered |
| Reference.DeliveredTextIsValid | src/lib/hk_reader.c:258-319 | every delivered text message is UTF-8, for any bytes in any chunks, masked or not |
| Fragments.StepExplains | src/lib/hk_reader.c:302-315 | one handled frame keeps: a message is pending exactly when one is open, under its first opcode, with its payloads in order |
| Fragments.ChunksExplain | src/lib/hk_reader.c:254-336 | a call on a chunk that stalls at an unmasked frame keeps it, too |
| Fragments.FragmentsInOrder | src/lib/hk_reader.c:276-331 | this holds over every run in any chunks, masked or not, control frames in between changing none of it |
| Fragments.CompletionDelivers | src/lib/hk_reader.c:309-319 | the last fragment delivers the concatenation of all payloads under the first opcode |
| Clients.Client.constructor | src/lib/hk_client.c:15-51 | a new client waits for its handshake, with two empty buffers of 4096 bytes |
| Clients.Client.AddFragment | src/lib/hk_client.c:68-82 | the pending message grows by the frame's data, keeps its first opcode and takes over the automaton state; the fragment buffer stays in bounds if and only if this is not the first data stored and of exactly its allocated size |
| Clients.Client.HandleFragment | src/lib/hk_reader.c:302-306 | a fragment that is not the last moves the session as the function says, under the same condition on the fragment buffer |
| Clients.Client.LastFragment | src/lib/hk_reader.c:308-315 | the last fragment is stored like any other, memory included, and the whole message comes out |
| FragmentMemory.StaysInside | src/lib/hk_client.c:68-82 | without a frame whose length is a multiple of 2048, from 4096 on, the sentinel of the fragment buffer never leaves its allocation, from any session on |
| FragmentMemory.FullFragmentOverruns | src/lib/hk_client.c:38-82 | a first fragment of 4096 bytes, and an empty one followed by a last one of 4096 bytes, make the loop write the sentinel behind the allocation |
| Clients.Client.CompileFragments | src/lib/hk_client.c:84-100 | the whole message comes out under the first opcode, and none is pending |
| Clients.Client.DropClient | src/lib/hk_reader.c:174-191 | the client's own part of being dropped: it is no longer listened to, and what was pending does not matter any more |
| Clients.Client.BreaksProtocol | src/lib/hk_reader.c:280-300 | true exactly for reserved bits, fragmented control frames, continuations of nothing and data frames inside a message |
| Clients.Client.HandleFrame | src/lib/hk_reader.c:280-331 | session, events and the memory of the fragment buffer move as the functions say, and the state is awaiting a fragment exactly when a message is pending |
| Clients.Client.ReadFrame | src/lib/hk_reader.c:257-261 | a new frame resumes the automaton of the pending message, and is parsed as the unread bytes say |
| Clients.Client.ParseFrame | src/lib/hk_reader.c:256-334 | one round advances as one round of the function does |
| Clients.Client.OnFrameData | src/lib/hk_reader.c:254-336 | the loop over the mutable buffer does what the function on the unread bytes says, and leaves its rest; it overruns the fragment buffer exactly if the function of the frames says so |
| Handshake.RewrittenScansAlike | src/lib/hk_reader.c:545-547 | upper-casing names in place does not change any later parse |
| Handshake.ParseByPrefix | src/lib/hk_reader.c:375-613 | the verdict on a buffer is that of its content, or an error where the sentinel is met in the request line |
| Handshake.VerdictStands | src/lib/hk_reader.c:375-613 | a verdict not caused by the sentinel is not changed by more bytes |
| Handshake.RequestResumes | src/lib/hk_reader.c:233-236 | cut outside the request line, parsing again from the start over rewritten bytes gives the result of the whole request |
| Handshake.RequestBreaks | src/lib/hk_reader.c:230-236 | cut inside the request line, an acceptable request is not accepted |
| Handshake.ResumesExactly | src/lib/hk_reader.c:223-236 | an acceptable request is accepted in chunks, with the same URI and headers, if and only if no chunk ends inside its request line |
| RequestShapes.AcceptedShape | src/lib/hk_reader.c:375-611 | an accepted request is line ends and zero bytes, "GET ", letters and blanks, a URI that begins with a slash and has no blank, line end or zero byte, blanks, "HTTP/1.1" and the rest, and its URI is that one; its last line feed follows a line end; every header has a proper name and a value that begins with no blank |
| RequestShapes.LineIsTaken | src/lib/hk_reader.c:375-473 | every such request line is taken, with that URI |
| RequestShapes.NamesExactly | src/lib/hk_reader.c:482-548 | the names of headers in accepted requests: the first character no blank and no line end, the others no separator, no colon and no small letter |
| RequestShapes.FirstCharacterIsFree | src/lib/hk_reader.c:482-548 | a header named "(" is accepted, one named "a(" never |
| HandshakeParser.ScanChar | src/lib/hk_reader.c:375-611 | one character moves the locals, positions into the buffer, as the function on texts moves; names are upper-cased but for their first character |
| HandshakeParser.Run | src/lib/hk_reader.c:375-613 | the loop reports what the function says and rewrites exactly the names it has run over |
| HandshakeParser.ParseHandshakeRequest | src/lib/hk_reader.c:344-614 | result, URI, headers and the rewritten buffer are functions of the unread bytes |
| HeaderPrint.PrintedRequestParses | src/lib/hk_reader.c:375-611 | a GET line followed by printed headers, names in any letters and beginning with almost any character, parses to that URI and the same headers in order, unclipped, names in upper case but for their first character; without headers it never completes |
| HeaderPrint.SpelledAlike | src/lib/hk_reader.c:482-548 | two spellings of a name are parsed alike exactly if they begin alike |
| HeaderPrint.SpelledAsSent | src/lib/hk_reader.c:482-548 | a name comes through as sent exactly if no small letter follows its first character |
| HeaderPrint.AppendLine | src/lib/hk_request.c:139-142 | one line is the C strings of name and value |
| HeaderPrint.LegalIsWhole | src/lib/hk_request.c:139-142 | names and values without a zero byte are printed whole |
| HeaderTables.HeaderTable.AddHeader | src/lib/hk_request.c:77-112 | the table keeps answering with the first header added under each key |
| HeaderTables.HeaderTable.GetHeader | src/lib/hk_request.c:114-126 | the answer is the first header added under the name's key |
| HeaderTables.HeaderTable.GetHeadersString | src/lib/hk_request.c:128-161 | the text is the printed headers in the order of the table, each item once; the table and its reference counts are as before |
| HeaderTables.OncePerName | src/lib/hk_request.c:134-143 | what is printed is the first header of each name, once, in the order of buckets and keys, and every name added is there |
| HeaderTables.PrintAndParse | src/lib/hk_request.c:128-161 | what the printer makes of a table of legal headers, behind a GET line, the parser reads as done, with that URI and just the headers of the table |
| Responses.Build | src/lib/hk_reader.c:759-792 | the three headers are filed, the last with the digest in base64 |
| Responses.ListedInOrder | src/lib/hk_request.c:128-161 | in the table the three headers are in the order Connection, Sec-WebSocket-Accept, Upgrade |
| Responses.Respond | src/lib/hk_reader.c:747-801 | the socket takes, in one write each, of the status line and of the block of these three headers, in this order |
| Responses.AnswerArrives | src/lib/hk_reader.c:759-801 | a socket that takes everything holds the answer, character by character, with the digest in base64, from which it can be decoded |
| Validation.FirstWins | src/lib/hk_hash.c:111-114 | adding a header changes the answer only for a key that had none |
| Validation.QualifiesExactly | src/lib/hk_reader.c:616-654 | a request validates exactly if some header is filed like the key, the first filed like the version begins with "13", and with origins configured the first filed like the origin exists and has a configured hash |
| Validation.FoundExactly | src/lib/hk_reader.c:482-548 | a header is filed under the upper-case name exactly if its own does not begin with a small letter; no hash collision can make up for it |
| Validation.OtherVersionExactly | src/lib/hk_reader.c:631-640 | a version other than 13 is taken exactly when it begins with 13 and goes on |
| Murmur.FirstByteMatters | src/lib/hk_hash.c:311-367 | keys that differ in their first byte alone have different hashes |
| Conversations.RequestOpens | src/lib/hk_reader.c:219-252 | a valid request in chunks opens the conversation with an empty buffer |
| Conversations.OpensExactly | src/lib/hk_reader.c:219-252 | the conversation opens if and only if the parse is done and the headers qualify; finished otherwise, the client is dropped |
| Conversations.HangingUpEnds | src/lib/hk_reader.c:98-104 | hanging up ends the conversation, with one drop if there was none |
| Conversations.NothingAfterHangingUp | src/lib/hk_reader.c:97-124 | over any run, all that is done for a client that hangs up is what was done before and at most one drop |
| Conversations.ReadOfZero | src/lib/hk_reader.c:110-112 | a first read of zero bytes changes nothing |
| Conversations.ConversationFollowsProtocol | src/lib/hk_reader.c:210-342 | from the first byte on, cut anywhere but inside the request line, the client is sent what the reference says |
| Conversations.PrintedRequestOpens | src/lib/hk_reader.c:210-342 | every printed request whose headers validate, as they are parsed, opens a conversation that follows the reference |
| Conversations.WakesAreChunks | src/lib/hk_reader.c:97-124 | until it hangs up, a client the event loop reports on is one whose chunks arrive; a first read of zero bytes is none |
| Conversations.ConformingClientIsServed | src/lib/hk_reader.c:97-124 | from the first report of the event loop on, a conforming client is sent just what RFC 6455 says |
| Examples.UsualRequestOpens | src/lib/hk_reader.c:616-654 | a request with the two usual headers opens a conversation |
| Examples.OneCutDecides | src/lib/hk_reader.c:393-405 | cut behind its third byte, that request makes the server drop the client |
| Examples.OtherVersionOpens | src/lib/hk_reader.c:631-640 | version 130 opens a conversation |
| Examples.SmallLetterHides | src/lib/hk_reader.c:482-548 | spelled with a small letter in front, the key header is not found, whatever the other headers |
| Examples.HostAloneDrops | src/lib/hk_reader.c:624-627 | a request with a single Host header makes the server drop the client |
| Examples.NoKeyDrops | src/lib/hk_reader.c:624-627 | so does one whose only header is the key spelled with a small letter in front |
| Examples.OldVersionDrops | src/lib/hk_reader.c:631-640 | so does version 12 |
| Examples.ForeignOriginDrops | src/lib/hk_reader.c:642-650 | so does an origin that is not configured, whatever the other headers |
| Server.ParseRequest | src/lib/hk_reader.c:223-228 | the parser's result over everything stored |
| Server.OnHandshakeData | src/lib/hk_reader.c:220-253 | wait with rewritten bytes and the position set back, open with an empty buffer, or drop, as the function says |
| Server.OnData | src/lib/hk_reader.c:210-342 | one call moves the client object as the conversation function moves; the table is kept in step by EventLoops.OnEvent |
| Server.Fill | src/lib/hk_reader.c:110-119 | reading pieces of at most 1024 bytes appends them all and never overruns |
| Server.OnReadable | src/lib/hk_reader.c:107-122 | what can be read is one chunk of the conversation; the client keeps its buffers, reallocated at most |
| Server.OnWake | src/lib/hk_reader.c:97-124 | a client that hung up is dropped, one whose first read returns zero is left alone, any other is handled |
| Server.Serve | src/lib/hk_reader.c:97-124 | over a whole connection, from a new client on, the object is in the conversation with all that has been reported |
| EventLoops.OnEvent | src/lib/hk_reader.c:97-124 | the client moves on as it does alone; the table then has it exactly if it is still listened to, and not if it hung up, and all others |
| Runs.AddAll | src/lib/hk_reader.c:155-163 | fewer than 2^32 clients are all in the table, each under its own number, and nobody else is |
| Runs.AsIfAlone | src/lib/hk_reader.c:97-124 | after any run every conversation is the one with what was reported on that client |
| Runs.Serve | src/lib/hk_reader.c:97-172 | over any run of arrivals and reports every client object is in its own conversation, and the table has exactly those listened to |
| Lifetimes.DropsOnce | src/lib/hk_reader.c:174-191 | all that is done for a client ends with a drop and has none before |
| Lifetimes.ServeAndStop | src/lib/hk_reader.c:97-204 | after any run and dropping all, the table is empty, and each client has been dropped exactly once, after everything else done for it |
| Base64.EncodeBase64 | src/lib/hk_crypt.c:7-44 | the bytes written are the encoding, its length is 4 * ceil(n / 3), nothing behind it is touched |
| Base64.EncodedLength | src/lib/hk_reader.c:782 | the encoding fits the allocation exactly |
| Base64.DecodeEncoded | src/lib/hk_crypt.c:7-44 | decoding by section 4 of RFC 4648 returns the input |
| Base64.EncodeDecoded | src/lib/hk_crypt.c:7-44 | every decodable text is the encoding of what it decodes to |
| Base64.OnlyAlphabet | src/lib/hk_crypt.c:12-41 | only the standard alphabet, and padding only at the end |
| Base64.Section10 | src/lib/hk_crypt.c:7-44 | "f", "fo" and "foo" as section 10 of RFC 4648 has them |
| Base64.Section10Long | src/lib/hk_crypt.c:7-44 | "foobar" likewise |
| Base64.LastInAlphabet | src/lib/hk_crypt.c:12 | the bits of 62 and 63 become "+" and "/" |
| WriteLoop.SendPayload | src/lib/hk_reader.c:686-696 | for every sequence of write results: how many bytes go and whether the loop completes; what was taken is a beginning of the payload without gap or repetition |
| WriteLoop.SendCompletesExactly | src/lib/hk_reader.c:686-696 | a payload goes whole exactly when its first write takes some of it and the writes from there on get on until they add up |
| WriteLoop.OnlyLaterWritesAreRetried | src/lib/hk_reader.c:686-696 | one more retryable failure, wherever it comes, makes a difference to what is sent if and only if it comes first and something would have been sent |
| WriteLoop.FirstRetryStops | src/lib/hk_reader.c:686-696 | a retryable failure in front of a write that would take everything |
| WriteLoop.SendFrame | src/lib/hk_reader.c:729-740 | what is taken of head and payload for every sequence of write results, and which of them are left |
| WriteLoop.DeliveredExactly | src/lib/hk_reader.c:729-740 | the whole frame goes exactly when the head goes in one write and the payload goes whole |
| Murmur.MurmurHash3 | src/lib/hk_hash.c:311-367 | the loop computes the specified hash |
| HashExamples.Hello | src/lib/hk_hash.c:311-367 | the hash of "hello" is 248bfa47 |
| HashExamples.Upgrade | src/lib/hk_hash.c:311-367 | that of "Upgrade", as it is filed, is 40f19002 |
| HashExamples.Connection | src/lib/hk_hash.c:311-367 | that of "Connection" is f2e56c7e |
| HashExamples.Accept | src/lib/hk_hash.c:311-367 | that of "Sec-WebSocket-Accept" is 38a76923 |
| HashExamples.Host | src/lib/hk_hash.c:311-367 | that of "HOST" is 2697342a |
| HashExamples.Key | src/lib/hk_hash.c:311-367 | that of "SEC-WEBSOCKET-KEY" is f6d9bcf4 |
| Murmur.OneWord | src/lib/hk_hash.c:325-366 | the hash of four bytes is one round and the finish on their word |
| Murmur.HashWordIsBijection | src/lib/hk_hash.c:325-366 | on one word the hash has an inverse, on both sides |
| Murmur.IdKeyIsInjective | src/lib/hk_reader.c:161-163 | different client numbers have different keys |
| HashTable.Table.constructor | src/lib/hk_hash.c:31-54 | a new table is the empty map |
| HashTable.Table.Place | src/lib/hk_hash.c:91-123 | the item is filed in the bucket of its key, in order, unless the key is taken; the map grows by exactly that entry |
| HashTable.Table.Insert | src/lib/hk_hash.c:76-130 | first wins: the map keeps a taken key and otherwise gains the entry; what is filed afterwards is returned; the spare item is freed |
| HashTable.Table.Detach | src/lib/hk_hash.c:132-178 | exactly the item with the key is unlinked, wherever it is in its chain |
| HashTable.Table.Remove | src/lib/hk_hash.c:132-178 | the map loses exactly the key, its data is returned, and the item is freed, once, if no cursor holds it |
| HashTable.Table.ExistsKey | src/lib/hk_hash.c:180-204 | the answer is the map's |
| HashTable.Find | src/lib/hk_hash.c:187-203 | stopping at a larger key misses nothing in a sorted chain |
| HashTable.Predecessor | src/lib/hk_hash.c:108-119 | the walk ends at the key or in the place where it belongs |
| HashTable.Table.Unref | src/lib/hk_hash.c:283-291 | the item is freed exactly when its last reference goes |
| Cursors.Cursor.constructor | src/lib/hk_hash.c:207-227 | everything in the table is ahead of a new cursor, which holds the first item |
| Cursors.Cursor.Next | src/lib/hk_hash.c:229-261 | returns the items ahead one by one, in bucket and chain order, nothing at the end; the reference moves on and no other count changes; an item that was taken out of the table while it was held is returned, and freed with its last reference |
| Cursors.Cursor.Free | src/lib/hk_hash.c:263-275 | the cursor's reference is given back, which frees an item that is out of the table |
| Cursors.EachOnce | src/lib/hk_hash.c:207-261 | bucket and chain order has every item of the table exactly once |
| Cursors.InOrderOfKeys | src/lib/hk_hash.c:207-261 | items come in the order of their buckets, and in a bucket in that of their keys |
| Cursors.SurvivesRemoval | src/lib/hk_hash.c:229-261 | removing an item that is not ahead of a cursor changes nothing of what is ahead |
| Cursors.Cursor.RemoveUnderway | src/lib/hk_hash.c:132-178 | after a removal the cursor is in order if and only if the item removed is not the one behind a held item that is out of the table itself; then it has before it what it had but the item removed, and the held item in any case, which is not freed |
| Cursors.RestWithout | src/lib/hk_hash.c:229-261 | of what a cursor has before it only the item removed is missing afterwards |
| Cursors.TwoRemovals | src/lib/hk_hash.c:236-241 | two removals after which the link a cursor goes on by leads to a freed item |
| HashTable.Table.Release | src/lib/hk_hash.c:283-291 | a reference given back frees the item exactly if it is out of the table and nobody else holds it |
| Readers.Reader.constructor | src/lib/hk_reader.c:41-64 | no clients, four buckets |
| Readers.Reader.AddClient | src/lib/hk_reader.c:155-172 | the client gets the next number and is filed under it, in a new item; as long as the counter has not come round the number is not taken |
| Readers.Reader.DropClient | src/lib/hk_reader.c:174-191 | exactly this client leaves the table and is dropped once |
| Readers.Reader.DropAllClients | src/lib/hk_reader.c:193-204 | every client in the table is dropped exactly once and the table is empty; no other cursor's references change and every item is accounted for |
| Readers.FiledAdd | src/lib/hk_reader.c:161-163 | a number is taken exactly when its hash is; adding keeps table and numbers in step |
| Broadcasts.HandleDataFrame | src/lib/hk_reader.c:656-703 | every open client in the table takes exactly what the write loop sends on its socket, once; nobody else is sent anything; the table is as before |
| Broadcasts.WholeFrameArrives | src/lib/hk_reader.c:684-696 | a socket that takes everything gets the whole frame, which parses back to the message |
| Broadcasts.HandlePingFrame | src/lib/hk_reader.c:705-744 | the socket of an open client takes what the write loop sends of a pong with the same payload, any other nothing |
| Broadcasts.ArrivesInBytes | src/lib/hk_ws.c:47-122 | a socket that takes everything holds the frame, its head in numbers |
| Broadcasts.PongArrives | src/lib/hk_reader.c:721-740 | 8a, the length and the payload of the ping |
| Relays.ConsumeWithin | src/lib/hk_reader.c:254-336 | every message of a call is text or binary, and no longer than what was pending and has arrived |
| Relays.Relay | src/lib/hk_reader.c:656-703 | the messages among any events are sent on one after the other: every open client's socket is as these writes leave it, all others are untouched |
| Relays.OnEventRelayed | src/lib/hk_reader.c:97-124 | one report on a client makes the sockets of all other open clients take just the messages completed by it, in order |
| Relays.RelayedWhole | src/lib/hk_reader.c:681-697 | a socket that takes everything gets the encoding of the frames of all messages, in order |
| Relays.ReadBack | src/lib/hk_ws.c:193-270 | these frames, and nothing else, are read from those bytes |
| ConcurrentInserts.StepWithin | src/lib/hk_hash.c:91-123 | a step that links nothing changes no chain, and all calls go on knowing what they know |
| ConcurrentInserts.StepLinks | src/lib/hk_hash.c:97-122 | a successful compare-and-swap puts the item into its bucket in one place |
| ConcurrentInserts.RunInv | src/lib/hk_hash.c:91-123 | the invariant holds after every interleaving, and chains only grow, in order |
| ConcurrentInserts.ChainsStayFinite | src/lib/hk_hash.c:91-123 | in every run every chain ends, and has no item twice |
| ConcurrentInserts.EveryCallAccountedFor | src/lib/hk_hash.c:91-130 | in every run an item is reachable exactly in its bucket and exactly if its call has linked it; a call that found a duplicate has its key in the table; no null link is followed |
| ConcurrentInserts.StaysReachable | src/lib/hk_hash.c:91-123 | what is reachable stays reachable in every continuation |
| InsertOrders.SearchIsSound | src/lib/hk_hash.c:187-203 | in a sorted chain the early exit misses nothing |
| InsertOrders.StepSorted | src/lib/hk_hash.c:115-122 | a sorted chain stays sorted if and only if the item is still in place at the swap |
| InsertOrders.SortedExactly | src/lib/hk_hash.c:91-123 | a single run leaves all chains sorted if and only if every item was put in place |
| InsertOrders.FirstWinsExactly | src/lib/hk_hash.c:111-122 | a single run leaves no key in the table twice if and only if every item linked is new then |
| InsertOrders.SerialCallsKeepOrder | src/lib/hk_hash.c:91-123 | when the calls on each bucket follow one another, every run leaves all chains sorted and no key twice |
| InsertKeys.RunFloor | src/lib/hk_hash.c:91-123 | in every run calls with the smallest key of their bucket never walk along the chain, and their items are at its head only |
| InsertKeys.SortedForKeys | src/lib/hk_hash.c:91-123 | every run leaves all chains sorted if and only if in each bucket at most one call has a key above the smallest one |
| InsertKeys.FirstWinsForKeys | src/lib/hk_hash.c:91-123 | every run leaves no key twice if and only if no two calls share a key that is not the smallest of its bucket |
| InsertKeys.SearchForKeys | src/lib/hk_hash.c:180-204 | after every run the search finds every key in the table if and only if in each bucket all keys above the smallest are equal |
| InsertRaces.OvertakenChain | src/lib/hk_hash.c:108-122 | for any three calls of a bucket, one with a smaller key than the other two, there is a run that links the other two in either order |
| InsertRaces.LosesAKey | src/lib/hk_hash.c:115-122 | a concrete run after which a key in the table is not found |
| InsertRaces.KeepsAKeyTwice | src/lib/hk_hash.c:111-122 | a concrete run after which a key is in the table twice |

## Left out

- Processes, signals, sockets, epoll, thread start and stop, configuration and logging: replaced by chunks that arrive, clients that are added and dropped, and write results.
- Payload lengths are mathematical integers. The `int` loop counters (payloads from 2^31 bytes on) are not modelled.
- Frames.Frame.LocatePayload: adds position and length without wrap-around. The sum in the code wraps exactly for the lengths `Frames.LengthTestExactly` names, all of them with a top bit that section 5.2 of RFC 6455 wants clear; results told for any bytes do not speak of streams with such a length.
- Allocation failures, and freeing a whole table (`hk_hash_free`).
- SHA-1 and the random mask key: any 20 bytes, and a parameter.
- Responses.Respond: takes the digest as given, not as computed from the key header, and is not an event of the conversation.
- Bytes that follow the opening request in the same buffer are cleared, as in the code; no property is stated about them.
- Hashes are worked out for the six keys in `HashExample.dfy` only. Other header names and origins with equal 32-bit hashes are one to the server; all statements about lookup are over the hash.
- Reference counts of clients and requests (`hk_client_unref`, `hk_request_unref`) and closing a freed client's socket; `client_count`, which is only ever decremented.
- Removal at the same time as insertion or another removal.
- `hk_ws_generate_close_frame` with a mask, `hk_buffer_copy`, `hk_list.c`.
- Server.OnData: an event `Message` stands for the call that sends to all; `Broadcasts.HandleDataFrame` models that call, with sockets that are not fields of the client. The removal from the reader's table follows in `EventLoops.OnEvent`.
- Relays.OnEventRelayed: messages are sent on when the call is over, not in between. That makes no difference to the other clients; the sender's own socket, to which pongs are written in between, is left out.
- Broadcasts.HandlePingFrame: the call on one client and its socket; an event `Pong` stands for it in the conversation.
- HandshakeParser.ParseHandshakeRequest: collects the headers added as a sequence; `HeaderTables` shows what the table makes of that sequence.
- Buffers.Buffer.Append: appends a given number of bytes; the form with length -1 is its use on a C string.
- Clients.Client.DropClient: the client's part only; it leaves the reader's table in `EventLoops.OnEvent` and `Readers.Reader.DropClient`.
- HashTable.Table.Insert: the sequential form, in which every compare-and-swap succeeds; the interleaved form is in `ConcurrentInserts`, on values.
