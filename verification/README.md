# A model of a 0-RTT TCP Convert client and converter

The system has two halves that speak the Convert Protocol (RFC 8803). A preloaded C library redirects an
application's `connect` to a converter, sends it a Connect request and hides the converter's reply. A Python
server, the converter, accepts the request, dials the wanted destination and moves bytes between the two.
This project models both halves and the wire between them, and proves over every interleaving how far they are
transparent together: what the application sends is what the destination gets, and the other way round, with the
exact conditions where the code falls short.

The layers, each resting on the ones above it:

- `Sequences.dfy`, `Bytes.dfy`, `Wire.dfy`: distinct elements and removal; octets, `size_t` arithmetic, the alignment macro; the TLV grammar of section 6.2 of
  RFC 8803 written down independently of any code, and what a list of elements means.
- `Parser.dfy`, `Writer.dfy`, `RoundTrip.dfy`: the C codec. The element loop reads an array; the writer fills the
  caller's array through its table of callbacks. Both are proved against pure functions, those against the grammar.
- `ReadOpts.dfy`: taking one message off a socket, peeking or not.
- `PyCodec.dfy`: the converter's own parser for the same bytes, its length rule, its reply, requests cut anywhere.
- `AddressText.dfy`: the destination's address from 16 bytes to the host name the converter dials.
- `ListQueue.dfy`, `TailQueue.dfy`, `STailQueue.dfy`: the pointer macros of `bsd_queue.h`. A `T **` link is the
  address of a head's first field or of a node's next field; every operation refines one on sequences.
- `SocketTable.dfy`: 1024 intrusive buckets refining a map from descriptor to state.
- `TableProtocol.dfy`: the same table under any number of threads, with `malloc`, `free` and the kernel's
  descriptors as steps, interleaved at the mutex.
- `TableRefinement.dfy`: the two tables in step, one critical section at a time.
- `Redirect.dfy`, `ConvertClient.dfy`: the interposed calls, as functions on one socket, and as methods over the
  table that are proved against those functions.
- `Converter.dfy`, `TCServer.dfy`: the server's loop on values, and the server class proved against it.
- `EndToEnd.dfy`: clients, network, converter and destinations composed, with clients that do not use the library.
- `Conversation.dfy`: what that composition can do from every state it reaches: whole conversations, refusals, requests
  cut to their header.

Flags are kept as the set of one bits of the flags byte, ports and addresses as bytes in network order. A
buffer that the C code walks with a pointer is an array with a cursor.

## What the code does not do

These are places where the code falls short of what one would expect; the model keeps the code as it is and each
lemma gives the exact condition.

- An Error element of length zero makes the C element loop run forever, and nothing else does
  (`Parser.DivergesExactlyAtZeroLengthError`, `Parser.TerminatesExactly`).
- A message over 1020 bytes has a wrong length byte. With a cookie of 993 to 996 bytes the client sends a request
  whose header announces no words, and the converter never joins it (`Redirect.CookieBounds`,
  `EndToEnd.AcceptJoinsExactly`).
- Peeking leaves a bare, bad or short header on the stream (`ReadOpts.PeekEquivalence`).
- The converter dials over IPv4 whatever text stands behind the last colon of the address. It reaches the address
  asked for exactly when that is IPv4 or IPv4-mapped; for `2001:db8::` the text is empty, which is the converter's own
  host, and for `2001:db8::5` it is `5` (`AddressText.DialsWantedExactly`, `AddressText.HostCases`,
  `AddressText.UnmappedHosts`).
- A second `connect` while the reply is outstanding drops the state without reading the reply. Reply bytes reach the
  application exactly when such a `connect` ran and the application then received (`Redirect.ReplyLeaksExactly`).
  Before anything has come back, application bytes follow the request exactly when such a `connect` ran and the
  application then sent (`Redirect.DataFollowsRequestExactly`), and the converter's second receive may go on into
  them by one word. It then hangs exactly if that word has length zero, and breaks its pairs exactly if the word's
  type is unknown and the destination answers; a word of a known type is lost, and a Connect or less than a word
  makes the request fail (`PyCodec.RequestInPieces`, `EndToEnd.PendingCanBeAccepted`,
  `EndToEnd.SecondConnectBreaksConverter`). `EndToEnd` allows every such call, and leaves out only the accepts that
  hang or break the converter.
- A request that reaches the server in pieces is accepted exactly when 24 bytes of it came in, the Connect alone, or
  at least 28, a cut inside the cookie at worst; the rest of the cookie is then taken for application data
  (`PyCodec.RequestInPieces`, `EndToEnd.AcceptJoinsExactly`). The destination gets the application's bytes from
  the first one on and no others exactly when the converter took the request and no more, as it must have without a
  cookie and a second `connect` (`EndToEnd.Transparency`).
- A request of which only the header has come in is neither served nor closed: the client hangs until the server's
  forgotten socket is collected (`Conversation.AnyForgotten`).
- An element of length zero, whatever its type, hangs the converter's walk, and nothing else does
  (`PyCodec.EndlessExactlyAtZeroLength`).
- In the converter a successful Connect followed by another Connect or by an unknown type leaves a socket watched
  twice or watched and closed (`Converter.AcceptKeepsExactly`, `Converter.RunsKeepPairingAndBytes`).
- One batch of ready sockets, the listener among them or not, crashes the loop exactly when it holds both halves of a
  pair and the earlier one ends the connection (`Converter.BatchCrashesExactly`).
- The C headers name draft 05 and the server names RFC 8083; the magic number and the layouts are those of RFC 8803.

## Model

| member | source | states |
|---|---|---|
| EndToEnd.Transparency | lib_convert/convert_client.c:279-476 | Over every run of any number of clients, second connects and clients without the library among them, with requests cut anywhere: for each connection whose Connect the converter accepted, the host dialled is the one asked for if and only if that is IPv4 or IPv4-mapped, whatever names resolve to; bytes the application received are a prefix of those the destination sent, behind the reply if it has connected again while that was outstanding; bytes delivered to the destination are a prefix of what the converter left of the request and of those the application sent, which is the latter alone if and only if the converter took the request and no more, as it always has without a cookie and a second connect |
| EndToEnd.HandshakeIsExact | 5GTC/pkg/convert.py:55-84 | In every reachable state what can be read before the accept is the request, followed by application bytes if and only if the client has connected again and sent some; the request alone reads as a request, and only a word of those bytes hangs the element walk; the converter's two receives take more than the request only then, and by one word; the client takes off the reply to the byte, at most once, or never if it has connected again |
| EndToEnd.AcceptJoinsExactly | 5GTC/main.py:103-160 | A pending client whose destination answers is joined if and only if its cookie is absent or at most 992 bytes, 24 or at least 28 bytes came in, and any data among them is one whole word that is no Connect; exactly those bytes are taken |
| EndToEnd.PendingCanBeAccepted | 5GTC/main.py:84-124 | Given two new descriptors and a destination that answers, a pending request neither hangs the converter nor breaks its pairs, if and only if the second receive did not take a whole word of data that is no Connect and is of length zero or unknown type; without a second connect it never does |
| EndToEnd.UpsetsExactly | 5GTC/main.py:115-124 | The same condition, whether the destination answers or not, for any request read as pending ones are |
| EndToEnd.SecondConnectBreaksConverter | lib_convert/convert_client.c:389-424 | Connect, connect again, send a word such as ABCD: every step is possible, the request reads as a Connect and an element of unknown type, and accepting it leaves the client watched although it is closed, or watched twice |
| EndToEnd.StepKeeps | 5GTC/main.py:78-213 | Each socket call, arrival, accept, forward, cleanup and destination step, and each accept and forward for clients without the library, keeps the whole composed invariant |
| EndToEnd.PendingRequest | lib_convert/convert_client.c:181-253 | What the converter reads of a pending client is one Connect for the wanted target, then at most a cookie and at most one word of data, and what has not come in stays behind, if and only if the request fits its length byte, 24 or at least 28 bytes came in and data among them is an element; otherwise no Connect at all |
| EndToEnd.WrittenRequestServed | 5GTC/main.py:103-160 | Every request the C writer can send, any options with a Connect and a message of at most 1020 bytes, is read whole, none of its elements upsets the server, and with a destination that answers accepting it routes client and destination to each other |
| EndToEnd.UpstreamDelivers | 5GTC/main.py:168-189 | From every reachable state in which a joined pair is still up there are steps after which the destination has got all the client sent behind what the converter took: the prefix of the transparency result is attained |
| EndToEnd.DownstreamDelivers | lib_convert/convert_client.c:436-455 | And steps after which an application that still has its socket has got all the destination sent, behind the reply if it has connected again |
| Conversation.AnyConversation | 5GTC/main.py:78-213 | From every state with the invariant there is a run for any destination address, any cookie of at most 992 bytes, and any data either way: the octets of the request go out, the server dials the host and port it makes of the target, the destination gets exactly what the application sends and the application exactly what the destination sends, and after the client has closed the converter has closed both ends; no other connection changes |
| Conversation.AnyRefusal | 5GTC/main.py:139-145 | And one for any destination that does not answer: the converter closes the client, whose receive then returns with nothing and gives the socket up, having sent the request and no more |
| Conversation.AnyForgotten | 5GTC/pkg/convert.py:55-84 | And one in which only the header has come in at the two receives: the client is neither served nor closed, no receive of its application returns until the server's forgotten socket is collected, and then it gives nothing |
| Conversation.FailedCall | lib_convert/convert_client.c:436-476 | A send or receive on a tracked socket whose first receive fails returns at once, whatever has arrived, and nothing changes |
| Conversation.AnyForeign | 5GTC/main.py:103-189 | And one for a client without the library: paired with its destination, given the reply, and its bytes forwarded, with nothing of the other clients changed |
| Parser.TakeTlv | lib_convert/convert_util.c:86-183 | One turn of the element loop on the caller's buffer is the byte-level step, five outcomes and bounds included |
| Parser.ConvertParseTlvs | lib_convert/convert_util.c:74-194 | The loop in place, stopped after any number of turns, is exactly the step function run that often |
| Parser.AcceptsExactlyEncodings | lib_convert/convert_util.c:79-189 | The accepted buffers are exactly the encodings of non-empty element lists of the grammar, and the options are their meaning |
| Parser.DivergesExactlyAtZeroLengthError | lib_convert/convert_util.c:94-113 | The loop never ends if and only if well-formed elements lead it to an Error of length zero |
| Parser.TerminatesExactly | lib_convert/convert_util.c:86-187 | Unless it reaches such an Error one turn per started word always suffices; if it does, no number of turns does |
| Parser.RunNeverFinishes | lib_convert/convert_util.c:86-113 | A diverging input is still running under every budget |
| Parser.ParseComposes | lib_convert/convert_util.c:86-187 | After an accepted front, the outcome is that of the back, whose fields override those of the front |
| Parser.ElementsOfEncoding | lib_convert/convert.h:68-113 | The grammar is unambiguous: cutting an encoding into elements gives back the list encoded |
| Parser.ElementsSplit | lib_convert/convert_util.c:86-187 | Any buffer is its well-formed elements followed by the place where the loop accepts, rejects or sticks |
| Wire.EncodingIs | lib_convert/convert.h:68-113 | The octets of each of the four elements, types 10, 20, 22 and 30, field by field |
| Wire.LastDecides | lib_convert/convert_util.c:86-187 | Of each type the last element decides what the options say, whatever they were before |
| Wire.FlagSetExactly | lib_convert/convert_util.c:86-187 | A flag is set exactly if it was before or an element of its type is there |
| Writer.WriteConnect | lib_convert/convert_util.c:203-218 | Succeeds if and only if 20 bytes fit; then port and address stand at their offsets and every other byte is unchanged |
| Writer.WriteError | lib_convert/convert_util.c:220-233 | Succeeds if and only if 4 bytes fit; writes the code and nothing else |
| Writer.WriteOpaque | lib_convert/convert_util.c:235-269 | Succeeds if and only if the aligned element fits; then four zeros, the data and zero padding stand there and every other byte is unchanged |
| Writer.WriteTlvs | lib_convert/convert_util.c:310-341 | On any buffer, succeeds if and only if no Info or Supported flag is set and all elements fit; then the elements stand in flag order, but for the last byte of an Error, which nothing writes, and every byte before and behind them is unchanged |
| Writer.ConvertWrite | lib_convert/convert_util.c:343-367 | Succeeds if and only if no Info or Supported flag is set and 4 plus the aligned sizes fit; then the prefix is the message and every trailing byte is zero |
| Writer.MessageSizeIsLength | lib_convert/convert_util.c:204-269 | The message is as long as the header plus the aligned sizes of the flagged elements |
| RoundTrip.CodecRoundTrip | lib_convert/convert_util.c:40-367 | Parsing a written message of at most 1020 bytes gives the flagged fields back with data padded to whole words, and writing those gives the same bytes |
| RoundTrip.NormalForm | lib_convert/convert_util.c:86-367 | The options of any accepted buffer up to 1016 bytes can be written in no more room, and the written form parses to the same options |
| RoundTrip.BodyIsEncoding | lib_convert/convert_util.c:271-341 | What the writer emits after the header is the grammar's encoding of the flagged elements in flag order |
| RoundTrip.LengthByteFaithfulExactly | lib_convert/convert_util.c:363-364 | The one-byte total length is right if and only if the message is at most 1020 bytes |
| RoundTrip.EmptyMessage | lib_convert/convert_util.c:79-80 | Without a writable flag the message is the bare header and there are no options to parse |
| RoundTrip.HeaderExactly | lib_convert/convert_util.c:40-62 | A header is accepted exactly if it is four bytes, the first 1 and the last two 0x22 0x63; the length announced is four times the second byte less four, wrapped around if that is zero |
| RoundTrip.MessageIsOctets | lib_convert/convert_util.c:196-367 | The octets of every message: fixed header, Connect, Extended TCP Header, Cookie and Error in this order, each if its flag is set, opaque data padded with zeros to whole words |
| Bytes.AlignIsLeastMultiple | lib_convert/convert_util.h:49-51 | The aligned size is the least multiple of 4 not below its argument, and aligning is idempotent |
| Bytes.AlignMaskExact | lib_convert/convert_util.h:50-50 | The bit mask of the macro, in 64-bit arithmetic, computes the aligned size for every size but the three whose padding overflows, and 0 for those |
| ReadOpts.ReadConvertOpts | lib_convert/convert_util.c:369-431 | The receives on the socket give the result and leave the stream that the three members below determine byte by byte, for both modes and for each receive failing |
| ReadOpts.ReadsExactly | lib_convert/convert_util.c:369-431 | For every stream, in either mode: success without elements if and only if it starts with 1 1 0x22 0x63; options, or an error, if and only if it starts with a header and the encoding of a non-empty list of at most 1016 bytes it announces, without or with an Error; no end if and only if whole elements lead to an Error of length zero; malformed or undefined otherwise, the latter if and only if it starts with 1 0 0x22 0x63 |
| ReadOpts.CarriedResult | lib_convert/convert_util.c:407-428 | What such a message comes to: the meaning of its elements or the code of its last Error, and exactly the bytes behind it are left |
| ReadOpts.FailedReceive | lib_convert/convert_util.c:376-405 | What is reported when the first or the second receive fails |
| ReadOpts.LeavesExactly | lib_convert/convert_util.c:369-431 | How many bytes are taken off every stream, whatever it holds and whichever receive fails |
| ReadOpts.PeekEquivalence | lib_convert/convert_util.c:369-431 | Peeking never changes the result, whichever receive fails, and leaves the same stream if and only if the first receive failed, the stream is empty, or neither receive failed and the stream starts with a good header of at least two words |
| ReadOpts.ReadsWholeMessage | lib_convert/convert_util.c:394-428 | On a whole message of at least two words both modes judge its elements and consume exactly four times its total length |
| ReadOpts.ReadBackWritten | lib_convert/convert_util.c:343-431 | A written message read back gives its options, or its error code if it carries one, and leaves what follows untouched |
| PyCodec.WalkTlvs | 5GTC/pkg/convert.py:68-84 | The offset loop ends where the path of offsets of the next row says, with the elements on it, or is reported as never ending |
| PyCodec.WalkExactly | 5GTC/pkg/convert.py:68-83 | Every buffer has a path of offsets, each the last plus four times a length byte; the walk gives the fields of the elements on it if it passes the end of the data, raises if it stops in front of too few bytes, and never ends if it stops at a length of zero |
| PyCodec.ReadConvertHeader | 5GTC/pkg/convert.py:55-84 | Two receives, each of what has arrived by then, and a walk: the request found and the bytes left on the socket |
| PyCodec.RequestExactly | 5GTC/pkg/convert.py:55-84 | What the two receives take of every stream and what they find, by how many bytes were there; version and magic number make no difference |
| PyCodec.KnownTypes | 5GTC/pkg/convert.py:5-12 | An element has a name exactly if its type is 0x01, 0x0a, 0x14, 0x15, 0x16 or 0x1e |
| PyCodec.ParsersAgree | 5GTC/pkg/convert.py:68-83 | On every buffer the C parser accepts, the walk finds the same elements at the same boundaries and its last Connect names the target the C parser reports |
| PyCodec.LengthRulesAgree | 5GTC/pkg/convert.py:48-49 | The server's length rule and the client's give the same byte if and only if the message is at most 1020 bytes |
| PyCodec.RequestRead | 5GTC/pkg/convert.py:56-62 | A written request that is all there is read whole, and the second receive takes bytes behind it if and only if there are any, at most four |
| PyCodec.RequestInPieces | 5GTC/pkg/convert.py:55-84 | For every request of at most 1020 bytes with any data behind it and any number of bytes at each receive, what is found and what stays on the socket; its Connect is found if and only if 24 or at least 28 bytes came in and any data among them is a whole word that is no Connect and not of length zero |
| PyCodec.EndlessExactlyAtZeroLength | 5GTC/pkg/convert.py:68-82 | The walk never ends if and only if a path of whole elements leads its offset to an element of length zero whose fixed fields are there |
| PyCodec.ReplyReadsExactly | 5GTC/main.py:148-149 | The server's empty Convert header is a whole message to the client, which consumes exactly it |
| PyCodec.ReplyOctets | 5GTC/main.py:148-149 | The reply is the four octets 1, 1, 0x22, 0x63 |
| AddressText.MappedAddressRoundTrip | lib_convert/convert_client.c:168-179 | An IPv4 target mapped into IPv6, printed and cut at the last colon is its dotted quad, and reads back as the same four bytes |
| AddressText.HostCases | 5GTC/pkg/convert.py:87-88 | What is left of any printed address: a dotted quad, nothing at all behind a trailing run of zeros, or the last 16 bits in hexadecimal |
| AddressText.DialsWantedExactly | 5GTC/main.py:137-140 | Whatever names stand for, the host the converter dials resolves to the 16 bytes asked for if and only if they are an IPv4-mapped address |
| AddressText.UnmappedHosts | 5GTC/main.py:137-140 | Two failing targets: 2001:db8:: is dialled as the empty host and 2001:db8::5 as the host 5 |
| AddressText.QuadRoundTrip | 5GTC/pkg/convert.py:87-88 | A dotted quad splits into the decimal numbers it was made of and contains no colon |
| AddressText.HexReads | 5GTC/pkg/convert.py:87-88 | A 16-bit word in hexadecimal reads back and has no leading zero |
| AddressText.ShortenedIsFirstLongest | 5GTC/pkg/convert.py:87-88 | The double colon stands for the first of the longest runs of zero words, if that has two at least |
| AddressText.EmbedsExactly | 5GTC/pkg/convert.py:87-88 | The last 32 bits are printed as a dotted quad exactly for these forms of the first 96, byte by byte |
| ListQueue.ListInsertHead | lib_convert/bsd_queue.h:451-457 | Refines prepending, back links included |
| ListQueue.ListRemove | lib_convert/bsd_queue.h:465-476 | Without the head, refines removal at any position |
| ListQueue.ChainUnique | lib_convert/bsd_queue.h:363-375 | The pointers behind a head determine the list |
| ListQueue.PrevAddressesSelf | lib_convert/bsd_queue.h:371-375 | Each back link addresses a pointer to its own element |
| SocketTable.Table.Lookup | lib_convert/convert_client.c:96-114 | Gives the state of the descriptor, or null if and only if there is none |
| SocketTable.Table.Alloc | lib_convert/convert_client.c:116-133 | Inserts one new state for the descriptor, or nothing when malloc fails, and leaves every other bucket as it was |
| SocketTable.Table.FreeState | lib_convert/convert_client.c:135-143 | Deletes exactly that state from the map and leaves every other bucket as it was |
| SocketTable.Table.Free | lib_convert/convert_client.c:145-158 | Deletes the descriptor from the map, tracked or not |
| SocketTable.PlacedRemove | lib_convert/convert_client.c:90-94 | Removal keeps every node in the bucket of its descriptor, once |
| TableProtocol.TableIsSafe | lib_convert/convert_client.c:96-158 | Over every run: no thread reads, unlinks or frees a state it must not, every tracked descriptor is open with exactly one state, and no state leaks |
| TableProtocol.FaultsExactly | lib_convert/convert_client.c:96-158 | In any state, safe or not, a step is recorded as a fault if and only if it links, reads, unlinks or frees a state that is freed, of another descriptor, not in its bucket, or still in it |
| TableProtocol.LookedUpStaysLinked | lib_convert/convert_client.c:374-476 | A pointer returned by the lookup stays linked with its descriptor until its own thread unlinks it or ends the call |
| TableProtocol.LookupIsExact | lib_convert/convert_client.c:96-114 | In every reachable state the lookup finds the state of a tracked descriptor and nothing otherwise, reading only allocated memory |
| TableProtocol.UnlinkStep | lib_convert/convert_client.c:135-140 | A thread's unlink finds the state linked, leaves it unlinked, and keeps the invariant |
| TableProtocol.FreeStep | lib_convert/convert_client.c:142-143 | A thread's free finds the state allocated, leaves it freed, and keeps the invariant |
| TableProtocol.ReleaseCompletes | lib_convert/convert_client.c:135-158 | A call that gives up its state, run through from any reachable state: the descriptor has no state, and it is open exactly if the call was not close |
| TableProtocol.SocketTracks | lib_convert/convert_client.c:116-133 | socket run through while malloc gives memory: the new descriptor is open and has its state in the table |
| TableProtocol.SocketUntracked | lib_convert/convert_client.c:116-133 | And when malloc gives none: open, and without a state |
| TableProtocol.OtherSocketUntracked | lib_convert/convert_client.c:265-275 | A socket of another kind is open and has no state |
| TableProtocol.KeepingCall | lib_convert/convert_client.c:389-424 | A call that looks its state up, reads it and keeps it, run through: table, memory and descriptors are as before |
| TableRefinement.InsertInStep | lib_convert/convert_client.c:128-132 | The table's own insertion and the protocol's insert step take a table and a state that represent each other to such a pair again, without a fault |
| TableRefinement.UnlinkInStep | lib_convert/convert_client.c:138-140 | So do the table's removal and the protocol's unlink step |
| TableRefinement.LookupInStep | lib_convert/convert_client.c:96-114 | The table's lookup returns the node at the address the protocol's lookup finds, or null if it finds none |
| TableRefinement.OtherStepsRefine | lib_convert/convert_client.c:116-158 | Every other step of the protocol leaves the state representing the same table |
| TableRefinement.InitRepresents | lib_convert/convert_client.c:79-79 | The empty table represents the protocol's first state |
| Redirect.HandshakeFromStart | lib_convert/convert_client.c:255-476 | Over any sequence of calls and arrivals: out go the request and then application bytes, in come the reply and then application bytes, one reply at most, and nothing of the application while the socket is tracked |
| Redirect.LifeFollowsCalls | lib_convert/convert_client.c:374-476 | The record of a socket's life changes exactly as the interposed connect, send and recv do: request octets, data sent and received, bytes removed as reply and number of replies |
| Redirect.ReleasedForGood | lib_convert/convert_client.c:349-367 | A released socket is never tracked again and loses no more bytes to the handshake |
| Redirect.CookieBounds | lib_convert/convert_client.c:187-231 | The request is written if and only if the cookie is at most 996 bytes, is faithful if and only if it is at most 992, and announces no words in between |
| Redirect.RequestIsWire | lib_convert/convert_client.c:181-253 | The octets of the request for every destination and cookie: header, Connect with the port and the IPv6 or IPv4-mapped address, and the configured cookie padded to whole words |
| Redirect.RequestParses | lib_convert/convert_client.c:181-231 | The C parser gives back exactly the port, the 16 bytes of the address, the padded cookie and no other flag, for every cookie of at most 992 bytes |
| Redirect.WrittenExactly | lib_convert/convert_client.c:187-231 | A request goes out exactly for IPv4 and IPv6 destinations with no cookie or one of at most 996 bytes |
| Redirect.ReplyExactly | lib_convert/convert_client.c:279-372 | For every stream and fault: the call goes on exactly after the bare header 1 1 0x22 0x63 or a whole message without an Error, never comes back exactly after a zero-length Error or a header of length zero, and is skipped otherwise; every outcome but the failed first receive and the call that never comes back releases the socket |
| Redirect.SendExactly | lib_convert/convert_client.c:457-476 | The bytes go out if and only if the socket was untracked or such a reply was there |
| Redirect.RecvExactly | lib_convert/convert_client.c:436-455 | Bytes come back under the same condition, the first ones behind the reply |
| Redirect.ConnectExactly | lib_convert/convert_client.c:374-425 | A connect adds exactly the octets of the request, and then has the outcome of its reply, if the socket is tracked, the request can be written and the converter takes it; otherwise it gives the socket up and leaves the call alone |
| Redirect.ConverterReply | lib_convert/convert_client.c:279-354 | The converter's reply releases the socket and leaves exactly what the destination sent |
| Redirect.ReplyLeaksExactly | lib_convert/convert_client.c:374-455 | Over every run of a socket on which the converter sends its reply and then data: reply bytes reach the application if and only if it connected again with its request out and the reply unread and received something after that; then it reads the stream from its first byte, and otherwise a prefix of the data |
| Redirect.DataFollowsRequestExactly | lib_convert/convert_client.c:374-476 | Over the same runs, as long as nothing has come back: the socket carries more than the request if and only if it connected again with its request out and then sent |
| Redirect.SecondConnectThenSend | lib_convert/convert_client.c:389-476 | Such a run: connect, connect again, send puts any data straight behind the request |
| Redirect.SecondConnectLeaksReply | lib_convert/convert_client.c:389-424 | A second connect with the reply outstanding, refused or of another family, makes the application read the reply, whether it is there already or comes later |
| ConvertClient.Library.Socket | lib_convert/convert_client.c:255-275 | A new descriptor is tracked exactly if its domain is AF_INET or AF_INET6, its kind SOCK_STREAM, its protocol MPTCP and malloc succeeds; nothing else changes |
| ConvertClient.Library.ReadConvert | lib_convert/convert_client.c:279-372 | Over the real table and buffers: goes on exactly after a good reply, is stuck exactly after a stuck one, takes exactly those bytes, releases the state unless the first receive failed, and touches no other socket |
| ConvertClient.Library.Connect | lib_convert/convert_client.c:374-425 | Over the real table and the in-place writer: the octets of the request are added to what was sent exactly if the socket is tracked, the request can be written and the converter takes it; the reply then decides, and no other socket is touched |
| ConvertClient.Library.Send | lib_convert/convert_client.c:457-476 | A tracked socket has its reply read first; the bytes are added to what was sent exactly if it was untracked or the reply is good |
| ConvertClient.Library.Recv | lib_convert/convert_client.c:436-455 | A tracked socket has its reply read first; bytes come back, those next in the queue, exactly if it was untracked or the reply is good |
| ConvertClient.Library.Close | lib_convert/convert_client.c:427-434 | The state and the descriptor are gone, and nothing else |
| TailQueue.InsertHead | lib_convert/bsd_queue.h:628-639 | Refines prepending, tail pointer included |
| TailQueue.InsertTail | lib_convert/bsd_queue.h:641-649 | Refines appending |
| TailQueue.InsertAfter | lib_convert/bsd_queue.h:603-616 | Refines insertion behind any element |
| TailQueue.InsertBefore | lib_convert/bsd_queue.h:618-626 | Refines insertion in front of any element, without the head |
| TailQueue.Remove | lib_convert/bsd_queue.h:659-675 | Refines removal at any position, tail pointer included |
| TailQueue.Concat | lib_convert/bsd_queue.h:542-551 | Refines concatenation of any two queues and empties the second |
| TailQueue.Swap | lib_convert/bsd_queue.h:677-692 | Refines exchange of any two queues, empty ones included |
| TailQueue.Last | lib_convert/bsd_queue.h:651-652 | The two loads through the shared layout give the last element, or null if the queue is empty |
| TailQueue.Prev | lib_convert/bsd_queue.h:656-657 | The same two loads give the predecessor, or null in front of the first |
| TailQueue.ForeachReverse | lib_convert/bsd_queue.h:577-580 | The backward walk visits the exact reverse of the sequence |
| TailQueue.Foreach | lib_convert/bsd_queue.h:557-560 | The forward walk visits the sequence |
| TailQueue.QueueUnique | lib_convert/bsd_queue.h:491-506 | The pointers behind a head determine the queue |
| TailQueue.QueuesApart | lib_convert/bsd_queue.h:491-506 | No element is linked from two queues |
| STailQueue.InsertHead | lib_convert/bsd_queue.h:302-306 | Refines prepending, tail pointer included |
| STailQueue.InsertTail | lib_convert/bsd_queue.h:308-312 | Refines appending |
| STailQueue.InsertAfter | lib_convert/bsd_queue.h:296-300 | Refines insertion behind any element |
| STailQueue.RemoveHead | lib_convert/bsd_queue.h:340-344 | Refines dropping the first element |
| STailQueue.RemoveAfter | lib_convert/bsd_queue.h:334-338 | Refines removing a successor |
| STailQueue.Remove | lib_convert/bsd_queue.h:320-332 | Refines removal of any member; the search for its predecessor ends |
| STailQueue.Concat | lib_convert/bsd_queue.h:259-265 | Refines concatenation and empties the second queue |
| STailQueue.Swap | lib_convert/bsd_queue.h:346-357 | Refines exchange, empty queues included |
| STailQueue.QueueUnique | lib_convert/bsd_queue.h:242-254 | The pointers behind a head determine the queue |
| STailQueue.Last | lib_convert/bsd_queue.h:314-316 | The element around the final next field, or null if the queue is empty |
| Converter.AcceptKeepsExactly | 5GTC/main.py:103-160 | Accepting a connection keeps the pairing invariant if and only if nothing but ignorable elements follows a successful Connect |
| Converter.AcceptClosesExactly | 5GTC/main.py:88-124 | Whatever it asks for, an accepted client is left open, on the descriptor it was accepted on, if and only if its request was read and every element of it was ignored or connected |
| Converter.AcceptPairsExactly | 5GTC/main.py:126-160 | The pairs a request makes are exactly those of its Connects that the destination answers before anything has failed |
| Converter.AcceptRoutesExactly | 5GTC/main.py:151-160 | Under the invariant, for a request nothing but ignorable elements follows a successful Connect of: the client is routed exactly if a Connect was answered, then client and destination to each other, and both are watched |
| Converter.AcceptOpensExactly | 5GTC/main.py:136-145 | And those destinations are the only sockets it leaves open besides the client |
| Converter.ServedExactly | 5GTC/main.py:168-213 | Serving a watched socket: bytes go to its partner and nothing else changes; an end or a failed receive closes both halves, stops watching and routing them, and moves nothing; nobody else is touched |
| Converter.RunsKeepPairingAndBytes | 5GTC/main.py:78-213 | Over every run from an idle listener, with any requests: every state is in order if and only if in every accepted request nothing but ignorable elements follows a successful Connect. In order means no crash, routing a fixed-point-free involution between open descriptors, the watched sockets the listener and exactly the routed ones once each, and for every pair ever made the bytes sent on one side those received on the other, the client's preceded by the reply |
| Converter.RouteNeverChanges | 5GTC/main.py:156-213 | Over a run of such requests, as long as a socket is routed it is routed to its first partner: a reissued descriptor inherits nothing |
| Converter.BatchCrashesExactly | 5GTC/main.py:84-100 | Serving one batch of ready sockets, the listener's accepts among them with any requests, crashes if and only if it holds a socket after the end of its own partner |
| Converter.CleanupResult | 5GTC/main.py:191-213 | Under the invariant a cleanup raises nothing and removes exactly the pair from inputs, routes and open sockets |
| TCServer.Server.CleanupSocketPair | 5GTC/main.py:191-213 | The fields after the in-place cleanup show the cleaned-up value |
| TCServer.Server.ReadAndForward | 5GTC/main.py:168-189 | One ready socket: what was received goes to the partner in order, and both stay open and watched; an end or a failure closes both and stops watching both, and no other socket is touched |
| TCServer.Server.HandleTlvConnect | 5GTC/main.py:126-160 | The host dialled is what is left of the printed address; a destination that answers is paired after the reply, one that does not closes the client, and a closed client raises |
| TCServer.Server.HandleTlvs | 5GTC/main.py:115-124 | The loop over the elements, with its early exits, has the effect of the element-by-element function; an element is a Connect, has one of the six known types and is ignored, or raises |
| TCServer.Server.HandleConnection | 5GTC/main.py:103-124 | The elements handled are those of the bytes received from the client, whose queue keeps what the two receives left; a walk that never ends is reported |
| TCServer.Server.AcceptClient | 5GTC/main.py:88-97 | One turn of the listener has the effect of accepting that client with the request its bytes spell; its descriptor is then still open if and only if the walk hung, or the request was read and every element of it is of a known type and, if a Connect, was answered |

## Left out

- Real sockets, `dlsym`, `errno`, `SO_LINGER`, environment, sysctl and kernel version checks: the kernel is new descriptors, ordered byte streams and ends of stream; receives that fail are parameters.
- Numeric return values of `connect`: the library returns its own SYSCALL constants there; the model states what the call does to the socket.
- Negative descriptors: `close(-1)` would index a bucket below the table; descriptors are taken to be at least 0.
- The kernel's part of the bargain is assumed: it never returns a descriptor that is open, each descriptor is used by one thread at a time, and it refuses to connect a connected socket. An address of family AF_UNSPEC, which would disconnect it, counts as any other family.
- Non-blocking sockets: in `EndToEnd` a blocking `connect` either reaches the converter or does not; applications that bypass `send` and `recv` are not intercepted by the library either.
- The request is one `send` of at most 1024 bytes that the kernel takes whole; `send` in the server takes a whole chunk and does not fail.
- A `connect` that reaches the converter whose request then fails to go out: the socket stays connected, and what the application sends next arrives there as a request of its own. `Redirect` gives the socket up as the library does, and `EndToEnd` has no connection for it.
- Accepts that hang the converter or break its pairs: `EndToEnd` says exactly which those are and goes no further.
- How long a receive blocks: it returns some number of the bytes that have been sent, which in the server is a parameter of each receive, none of them included.
- Out of memory: `malloc` refuses only wrapped sizes in the codec and is a free choice in the table; parsed options that are overwritten by a later element leak and the model does not count them.
- A header with total length zero makes the C readers ask for a buffer of 2^64 - 4 bytes; the model stops there with the outcome `Undefined`.
- `read_convert_opts` on a bare header returns a pointer it never set; the model calls that outcome `NoTlvs` and says nothing of the pointer.
- Scapy: elements are read at fixed positions, and data shorter than the fixed fields is one outcome. Addresses print as the C library's `inet_ntop` prints them; looking a host name up is a parameter.
- Performance loggers, the web UI, the database, plotting, MPTCP helpers, evaluation scripts and the deprecated second codec: I/O over libraries, or the same algorithm again.
- SLIST macros, LIST insertion elsewhere than at the head, and the `_FROM` and `_SAFE` loops: easy variants of what is here.
- Debug tracing and kernel panics of `bsd_queue.h`: compiled out.
- Redirect.HandshakeFromStart: of a socket whose reply made the element loop hang it does not say how many bytes were taken, because that call never returns.
- STailQueue.Concat: asks that the two queues share no element, which one-way links cannot rule out by themselves; TailQueue.Concat proves it.
