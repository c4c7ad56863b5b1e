# Echo network: a verified model of its framing protocol and bookkeeping

The echo network is a test bed for Off-the-Record (OTR) messaging. Clients
connect to a relay server and exchange messages. Each message is an address
and a content, and each of the two is sent as a length-prefixed frame:
4 bytes of big-endian unsigned length, then the payload. The relay rewrites
the address to the sender's id and forwards the message. An echo client
answers every message it can decrypt. The repository holds:

- three implementations of the frame codec:
  - the Java `protocol` module;
  - the Rust client `client-otrr`;
  - the early draft in package `otr4jechoserver`;
- string and integer helpers (`Strings`, `Integers`, `StringBuilders`);
- two command-line parsers for lines `address[#tag] content`, one in Java
  and one in Rust, plus the Rust `handle`, which maps an engine result to
  an (instance tag, content) pair that its caller discards;
- the relay server and the draft's frame-echo server;
- client-side bookkeeping around the OTR engine:
  - the draft's session directory;
  - the otr4j host's bounded action queue;
  - the otr4j echo client's main loop.

The model is functional. An input stream is a sequence of non-empty byte
chunks, and one `read` returns at most the rest of the current chunk. An
output stream is a `Sink` that records the bytes written, whether it was
flushed, and whether the socket is still open. The OTR engine is not part of
this model: its operations (`transformReceiving`, `transformSending`,
`getInstance`, `respondSmp`) are function parameters, so every property
holds for any engine. Java exceptions and Rust errors are `Failure` values.

Modules, one per source unit:

- `Bytes` and `Numerals`: byte strings as big-endian numbers, decimal
  numerals, and the library parsers.
- `Streams`: the chunked input stream and the output sink.
- `EchoProtocol`, `RustProtocol`, `DraftProtocol`: the three codecs.
- `Strings`, `Integers`, `StringBuilders`: the helpers.
- `JavaStdinClient`, `RustStdinClient`: the command-line clients.
- `Utf8`: the well-formedness check Rust's `read_line` makes.
- `Relay`, `DraftEchoServer`: the servers.
- `Sessions`, `Host`, `EchoClient`: the client bookkeeping.

Wire text (addresses, contents, session-id fields) is modelled as bytes.
The helpers in `Strings`, `Integers` and `StringBuilders` work on `string`,
a sequence of Unicode scalar values, where Java's `String` is a sequence of
UTF-16 code units; the two agree on text without supplementary characters
(those above U+FFFF), as the Left out lines for the index-based helpers say.
`Strings.Cut` is generic in the element type, so the line parsers reuse it
on bytes.

## Model

| member | source | states |
|---|---|---|
| Bytes.Encode | client-otrr/src/protocol.rs:19 | the big-endian encoding of a value below 256^w has exactly w bytes and denotes that value |
| Bytes.EncodeValue | client-otrr/src/protocol.rs:26 | decoding and re-encoding any byte string gives the same bytes (`from_be_bytes` inverts `to_be_bytes`) |
| Bytes.ValueInjective | protocol/src/main/java/nl/dannyvanheumen/echonetwork/protocol/EchoProtocol.java:104-106 | two byte strings of equal length that denote the same number are equal |
| Bytes.IntValue | protocol/src/main/java/nl/dannyvanheumen/echonetwork/protocol/EchoProtocol.java:105 | `intValue` keeps the low 32 bits as a signed int: congruent to the number modulo 2^32, negative exactly when bit 31 is set |
| Bytes.ToByteArray | protocol/src/main/java/nl/dannyvanheumen/echonetwork/protocol/EchoProtocol.java:97 | `BigInteger.toByteArray` of a non-negative number is its shortest two's-complement form: it denotes the number and its sign bit is clear |
| Bytes.ToByteArrayLength | protocol/src/main/java/nl/dannyvanheumen/echonetwork/protocol/EchoProtocol.java:97-100 | a number below 2^31 needs at most 4 bytes, so the copy into the 4-byte prefix never truncates |
| Streams.Read | protocol/src/main/java/nl/dannyvanheumen/echonetwork/protocol/EchoProtocol.java:78 | one `read` of n > 0 bytes returns -1 exactly at the end of the stream and otherwise between 1 and n bytes; a short read returns exactly the current chunk; what it returns is a prefix of the stream |
| Streams.ReadExact | client-otrr/src/protocol.rs:25 | `read_exact` succeeds exactly when the stream still holds n bytes, and then returns the first n of them and leaves the rest |
| EchoProtocol.EncodeLength | protocol/src/main/java/nl/dannyvanheumen/echonetwork/protocol/EchoProtocol.java:93-102 | a negative length is an IllegalArgumentException; any other int gives exactly 4 bytes |
| EchoProtocol.ParseLength | protocol/src/main/java/nl/dannyvanheumen/echonetwork/protocol/EchoProtocol.java:104-106 | the 4 bytes read as a signed 32-bit int: negative exactly when the first byte is 128 or more |
| EchoProtocol.ParseEncodeLength | protocol/src/main/java/nl/dannyvanheumen/echonetwork/protocol/EchoProtocol.java:93-106 | parsing the encoded length of any non-negative int gives the int back |
| EchoProtocol.EncodeLengthIsBigEndian | protocol/src/main/java/nl/dannyvanheumen/echonetwork/protocol/EchoProtocol.java:93-102 | the detour through `BigInteger` gives the plain 4-byte big-endian encoding that the Rust and draft codecs write |
| EchoProtocol.Frame | protocol/src/main/java/nl/dannyvanheumen/echonetwork/protocol/EchoProtocol.java:88-91 | a frame is 4 + n bytes long, its prefix denotes n, and the payload follows unchanged |
| EchoProtocol.ReadValue | protocol/src/main/java/nl/dannyvanheumen/echonetwork/protocol/EchoProtocol.java:76-86 | on a stream that itself never fails, every failure is a ProtocolException or NegativeArraySizeException; on success the bytes consumed are exactly the frame of the value returned |
| EchoProtocol.ReadValueWholeFrame | protocol/src/main/java/nl/dannyvanheumen/echonetwork/protocol/EchoProtocol.java:76-86 | a frame whose prefix and payload each arrive within one chunk reads back as its payload, leaving the rest of the stream |
| EchoProtocol.EmptyValue | protocol/src/main/java/nl/dannyvanheumen/echonetwork/protocol/EchoProtocol.java:76-101 | the empty payload is framed as `00 00 00 00` and reads back as the empty value |
| EchoProtocol.EofIsProtocolError | protocol/src/main/java/nl/dannyvanheumen/echonetwork/protocol/EchoProtocol.java:76-80 | end of stream at a frame boundary is a ProtocolException, not a clean end |
| EchoProtocol.ShortLengthRead | protocol/src/main/java/nl/dannyvanheumen/echonetwork/protocol/EchoProtocol.java:78-80 | a chunk that holds only 1 to 3 bytes of the prefix fails the read, with no retry |
| EchoProtocol.SplitPayloadFails | protocol/src/main/java/nl/dannyvanheumen/echonetwork/protocol/EchoProtocol.java:81-84 | a payload split across two chunks fails the read even though every byte arrives |
| EchoProtocol.TopBitUnreadable | protocol/src/main/java/nl/dannyvanheumen/echonetwork/protocol/EchoProtocol.java:81 | a prefix with its top bit set fails with NegativeArraySizeException, so lengths of 2^31 and more are unreadable |
| EchoProtocol.ReceiveMessage | protocol/src/main/java/nl/dannyvanheumen/echonetwork/protocol/EchoProtocol.java:37-43 | a message is an address value followed by a content value: on a stream that itself never fails it fails only with a ProtocolException or NegativeArraySizeException, and on success it consumes exactly the address frame and then the content frame, at least 8 bytes |
| EchoProtocol.ReceiveFramePerChunk | protocol/src/main/java/nl/dannyvanheumen/echonetwork/protocol/EchoProtocol.java:37-43 | an address frame and a content frame arriving in one chunk each are received as one message |
| EchoProtocol.WriteParts | protocol/src/main/java/nl/dannyvanheumen/echonetwork/protocol/EchoProtocol.java:68-71 | the loop writes exactly the reference sequence of (address, part) frame pairs, in order |
| EchoProtocol.SendMessage | protocol/src/main/java/nl/dannyvanheumen/echonetwork/protocol/EchoProtocol.java:65-74 | sending k parts appends k frame pairs, repeating the address before every part, and flushes; for k >= 1 a closed socket is an IOException and nothing is written, while for k = 0 only the no-op `flush` runs and the call succeeds even on a closed socket |
| EchoProtocol.SendOne | protocol/src/main/java/nl/dannyvanheumen/echonetwork/protocol/EchoProtocol.java:52-54 | sending a `Message` writes its address frame and then its content frame |
| EchoProtocol.ReceiveFirstPart | protocol/src/main/java/nl/dannyvanheumen/echonetwork/protocol/EchoProtocol.java:65-74 | the first message the peer receives from a multi-part send is the address with the first part |
| EchoProtocol.ReceiveSentMessage | protocol/src/main/java/nl/dannyvanheumen/echonetwork/protocol/EchoProtocol.java:37-74 | round trip: when the bytes that sending a message wrote arrive at the head of one chunk, receiving gives the message back and leaves the rest of the stream |
| EchoProtocol.GenerateLocalID | protocol/src/main/java/nl/dannyvanheumen/echonetwork/protocol/EchoProtocol.java:115-117 | the local id is the local host, a ':' and the decimal local port; the port can be read back from it |
| EchoProtocol.GenerateRemoteID | protocol/src/main/java/nl/dannyvanheumen/echonetwork/protocol/EchoProtocol.java:126-128 | the remote id is the remote host, a ':' and the decimal remote port; the port can be read back from it |
| RustProtocol.WriteValue | client-otrr/src/protocol.rs:18-21 | the buffer keeps its old bytes, then gets 4 big-endian bytes of the length truncated to u32, then the payload |
| RustProtocol.WriteValueAppends | client-otrr/src/protocol.rs:18-21 | writing a value appends the same bytes whatever the buffer held before |
| RustProtocol.MessageBuffer | client-otrr/src/protocol.rs:4-7 | the message buffer is the address frame followed by the content frame |
| RustProtocol.MessageBufferLayout | client-otrr/src/protocol.rs:4-7 | the buffer is 8 + \|address\| + \|content\| bytes, with the content's prefix right after the address |
| RustProtocol.WriteMessage | client-otrr/src/protocol.rs:4-9 | one `write` of the whole buffer: on an open connection it returns the count the connection took, at most the buffer length, the full length exactly when the connection had room, and only that prefix of the buffer goes on the wire; a closed connection is BrokenPipe and nothing is written |
| RustProtocol.FullWriteRoundTrip | client-otrr/src/protocol.rs:4-30 | when the connection takes the whole buffer, the peer reads back the address and content, however the bytes are chunked |
| RustProtocol.ShortWriteFails | client-otrr/src/protocol.rs:4-30 | when the connection takes fewer bytes than the buffer holds, `write_message` still returns Ok with the short count, and the peer's `read_message` fails with UnexpectedEof |
| RustProtocol.PrefixFails | client-otrr/src/protocol.rs:12-30 | any proper prefix of a message buffer fails to read as a message, with UnexpectedEof |
| RustProtocol.ReadValue | client-otrr/src/protocol.rs:23-30 | a value consumes exactly 4 + len bytes; a stream that ends early is an UnexpectedEof error |
| RustProtocol.ReadPayload | client-otrr/src/protocol.rs:27-28 | the payload has exactly the length the header denotes and is the next bytes of the stream; it is always read when the stream holds that many bytes, and otherwise the error is UnexpectedEof |
| RustProtocol.ReadMessage | client-otrr/src/protocol.rs:12-16 | on success the stream starts with the two frames and keeps what follows them; if either frame fails, the message fails |
| RustProtocol.ReadValueRoundTrip | client-otrr/src/protocol.rs:18-30 | reading back a written value of under 2^32 bytes gives the value and the stream after it, however the bytes are chunked |
| RustProtocol.WriteValueHeader | client-otrr/src/protocol.rs:19 | the header of a written value is the big-endian u32 of its length |
| RustProtocol.ReadValueSplit | client-otrr/src/protocol.rs:23-30 | a successful read splits the stream content into header, payload and the rest |
| RustProtocol.ReadMessageRoundTrip | client-otrr/src/protocol.rs:4-30 | round trip: reading the buffer written for (a, c) gives (a, c) whenever both are shorter than 2^32 |
| RustProtocol.ReadValueFailsIffShort | client-otrr/src/protocol.rs:23-30 | reading a value fails exactly when the stream holds fewer than 4 + len bytes |
| RustProtocol.TruncatedLength | client-otrr/src/protocol.rs:19-28 | a value of 2^32 bytes or more reads back truncated to its length modulo 2^32 |
| DraftProtocol.DraftFrame | src/main/java/nl/dannyvanheumen/otr4jechoserver/EchoProtocol.java:34-43 | a draft frame is 4 + n bytes: a prefix whose unsigned big-endian value is n, then the payload |
| DraftProtocol.WriteMessage | src/main/java/nl/dannyvanheumen/otr4jechoserver/EchoProtocol.java:34-39 | writing appends the frame and flushes; a closed socket is an IOException |
| DraftProtocol.ReadMessage | src/main/java/nl/dannyvanheumen/otr4jechoserver/EchoProtocol.java:18-32 | `null` exactly when the stream has already ended; on a stream that itself never fails every failure is a ProtocolException or NegativeArraySizeException; on success exactly one frame is consumed |
| DraftProtocol.ReadMessageChecked | src/main/java/nl/dannyvanheumen/otr4jechoserver/EchoProtocol.java:27 | the reader with a sign check fails exactly when the reader as written fails, always with a ProtocolException (an IOException), and otherwise gives the same result |
| DraftProtocol.SameFrame | src/main/java/nl/dannyvanheumen/otr4jechoserver/EchoProtocol.java:41-43 | the draft frame is the same bytes as the protocol module's frame |
| DraftProtocol.SameAsReadValue | src/main/java/nl/dannyvanheumen/otr4jechoserver/EchoProtocol.java:18-32 | except at an immediate end of stream, the draft reader agrees with the protocol module's `readValue` |
| DraftProtocol.ReadMessageFrame | src/main/java/nl/dannyvanheumen/otr4jechoserver/EchoProtocol.java:18-39 | a message that was read was exactly one frame of the stream: the stream is its frame followed by what is left |
| DraftProtocol.ReadWholeFrame | src/main/java/nl/dannyvanheumen/otr4jechoserver/EchoProtocol.java:18-39 | reading a frame delivered in one chunk gives the payload and leaves the rest of the stream |
| DraftProtocol.EofIsNone | src/main/java/nl/dannyvanheumen/otr4jechoserver/EchoProtocol.java:20-23 | end of stream at a frame boundary is a clean `null`, not an error |
| DraftProtocol.EmptyFrameIsNotEnd | src/main/java/nl/dannyvanheumen/otr4jechoserver/EchoProtocol.java:27-31 | a zero-length frame decodes to an empty array, not to `null` |
| DraftProtocol.ShortLengthRead | src/main/java/nl/dannyvanheumen/otr4jechoserver/EchoProtocol.java:24-26 | a read of 1 to 3 prefix bytes is a ProtocolException |
| DraftProtocol.SplitPayloadFails | src/main/java/nl/dannyvanheumen/otr4jechoserver/EchoProtocol.java:28-30 | a payload split across chunks is a ProtocolException |
| DraftProtocol.TopBitFails | src/main/java/nl/dannyvanheumen/otr4jechoserver/EchoProtocol.java:27 | a prefix with its top bit set is a NegativeArraySizeException |
| DraftEchoServer.ServeConnection | src/main/java/nl/dannyvanheumen/otr4jechoserver/EchoServer.java:20-31 | the connection's output only grows; a connection dropped with an error dropped it for an IOException; a crash happens only in the server as written, and only with NegativeArraySizeException |
| DraftEchoServer.EchoesPrefix | src/main/java/nl/dannyvanheumen/otr4jechoserver/EchoServer.java:20-28 | what a connection got back is always a prefix of what it sent |
| DraftEchoServer.EchoFrames | src/main/java/nl/dannyvanheumen/otr4jechoserver/EchoServer.java:20-28 | a connection whose frames arrive whole, in any grouping of chunks, ends cleanly at the end of its stream |
| DraftEchoServer.EchoIsIdentity | src/main/java/nl/dannyvanheumen/otr4jechoserver/EchoServer.java:20-28 | when every chunk of the input holds one or more whole frames, the connection ends cleanly and the output bytes equal the input bytes |
| DraftEchoServer.ServeAll | src/main/java/nl/dannyvanheumen/otr4jechoserver/EchoServer.java:18-32 | the server serves at most as many connections as it accepted; it serves all of them unless it stopped, and it stops only after serving one |
| DraftEchoServer.ServedOneByOne | src/main/java/nl/dannyvanheumen/otr4jechoserver/EchoServer.java:18-19 | connections are served strictly one after another: the i-th outcome is what serving the i-th connection alone gives |
| DraftEchoServer.StopsOnCrash | src/main/java/nl/dannyvanheumen/otr4jechoserver/EchoServer.java:15-32 | the server gets through every connection exactly when no connection crashes it |
| DraftEchoServer.CrashIsLast | src/main/java/nl/dannyvanheumen/otr4jechoserver/EchoServer.java:15-32 | a crash can only be the last outcome, and every earlier connection ended cleanly or with an IOException |
| DraftEchoServer.Serve | src/main/java/nl/dannyvanheumen/otr4jechoserver/EchoServer.java:15-34 | when the server as written stops, the last connection it served crashed it with NegativeArraySizeException |
| DraftEchoServer.ServeChecked | src/main/java/nl/dannyvanheumen/otr4jechoserver/EchoServer.java:15-34 | the server with the sign check: it never stops and serves every connection |
| DraftEchoServer.CrashStopsServer | src/main/java/nl/dannyvanheumen/otr4jechoserver/EchoServer.java:18-31 | one client sending a prefix with its top bit set stops the server, and the clients after it are never served |
| DraftEchoServer.CheckedServesEveryone | src/main/java/nl/dannyvanheumen/otr4jechoserver/EchoServer.java:18-31 | with the sign check, the same input ends only that client's connection and every later client is served |
| DraftEchoServer.CheckedConnectionAgrees | src/main/java/nl/dannyvanheumen/otr4jechoserver/EchoServer.java:20-28 | on a connection that does not crash the server as written, the checked server does exactly the same |
| DraftEchoServer.CheckedAgrees | src/main/java/nl/dannyvanheumen/otr4jechoserver/EchoServer.java:18-31 | when no connection crashes the server as written, the checked server has the same outcomes |
| Strings.IsBlank | protocol/src/main/java/nl/dannyvanheumen/echonetwork/utils/Strings.java:30 | a text is blank exactly when every character is whitespace |
| Strings.RequireNotBlank | protocol/src/main/java/nl/dannyvanheumen/echonetwork/utils/Strings.java:29-34 | the text is returned unchanged exactly when it holds a non-whitespace character; otherwise IllegalArgumentException |
| Strings.Concatenate | protocol/src/main/java/nl/dannyvanheumen/echonetwork/utils/Strings.java:43-47 | the parts are joined in order with no separator; a `null` part adds the text "null", as `StringBuilder.append` does |
| Strings.IndexOf | protocol/src/main/java/nl/dannyvanheumen/echonetwork/utils/Strings.java:62 | the index of the first occurrence at or after the start position, or -1 when there is none |
| Strings.IndexOfSeq | protocol/src/main/java/nl/dannyvanheumen/echonetwork/utils/Strings.java:103 | the first index at or after the start where the separator occurs, or -1 |
| Strings.CutAt | protocol/src/main/java/nl/dannyvanheumen/echonetwork/utils/Strings.java:141-144 | an index outside 0..\|text\|-1 is an IllegalArgumentException; otherwise the parts are the text before and after that one character |
| Strings.Cut | protocol/src/main/java/nl/dannyvanheumen/echonetwork/utils/Strings.java:61-67 | with the character absent, the whole text and `null`; with it present, a prefix free of it and a suffix such that prefix + char + suffix is the text |
| Strings.CutFrom | protocol/src/main/java/nl/dannyvanheumen/echonetwork/utils/Strings.java:82-88 | the cut is at the first match at or after `fromIndex`, but the first part still starts at index 0 |
| Strings.CutStr | protocol/src/main/java/nl/dannyvanheumen/echonetwork/utils/Strings.java:102-108 | as written: at the first match of the separator, only one character is dropped |
| Strings.CutStrFrom | protocol/src/main/java/nl/dannyvanheumen/echonetwork/utils/Strings.java:123-129 | as written, from `fromIndex`: only one character of the separator is dropped, and the first part starts at index 0 |
| Strings.CutSep | protocol/src/main/java/nl/dannyvanheumen/echonetwork/utils/Strings.java:90-108 | as documented: the whole separator is removed and the parts rebuild the text around it |
| Strings.IndexOfSingle | protocol/src/main/java/nl/dannyvanheumen/echonetwork/utils/Strings.java:103 | searching for a one-character string finds the same index as searching for the character |
| Strings.OneCharSeparator | protocol/src/main/java/nl/dannyvanheumen/echonetwork/utils/Strings.java:61-108 | with a one-character separator, the as-written cut, the documented cut and the character cut agree |
| Strings.LongSeparatorLeaks | protocol/src/main/java/nl/dannyvanheumen/echonetwork/utils/Strings.java:141-144 | for a longer separator the as-written cut leaves the rest of the separator at the head of the second part ("a::b" with "::" gives "a" and ":b") |
| Strings.EmptySeparator | protocol/src/main/java/nl/dannyvanheumen/echonetwork/utils/Strings.java:102-108 | an empty separator matches at index 0, so the as-written cut loses the text's first character and fails on an empty text; the documented cut keeps the whole text |
| Integers.RequireAtLeast | protocol/src/main/java/nl/dannyvanheumen/echonetwork/utils/Integers.java:29-34 | returns the value exactly when value >= min; otherwise IllegalArgumentException |
| Integers.RequireEquals | protocol/src/main/java/nl/dannyvanheumen/echonetwork/utils/Integers.java:45-47 | returns the value exactly when it equals the expected value; otherwise IllegalArgumentException |
| Integers.RequireEqualsWith | protocol/src/main/java/nl/dannyvanheumen/echonetwork/utils/Integers.java:59-64 | the same check as `RequireEquals`, with the caller's message |
| Integers.RequireNotEquals | protocol/src/main/java/nl/dannyvanheumen/echonetwork/utils/Integers.java:74-79 | returns the value exactly when it differs from the forbidden value |
| Integers.RequireInRange | protocol/src/main/java/nl/dannyvanheumen/echonetwork/utils/Integers.java:91-96 | returns the value exactly when min <= value <= max |
| Integers.EmptyRangeRejects | protocol/src/main/java/nl/dannyvanheumen/echonetwork/utils/Integers.java:91-96 | when min > max, every value is rejected |
| Integers.GuardsChain | protocol/src/main/java/nl/dannyvanheumen/echonetwork/utils/Integers.java:28-96 | every guard is the identity on success, so guards can be chained in any order |
| Integers.ParseUnsignedInt | protocol/src/main/java/nl/dannyvanheumen/echonetwork/utils/Integers.java:106-109 | fails with NumberFormatException exactly when `BigInteger` rejects the text; otherwise the result equals the parsed number modulo 2^32 |
| Integers.ParseUnsignedBits | protocol/src/main/java/nl/dannyvanheumen/echonetwork/utils/Integers.java:106-109 | for an unsigned numeral below 2^32, the result has the same 32 bits as the number |
| Integers.AllOnesIsMinusOne | protocol/src/main/java/nl/dannyvanheumen/echonetwork/utils/Integers.java:106-109 | "ffffffff" in radix 16 parses to -1, not to 2^32 - 1 |
| Integers.MinusAccepted | protocol/src/main/java/nl/dannyvanheumen/echonetwork/utils/Integers.java:107-108 | a leading '-' is accepted: "-1" parses to -1 |
| StringBuilders.Drain | protocol/src/main/java/nl/dannyvanheumen/echonetwork/utils/StringBuilders.java:25-29 | returns the previous content and leaves the builder empty |
| StringBuilders.DrainTwice | protocol/src/main/java/nl/dannyvanheumen/echonetwork/utils/StringBuilders.java:25-29 | a second drain in a row returns the empty text |
| StringBuilders.Clear | protocol/src/main/java/nl/dannyvanheumen/echonetwork/utils/StringBuilders.java:48-50 | the builder is empty afterwards |
| StringBuilders.ClearIdempotent | protocol/src/main/java/nl/dannyvanheumen/echonetwork/utils/StringBuilders.java:48-50 | clearing twice is the same as clearing once |
| StringBuilders.AppendAll | protocol/src/main/java/nl/dannyvanheumen/echonetwork/utils/StringBuilders.java:37-41 | the builder becomes its old content followed by the parts, in order; with no parts it is unchanged |
| StringBuilders.JoinedAppend | protocol/src/main/java/nl/dannyvanheumen/echonetwork/utils/StringBuilders.java:37-41 | appending two lists one after the other is the same as appending their concatenation |
| Numerals.JavaParseInt | client-otr4j/src/main/java/nl/dannyvanheumen/echonetwork/client/otr4j/StdinClient.java:115 | `Integer.parseInt` succeeds exactly on an optional sign followed by at least one decimal digit whose value lies in -2^31 .. 2^31 - 1, gives that signed value, and fails otherwise with NumberFormatException |
| Numerals.ParseIntDigits | client-otr4j/src/main/java/nl/dannyvanheumen/echonetwork/client/otr4j/StdinClient.java:115 | the JDK's algorithm (sign check, then accumulating negatively against the limit) gives exactly the outcome of the numeral definition, on every text |
| Numerals.AccumulateNegative | client-otr4j/src/main/java/nl/dannyvanheumen/echonetwork/client/otr4j/StdinClient.java:115 | the digit loop succeeds exactly when the text is all digits with a value at most the negated limit, and then holds the negated value |
| Numerals.RustParseU32 | client-otrr/src/stdinclient.rs:139 | `from_str_radix(_, 10)` for `u32` succeeds exactly on an optional '+' followed by at least one decimal digit with a value below 2^32, gives that value, and fails otherwise with InvalidInput |
| Numerals.BigIntegerParse | protocol/src/main/java/nl/dannyvanheumen/echonetwork/utils/Integers.java:108 | `new BigInteger(text, radix)` succeeds exactly when the radix lies in 2..36 and the text is an optional sign followed by at least one digit of the radix; it gives the signed value, and fails otherwise with NumberFormatException |
| JavaStdinClient.ParseLine | client-otr4j/src/main/java/nl/dannyvanheumen/echonetwork/client/otr4j/StdinClient.java:106-118 | a line fails with "Invalid message line." exactly when it has no space; every other failure is a NumberFormatException from the tag |
| JavaStdinClient.ParsedContent | client-otr4j/src/main/java/nl/dannyvanheumen/echonetwork/client/otr4j/StdinClient.java:107-116 | the content is everything after the first space: it may hold spaces and is empty after a trailing space |
| JavaStdinClient.ParsedAddress | client-otr4j/src/main/java/nl/dannyvanheumen/echonetwork/client/otr4j/StdinClient.java:111-116 | the address is a prefix of the line free of spaces and '#', and an address directly followed by the space has tag 0 |
| JavaStdinClient.ParseRenderedLine | client-otr4j/src/main/java/nl/dannyvanheumen/echonetwork/client/otr4j/StdinClient.java:106-118 | round trip: a line built from an address, an optional decimal tag and any content parses back to them, with tag 0 when absent |
| JavaStdinClient.NoTagMeansZero | client-otr4j/src/main/java/nl/dannyvanheumen/echonetwork/client/otr4j/StdinClient.java:111-113 | an address part without '#' is taken whole, with tag 0 |
| JavaStdinClient.EmptyTagFails | client-otr4j/src/main/java/nl/dannyvanheumen/echonetwork/client/otr4j/StdinClient.java:114-116 | an empty tag after '#' fails the line with NumberFormatException |
| JavaStdinClient.InputLoop | client-otr4j/src/main/java/nl/dannyvanheumen/echonetwork/client/otr4j/StdinClient.java:89-101 | the loop keeps the session directory valid and ends with a NullPointerException at the end of the input |
| JavaStdinClient.InvalidLineStops | client-otr4j/src/main/java/nl/dannyvanheumen/echonetwork/client/otr4j/StdinClient.java:107-110 | a line without a space stops the client before anything is sent or looked up |
| JavaStdinClient.UnknownInstanceSkipped | client-otr4j/src/main/java/nl/dannyvanheumen/echonetwork/client/otr4j/StdinClient.java:94-98 | a tag with no instance in the session: nothing is sent and the loop goes on with the next line |
| JavaStdinClient.OneLineSent | client-otr4j/src/main/java/nl/dannyvanheumen/echonetwork/client/otr4j/StdinClient.java:90-99 | a line for a known instance sends its transformed parts, each preceded by the typed address |
| JavaStdinClient.InputKeepsSessions | client-otr4j/src/main/java/nl/dannyvanheumen/echonetwork/client/otr4j/StdinClient.java:89-101 | the input loop never drops or replaces a session |
| JavaStdinClient.InputLoopNext | client-otr4j/src/main/java/nl/dannyvanheumen/echonetwork/client/otr4j/StdinClient.java:89-101 | after the first line the loop either stops with that line, or goes on with the rest of the input on a connection that holds what the line sent, appended |
| JavaStdinClient.AllLinesSent | client-otr4j/src/main/java/nl/dannyvanheumen/echonetwork/client/otr4j/StdinClient.java:89-101 | when every line is well formed, no tag is refused and the engine never fails, the loop reads to the end of the input and the connection gets, in input order, the frame pairs of every line whose tag names an instance of its session, and nothing for the others |
| RustStdinClient.ReadLine | client-otrr/src/stdinclient.rs:135-136 | `read_line` splits the input after the first newline: the line holds no earlier newline and ends with a newline whenever input remains after it |
| RustStdinClient.SplitOnce | client-otrr/src/stdinclient.rs:137 | `split_once` splits at the first occurrence: the head is free of the separator, and head + separator + tail is the text |
| RustStdinClient.ParseCommand | client-otrr/src/stdinclient.rs:137-143 | every failure is InvalidInput, a line without a space fails, the message is everything after the first space, and the address holds neither a space nor a '#' |
| RustStdinClient.ReadCommand | client-otrr/src/stdinclient.rs:134-144 | each call consumes one line (at least one byte of a non-empty input); a line that is not well-formed UTF-8 is InvalidData exactly, and every other failure is InvalidInput |
| Utf8.SequenceLength | client-otrr/src/stdinclient.rs:135-136 | the first well-formed UTF-8 sequence is 1 to 4 bytes, and there is none exactly when the bytes do not start with one of the patterns of table 3-7 of the Unicode Standard |
| Utf8.ValidAppend | client-otrr/src/stdinclient.rs:135-136 | two runs of well-formed UTF-8 make one |
| Utf8.AsciiValid | client-otrr/src/stdinclient.rs:135-136 | ASCII text is well-formed UTF-8 |
| Utf8.SequenceLengthPrefix | client-otrr/src/stdinclient.rs:135-136 | the first sequence is recognised from its own bytes, whatever follows |
| Utf8.EncodedIsValid | client-otrr/src/stdinclient.rs:135-136 | the UTF-8 encoding of every Unicode scalar value is one well-formed sequence, so the check accepts all text a `String` can hold |
| Utf8.Rejected | client-otrr/src/stdinclient.rs:135-136 | a lone continuation byte, an overlong form, an encoded surrogate and a truncated sequence are rejected |
| RustStdinClient.SkipInvalidLine | client-otrr/src/stdinclient.rs:25-30 | a line that is not well-formed UTF-8 is consumed with InvalidData and skipped, and the input loop goes on with the next line |
| RustStdinClient.RenderedIsValid | client-otrr/src/stdinclient.rs:134-144 | a command line built from well-formed address and message text is well-formed, so `read_line` accepts it |
| RustStdinClient.SplitOnceAt | client-otrr/src/stdinclient.rs:137-138 | splitting text that has the separator only after a separator-free head gives that head and everything after the separator |
| RustStdinClient.LineEnd | client-otrr/src/stdinclient.rs:136 | `read_line` on a newline-terminated line followed by more input returns exactly that line, newline included, and leaves the rest |
| RustStdinClient.ParseRendered | client-otrr/src/stdinclient.rs:137-143 | round trip: a rendered command line parses back to its address, tag (0 when absent) and message |
| RustStdinClient.ReadRenderedCommand | client-otrr/src/stdinclient.rs:134-144 | reading a rendered line from the input gives its command and leaves the following lines |
| RustStdinClient.Commands | client-otrr/src/stdinclient.rs:25-31 | the input thread passes on at most one command per input byte, each with an address free of spaces and '#'; `RustStdinClient.SkipBadLine` and `RustStdinClient.SkipInvalidLine` state that bad lines are skipped, `RustStdinClient.ReadRenderedCommand` what a good line yields |
| RustStdinClient.SkipBadLine | client-otrr/src/stdinclient.rs:25-30 | a bad command line is skipped and the input loop goes on with the next line |
| RustStdinClient.ParsersAgree | client-otrr/src/stdinclient.rs:134-144 | on a rendered line with a tag up to 2^31 - 1, the Rust and Java parsers give the same address and tag, and the Rust message is the Java content plus the newline |
| RustStdinClient.NegativeTag | client-otrr/src/stdinclient.rs:139 | a negative tag, which Java's parser accepts, is InvalidInput for the Rust parser |
| RustStdinClient.Handle | client-otrr/src/stdinclient.rs:74-132 | Plaintext and WarningUnencrypted give (0, content), Confidential gives (tag, content), and every other result gives nothing; `main` discards the value |
| RustStdinClient.ReceivedStep | client-otrr/src/stdinclient.rs:36-43 | each frame pair that reads is handed on, followed by whatever the rest of the stream yields |
| RustStdinClient.ReceivedBound | client-otrr/src/stdinclient.rs:36-43 | the network thread (`RustStdinClient.Received`) passes on at most one message per 8 bytes of the stream, since every message carries two 4-byte length headers; `RustStdinClient.ReceivedStep` and `RustStdinClient.ReceivesAll` state which messages, in order |
| RustStdinClient.ReceivesAll | client-otrr/src/stdinclient.rs:36-43 | the network loop hands every written message to the engine, in order |
| Sessions.EchoSessionID | src/main/java/nl/dannyvanheumen/otr4jechoserver/StdinClient.java:64 | a session id is (local id, address, "echo") |
| Sessions.EmptyDirectory | src/main/java/nl/dannyvanheumen/otr4jechoserver/StdinClient.java:38 | the directory starts empty and consistent |
| Sessions.GetOrCreate | src/main/java/nl/dannyvanheumen/otr4jechoserver/StdinClient.java:65 | `computeIfAbsent` creates a session only for an unseen id, and a known id gets its stored session |
| Sessions.ReceiveSession | src/main/java/nl/dannyvanheumen/otr4jechoserver/StdinClient.java:63-65 | the reader files a message under (local id, sender, "echo") |
| Sessions.SendSession | src/main/java/nl/dannyvanheumen/otr4jechoserver/StdinClient.java:84-85 | the input loop sends under (local id, typed address, "echo") |
| Sessions.CreatedOnce | src/main/java/nl/dannyvanheumen/otr4jechoserver/StdinClient.java:65 | `createSession` runs at most once per id |
| Sessions.LookupAgain | src/main/java/nl/dannyvanheumen/otr4jechoserver/StdinClient.java:85 | a second lookup returns the stored session and creates nothing |
| Sessions.SharedBetweenPaths | src/main/java/nl/dannyvanheumen/otr4jechoserver/StdinClient.java:38-85 | a session opened by the reader is the one the input loop uses for that peer, and the other way round |
| Sessions.ReaderLoop | src/main/java/nl/dannyvanheumen/otr4jechoserver/StdinClient.java:59-76 | the reader keeps the directory consistent and every session it found; on a stream that itself never fails it ends only when a receive fails with a ProtocolException or NegativeArraySizeException |
| Sessions.ReaderKeepsSessions | src/main/java/nl/dannyvanheumen/otr4jechoserver/StdinClient.java:59-76 | the reader never drops or replaces a session |
| Sessions.ReaderFilesAll | src/main/java/nl/dannyvanheumen/otr4jechoserver/StdinClient.java:59-76 | every message the reader receives, in order, is processed on the session of (local id, its sender, "echo"), the one the directory holds for that sender when the reader stops |
| Sessions.ReaderFirstSession | src/main/java/nl/dannyvanheumen/otr4jechoserver/StdinClient.java:62-65 | the first message goes to its sender's session |
| Sessions.EngineFailureIgnored | src/main/java/nl/dannyvanheumen/otr4jechoserver/StdinClient.java:66-71 | an engine failure on a message changes nothing about what the reader does next |
| Sessions.InputLoop | src/main/java/nl/dannyvanheumen/otr4jechoserver/StdinClient.java:77-88 | the user input loop keeps the directory consistent |
| Sessions.InputKeepsSessions | src/main/java/nl/dannyvanheumen/otr4jechoserver/StdinClient.java:77-88 | the input loop never drops or replaces a session |
| Sessions.OneMessage | src/main/java/nl/dannyvanheumen/otr4jechoserver/StdinClient.java:78-87 | an address line, a content line and an empty line: the transformed parts go to that address, then the loop stops |
| Host.NewAction | client-otr4j/src/main/java/nl/dannyvanheumen/echonetwork/client/otr4j/Host.java:186-191 | an action is built exactly when none of its four fields (session id, receiver tag, event, payload) is null, and keeps them; otherwise NullPointerException |
| Host.Enqueue | client-otr4j/src/main/java/nl/dannyvanheumen/echonetwork/client/otr4j/Host.java:151 | `add` appends while the queue holds fewer than 9 actions, and throws IllegalStateException on a full queue instead of blocking |
| Host.HandleEvent | client-otr4j/src/main/java/nl/dannyvanheumen/echonetwork/client/otr4j/Host.java:133-178 | only a request for the SMP secret changes the host: it queues an action carrying (session, receiver, event, the question as payload), or throws IllegalStateException on a full queue; an SMP abort for an unknown reason is an IllegalArgumentException; the connection is never touched |
| Host.QueueHoldsRequests | client-otr4j/src/main/java/nl/dannyvanheumen/echonetwork/client/otr4j/Host.java:68-151 | after a run of engine callbacks, the queue is its old content followed by one action per secret request, in order |
| Host.RunFitsIffRoom | client-otr4j/src/main/java/nl/dannyvanheumen/echonetwork/client/otr4j/Host.java:43-151 | with no unknown abort reasons, a run of callbacks fails exactly when its secret requests do not fit in the queue of 9 or when it injects a message into a closed connection |
| Host.InjectMessage | client-otr4j/src/main/java/nl/dannyvanheumen/echonetwork/client/otr4j/Host.java:68-74 | one framed message addressed to the session's user is written; an IOException becomes an IllegalStateException |
| Host.InjectedIsReceived | client-otr4j/src/main/java/nl/dannyvanheumen/echonetwork/client/otr4j/Host.java:68-74 | the peer receives the injected message whole: the session's user as address, the engine's text as content |
| Host.InjectAll | client-otr4j/src/main/java/nl/dannyvanheumen/echonetwork/client/otr4j/Host.java:68-74 | injecting a list of messages writes one frame pair per message, in order, each addressed to the session's user; it fails with IllegalStateException exactly when the connection is closed and the list is not empty |
| Host.HandleCallback | client-otr4j/src/main/java/nl/dannyvanheumen/echonetwork/client/otr4j/Host.java:68-178 | one engine callback keeps the host consistent and writes exactly the injected message's frames, or nothing for an event |
| Host.Dispatch | client-otr4j/src/main/java/nl/dannyvanheumen/echonetwork/client/otr4j/Host.java:68-178 | the engine's callbacks during one call are handled in order, the first exception ending the run; the host stays consistent and the connection stays as open as it was |
| Host.DispatchWrites | client-otr4j/src/main/java/nl/dannyvanheumen/echonetwork/client/otr4j/Host.java:68-178 | what a run of callbacks writes is exactly the frames of the injected messages, in the order the engine injected them |
| EchoClient.ProcessActions | client-otr4j/src/main/java/nl/dannyvanheumen/echonetwork/client/otr4j/EchoClient.java:93-107 | draining empties the queue unless an action of another kind throws UnsupportedOperationException or an injection into a closed connection throws IllegalStateException; it never makes more `respondSmp` calls than there were actions |
| EchoClient.HandleAction | client-otr4j/src/main/java/nl/dannyvanheumen/echonetwork/client/otr4j/EchoClient.java:94-105 | one polled action: a secret request is answered on the action's session (created if unknown) with its payload as question and the fixed secret, and the messages the engine injects meanwhile are written to the session's user; an injection into a closed connection is an IllegalStateException; any other action is an UnsupportedOperationException that leaves the sessions alone |
| EchoClient.AnswersInOrder | client-otr4j/src/main/java/nl/dannyvanheumen/echonetwork/client/otr4j/EchoClient.java:94-102 | on an open connection a queue of secret requests is drained without an exception and answered in FIFO order, each with its own question and the fixed secret, on the action's own session |
| EchoClient.DrainWrites | client-otr4j/src/main/java/nl/dannyvanheumen/echonetwork/client/otr4j/EchoClient.java:94-102 | draining a queue of secret requests on an open connection writes exactly the messages the engine injects while answering them, request by request in queue order |
| EchoClient.DirectoryKeeps | client-otr4j/src/main/java/nl/dannyvanheumen/echonetwork/client/otr4j/EchoClient.java:99 | draining never drops or changes a session |
| EchoClient.RespondFailureIgnored | client-otr4j/src/main/java/nl/dannyvanheumen/echonetwork/client/otr4j/EchoClient.java:100-102 | whether `respondSmp` fails changes nothing about the draining |
| EchoClient.OtherActionStops | client-otr4j/src/main/java/nl/dannyvanheumen/echonetwork/client/otr4j/EchoClient.java:103-105 | an action of another kind throws before anything is answered |
| EchoClient.HostQueueDrains | client-otr4j/src/main/java/nl/dannyvanheumen/echonetwork/client/otr4j/EchoClient.java:93-107 | whatever events the host was given, draining its queue never throws |
| EchoClient.ProcessMessage | client-otr4j/src/main/java/nl/dannyvanheumen/echonetwork/client/otr4j/EchoClient.java:76-90 | a `null` transformation or an engine failure sends nothing; otherwise the reply parts go to the sender; only an IOException escapes |
| EchoClient.ReplyAddressedToSender | client-otr4j/src/main/java/nl/dannyvanheumen/echonetwork/client/otr4j/EchoClient.java:85-86 | the first message read from the reply is the sender's address with the first part |
| EchoClient.Step | client-otr4j/src/main/java/nl/dannyvanheumen/echonetwork/client/otr4j/EchoClient.java:66-72 | one turn drains the queue, receives, and processes the message; it keeps the client consistent, records the drain's answers after the earlier ones, and goes on only with a shorter stream |
| EchoClient.StepWrites | client-otr4j/src/main/java/nl/dannyvanheumen/echonetwork/client/otr4j/EchoClient.java:66-90 | with nothing queued on an open connection, a turn writes the messages the engine injected while processing the received message and then the reply to it, in that order |
| EchoClient.Run | client-otr4j/src/main/java/nl/dannyvanheumen/echonetwork/client/otr4j/EchoClient.java:66-72 | the main loop keeps the directory and host consistent and only adds answers after the earlier ones |
| EchoClient.RunStartsWithDrain | client-otr4j/src/main/java/nl/dannyvanheumen/echonetwork/client/otr4j/EchoClient.java:66-67 | the answers of the first drain come before everything else the run does |
| EchoClient.DrainsBeforeReceiving | client-otr4j/src/main/java/nl/dannyvanheumen/echonetwork/client/otr4j/EchoClient.java:66-71 | all pending secret requests are answered, in order, before the first receive |
| Relay.EmptyRelay | server/src/main/java/nl/dannyvanheumen/echonetwork/server/EchoServer.java:51 | the registry starts empty |
| Relay.Accept | server/src/main/java/nl/dannyvanheumen/echonetwork/server/EchoServer.java:56-58 | the new connection is registered under its remote id, replacing any connection registered under that id |
| Relay.Forward | server/src/main/java/nl/dannyvanheumen/echonetwork/server/EchoServer.java:84-92 | a message to an unregistered address is dropped; otherwise it goes to that sink as (sender id, content), and a closed socket is an IOException; the registry is unchanged |
| Relay.Close | server/src/main/java/nl/dannyvanheumen/echonetwork/server/EchoServer.java:97-99 | the id is removed unconditionally and the connection's socket is closed; no other output changes |
| Relay.Run | server/src/main/java/nl/dannyvanheumen/echonetwork/server/EchoServer.java:80-100 | on any exit the handler removes its id and leaves every other registration alone |
| Relay.ReceiveFirst | server/src/main/java/nl/dannyvanheumen/echonetwork/server/EchoServer.java:84 | messages sent back to back are received one at a time, the first one first |
| Relay.RunStep | server/src/main/java/nl/dannyvanheumen/echonetwork/server/EchoServer.java:83-93 | one turn of the handler: receive, forward, go on with the rest of the stream |
| Relay.ForwardToOpen | server/src/main/java/nl/dannyvanheumen/echonetwork/server/EchoServer.java:92 | forwarding to a registered open socket succeeds and leaves it open |
| Relay.InOrder | server/src/main/java/nl/dannyvanheumen/echonetwork/server/EchoServer.java:83-93 | messages from one connection reach their destination in arrival order, each rewritten to (sender id, content) |
| Relay.DropLeavesAllOutputs | server/src/main/java/nl/dannyvanheumen/echonetwork/server/EchoServer.java:85-89 | a message to an unregistered address writes nothing anywhere and leaves the registry unchanged |
| Relay.ClosedDestinationEndsSender | server/src/main/java/nl/dannyvanheumen/echonetwork/server/EchoServer.java:92-99 | a closed destination makes the sender's handler fail and unregister the sender |
| Relay.StaleRemoval | server/src/main/java/nl/dannyvanheumen/echonetwork/server/EchoServer.java:56-99 | an old handler ending removes its id even after a newer connection re-registered it, so the newer connection becomes unreachable |

## Left out

- UTF-8 conversion between strings and bytes in Java: wire text is modelled as bytes throughout. Only Rust's `read_line` check that a line is well-formed UTF-8 is modelled, in `Utf8`.
- Strings.IndexOf: Java counts UTF-16 code units, while the model's `string` holds one element per Unicode scalar value. Each supplementary character (above U+FFFF) before a match makes the Java index one larger than the model's, and the start position is counted the same way.
- Strings.IndexOfSeq: as for `Strings.IndexOf`, the index and the start position count UTF-16 units in Java and scalar values in the model.
- Strings.CutAt: the range check and `substring` count UTF-16 units in Java, so an index inside a supplementary character is accepted there and splits its surrogate pair (`cutAt(1, "\uD83D\uDE00")` gives `["\uD83D", ""]`); the model counts scalar values and never splits a character.
- Strings.Cut: the model cuts a supplementary character out whole; Java drops one UTF-16 unit after the match, which for a supplementary separator character leaves its low surrogate at the head of the second part.
- Strings.CutFrom: `fromIndex` counts UTF-16 units in Java and scalar values in the model, as for `Strings.IndexOf`.
- Strings.CutStr: `substring(idx + 1)` drops one UTF-16 unit in Java and one scalar value in the model; the two agree unless the separator starts with a supplementary character.
- Strings.CutStrFrom: as for `Strings.CutStr`, with `fromIndex` counted in UTF-16 units in Java.
- Threads, `synchronized` blocks and `Collections.synchronizedMap`: every loop is modelled sequentially. `Threads.java` and the thread spawning in the servers and clients are not part of this model.
- Logging: the `LogManagers` classes and every `LOGGER` call.
- The OTR engines: `transformReceiving`, `transformSending`, `getInstance`, `respondSmp`, `createSession`, key generation, client profiles and policies are function parameters or abstract session numbers. Whether otr4j catches exceptions thrown by host callbacks is not modelled.
- `InstanceTag` validation of a parsed tag happens inside the `instances` parameter of `JavaStdinClient.InputLoop`.
- The Host methods that only return engine data (keys, policy, client profile, fragmenter instructions) and the events that are only logged.
- `client-otrr/src/client.rs` and `client-otrr/src/echoclient.rs` are not part of this model: they are engine glue with `todo!()` stubs.
- The Rust client's `main` (engine setup, `unwrap` panics, thread start).
- RustStdinClient.Handle: `main` calls `handle` and discards the value it returns, so the Rust client sends nothing back; the model computes the value only. The UTF-8 conversion of the content (`from_utf8(...).unwrap()`) and its panic on invalid text are not modelled; the content is passed on as bytes.
- RustStdinClient.Commands: at the end of the input the Rust loop keeps calling `read_line` forever; the model stops there instead of looping.
- The client-otr4j-jitsi clients are not part of this model. They repeat the client-otr4j logic on another engine.
- The draft's `Host.java`, `EchoSession.java` and `EchoClient.java` are not part of this model: key and engine wrappers and a demo.
- `protocol/.../Client.java` holds constants only. Its values ("echo", '#', the SMP secret) appear inline.
- The draft `EchoProtocol` has no message-level send or receive. The draft client's reader thread and input loop use the `protocol` module's `ReceiveMessage` and `SendMessage` in the model.
- Sessions.InputLoop: `readLine` returning `null` ends the model's loop with `EndOfInput`. What the engine would do with a `null` content is not modelled. The contract states only that the directory stays consistent; `Sessions.InputKeepsSessions` and `Sessions.OneMessage` state the rest.
- Streams.Read: a socket read that throws IOException (connection reset, socket closed) is not modelled; an input stream ends only with its end of stream. The failure sets stated for the readers below hold for such a stream only.
- EchoProtocol.ReadValue: the IOException a socket `read` can throw is not among its outcomes, because `Streams.Read` cannot fail.
- EchoProtocol.ReceiveMessage: the same; a read IOException, which the Java code passes on unchanged, is not among its outcomes.
- DraftProtocol.ReadMessage: the same; a read IOException is not among its outcomes.
- Sessions.ReaderLoop: the reader can also end with a read IOException, which the model does not produce. The exception that ends the reader becomes an IllegalStateException on a thread that dies; the model ends with the failure and does not model the thread.
- JavaStdinClient.InputLoop: its contract states only the directory, the end of input and the socket state; `JavaStdinClient.AllLinesSent` states what a whole input sends, and `JavaStdinClient.OneLineSent`, `JavaStdinClient.UnknownInstanceSkipped` and `JavaStdinClient.InvalidLineStops` state the single-line cases, including those that end the loop.
- DraftEchoServer.ServeAll: its contract states only the order and count of outcomes; `DraftEchoServer.StopsOnCrash` and `DraftEchoServer.CrashIsLast` state when it stops.
- EchoClient.Run: it runs until the stream fails or an exception leaves `main`. The engine's reaction to each message is a function parameter: the messages it injects and the events it reports are handled through `Host.Dispatch`, in order.
- EchoClient.ProcessActions: `respondSmp` is modelled by the messages it injects and whether it throws; events it would report meanwhile, which could queue more actions during the drain, are not modelled, so that the drain ends by the length of the queue alone.
- EchoClient.Step: when an engine callback throws during `transformReceiving`, the client returned keeps the host from before that message's callbacks; what the callbacks before the failing one wrote is not kept.
- RustStdinClient.Received: after a failed `read_message` the network thread retries forever (`continue`); the model stops at the first failed read, which loses no message, since a failed read has consumed the rest of the stream.
- `Integer.parseInt`, `str::parse::<u32>` and `BigInteger` accept ASCII digits only here. Non-ASCII Unicode digits and surrogate pairs are not modelled.
- `null` arguments are modelled only where the code checks for them: the four fields of `Action`, `readMessage`'s end of stream, and `transformReceiving` returning `null`. `handleEvent`'s payload is declared `@Nonnull`, so the question it passes on is never null.

## Findings

| source | as written | input that shows it | evidently intended | confidence | as-written member | corrected member |
|---|---|---|---|---|---|---|
| src/main/java/nl/dannyvanheumen/otr4jechoserver/EchoServer.java:20-31 | a length prefix with its top bit set makes `readMessage` allocate a negative-size array; the NegativeArraySizeException is not an IOException, so it leaves `main` and the server stops | one client sends the four bytes `80 00 00 00` | the bad frame ends only that connection, as a ProtocolException does, and the server goes on accepting | medium, not executed | DraftEchoServer.CrashStopsServer | DraftEchoServer.CheckedServesEveryone |
| protocol/src/main/java/nl/dannyvanheumen/echonetwork/utils/Strings.java:102-108 | `cut(text, separator)` with a String separator drops only the one character at the match | `cut("a::b", "::")` gives `["a", ":b"]` | the whole separator is removed, giving `["a", "b"]`, as the doc comment says | high, not executed | Strings.LongSeparatorLeaks | Strings.CutSep |
