# SocketHelper: a verified model of a point-to-point text messenger

The system is a small chat utility over one TCP connection. One process is the **host**: it binds one of its machine's addresses on port 11000, listens with a backlog of one and accepts a single peer. The other process is the **client**: it connects to the host's address. After that, the two sides take turns. Each turn, one side sends a line of text and the other receives it.

The component modelled here is the `SocketHelper` class. It has two parts.

- **Framing** (module `Framing`, `framing.dfy`). `Send` writes the ASCII encoding of `Message + "<END>"`. `Receive` reads chunks of at most 32 bytes and appends the decoded text of each chunk to `Message`. It stops as soon as the text *ends with* `"<END>"`, then cuts the text at the *first* `"<END>"`. The pure function `Deliver` says what this loop makes of any sequence of chunks. The lemmas prove:
  - the round trip: ASCII text without the terminator comes back unchanged, however the bytes are chunked;
  - that the result never contains the terminator;
  - that a terminator inside the text cuts the message short (`"hi<END>there"` is read as `"hi"`);
  - that a second frame arriving in the same read is lost;
  - that decoding chunk by chunk equals decoding all the bytes at once.
- **Role and connection state** (module `Sockets`, `socket_helper.dfy`). `SocketHelper` is a class with the source's fields: the role `IsHost` (a `const`, so no method can change it), `Message`, `endPoint`, `sender`, `listener` and the 32-byte `buffer` array. Each operation is a method. Its contract lists every exception the source throws, in the source's order, with what is left unchanged, and the exact new state on success. The two sockets are values:
  - `Peer` carries the connected flag, whether the socket is disposed, and its two end points;
  - `Listener` carries its bound end point, its backlog and whether it is disposed.
  `Receive` keeps the source's `while` loop over the buffer, and its contract ties the new `Message` to `Deliver`.

The operating system is not called. What it would answer comes in as parameters:
- `tryParse` stands for `IPAddress.TryParse`;
- `addressList` is the machine's host entry;
- `bindSucceeds` says whether `Bind` succeeds;
- `handshake` is the outcome of `Connect`;
- `incoming` is what successive `Accept` calls return;
- `stream` is the chunks that successive socket reads return.

When those inputs run out while the source would still be blocked, the operation returns `Blocked`.

Module `Scenarios` (`scenarios.dfy`) holds client code that follows the console program's turn order: it connects a host and a client, exchanges `"ping"`/`"pong"`, and misuses the roles. It proves, from the contracts alone, what each side observes.

Behaviours of the code worth noting:
- A zero-byte read is appended and the loop goes on. No truncation error is raised.
- The stop test is "ends with the terminator", not "contains it".
- An unparsable address throws `ArgumentException`. An address the machine does not own throws `InvalidOperationException`.
- `WaitForConnection` on a host that never bound throws `NullReferenceException`, from `listener.Accept()`.
- `CloseConnection` on such a host throws `NullReferenceException` after shutting the sender down, and does not clear `Message`. So it is not safe to call from every state.
- `Send` issues one write.

## Model

| member | source | states |
|---|---|---|
| Framing.Encode | SocketHelper.cs:152 | ASCII encoding gives exactly one byte per character and every byte is below 128; ASCII characters keep their code, and any other character becomes '?' (63) |
| Framing.Decode | SocketHelper.cs:170 | ASCII decoding gives exactly one character per byte and only ASCII characters; a byte below 128 keeps its code, and a byte of 128 or more becomes '?' |
| Framing.Sanitize | SocketHelper.cs:152-170 | text that is encoded and then decoded keeps its length and its ASCII characters, loses every other character to '?', and is unchanged when it is all ASCII |
| Framing.DecodeEncode | SocketHelper.cs:152-170 | ASCII text survives encoding followed by decoding |
| Framing.EncodeDecode | SocketHelper.cs:152-170 | 7-bit bytes survive decoding followed by encoding |
| Framing.EncodeAppend | SocketHelper.cs:152 | encoding distributes over concatenation (the message and the terminator encode separately) |
| Framing.DecodeAppend | SocketHelper.cs:170 | decoding distributes over concatenation |
| Framing.EndsWith | SocketHelper.cs:171 | the text ends with the terminator exactly when the terminator occurs at the position its length before the end |
| Framing.IndexOf | SocketHelper.cs:172 | the result is an occurrence of the searched text with no occurrence before it; there is no result exactly when the text does not occur |
| Framing.IndexOfIsFirst | SocketHelper.cs:172 | an occurrence with no earlier occurrence is the one IndexOf returns |
| Framing.CutAtFlag | SocketHelper.cs:172 | Remove(IndexOf("<END>")) keeps the prefix that precedes the first terminator, and that prefix contains no terminator |
| Framing.FirstFlagAfterText | SocketHelper.cs:171-172 | if the text s contains no terminator, the first terminator in s + "<END>" + w is the appended one, so the cut gives s back |
| Framing.OnlyFullFrameEndsWithFlag | SocketHelper.cs:171 | "<END>" has no proper border, so a prefix of m + "<END>" that ends with "<END>" is the whole frame whenever m contains no terminator |
| Framing.CutAtFlagOfPrefix | SocketHelper.cs:171-172 | cutting a prefix that already ends with the terminator gives the same text as cutting the whole text |
| Framing.Frame | SocketHelper.cs:152 | the bytes written for a message are one byte per character of the message followed by the five bytes of the terminator |
| Framing.FrameText | SocketHelper.cs:152 | the frame of a message decodes to the sanitised message followed by "<END>" |
| Framing.Segments | SocketHelper.cs:168 | splitting bytes into pieces of at most `size` bytes gives non-empty pieces that fit and concatenate back to the input (the shapes a socket read can deliver) |
| Framing.FlattenConcat | SocketHelper.cs:168-170 | the bytes of two chunk sequences in a row are the bytes of the first followed by those of the second |
| Framing.ChunkwiseDecoding | SocketHelper.cs:168-170 | decoding each chunk and appending equals decoding the concatenated bytes |
| Framing.FlattenPrefix | SocketHelper.cs:168-170 | the bytes of the first j chunks are a prefix of the bytes of the first k chunks when j <= k |
| Framing.AccumulatedPrefix | SocketHelper.cs:170 | the received text only grows: after j chunks it is a prefix of the text after k >= j chunks |
| Framing.AccumulatedStep | SocketHelper.cs:170 | one more chunk appends exactly the decoded text of that chunk |
| Framing.FirstStop | SocketHelper.cs:167-174 | the result is the least chunk count, from a given start, after which the text ends with "<END>"; when there is no result, no such count exists |
| Framing.Deliver | SocketHelper.cs:166-175 | Receive stops after the first chunk whose text makes the accumulation end with "<END>" (and no earlier one); it delivers the text before the first terminator there, which contains no terminator. If no such chunk exists, the whole accumulation is still pending |
| Framing.DeliverAtFirstStop | SocketHelper.cs:171-173 | the first stopping point decides both the delivered text and the number of chunks consumed |
| Framing.DeliverWithoutStop | SocketHelper.cs:167-175 | with no stopping point the loop is still reading, and it holds all the text so far |
| Framing.DeliverWithin | SocketHelper.cs:171-172 | if the loop could stop after k chunks, it stops after at most k chunks and delivers the same text as a cut after k chunks |
| Framing.DeliverAfterSend | SocketHelper.cs:152-175 | once the first k chunks carry the frame of m, in any chunking, Receive delivers the sanitised m up to its first terminator, within those k chunks |
| Framing.RoundTrip | SocketHelper.cs:152-175 | ASCII text without "<END>", sent as one frame and received in any chunking (zero-length reads included), is delivered unchanged, and the loop stops exactly at the end of its frame |
| Framing.EmbeddedFlagCutsMessage | SocketHelper.cs:171-172 | for a message a + "<END>" + b where a has no terminator, the receiver gets only a, whatever the chunking |
| Framing.HiThere | SocketHelper.cs:152-173 | sending "hi<END>there" makes the receiver read "hi" |
| Framing.CoalescedFrames | SocketHelper.cs:168-173 | two frames that arrive in one read are delivered as the first message alone, and that single read consumes both, so the second message is lost |
| Sockets.IsWhiteSpace | SocketHelper.cs:149 | on ASCII characters, white space is exactly the space and the controls U+0009 to U+000D; no character above U+3000 is white space |
| Sockets.IsNullOrWhiteSpace | SocketHelper.cs:149 | a null and an empty Message are blank, and a Message with any character that is not white space is not |
| Sockets.AcceptFault | SocketHelper.cs:110 | Accept throws exactly when the listener is missing (null), disposed, or not listening |
| Sockets.SocketHelper.IsConnected | SocketHelper.cs:21-24 | connected only when a sender socket exists and reports connected; a connected, well-formed sender is not disposed and has both a remote and a local end point |
| Sockets.SocketHelper.RemoteEndpoint | SocketHelper.cs:26-30 | with no sender the result is the empty value; while connected it is the sender's remote end point; after the sender is disposed, reading it throws ObjectDisposedException; a live sender without a remote end point (as after a failed connect) throws NullReferenceException |
| Sockets.SocketHelper.LocalEndpoint | SocketHelper.cs:31-35 | with no sender the result is the empty value; while connected it is the sender's local end point; after the sender is disposed, reading it throws ObjectDisposedException; a live sender without a local end point throws NullReferenceException |
| Sockets.SocketHelper.constructor | SocketHelper.cs:46-50 | IsHost equals the argument, Message is empty, the buffer is a fresh array of 32 bytes, there are no sockets yet, and the endpoint is not connected |
| Sockets.SocketHelper.BindToAddress | SocketHelper.cs:71-93 | it throws, in this order, on a client, when already connected, on an unparsable address (ArgumentException) and on an address that is not the machine's own, and in each case nothing changes; otherwise the end point is (address, 11000), and the listener is bound to it with backlog 1 exactly when Bind succeeds; the listener changes only in that last case |
| Sockets.SocketHelper.WaitForConnection | SocketHelper.cs:99-112 | it throws on a client or when already connected, with no change; Accept's fault (no listener, disposed, not listening) is thrown before any peer is taken; otherwise it never throws: it returns exactly when some accepted socket is connected, and then the sender is the first connected one, and it is still blocked in Accept when no accepted socket is connected |
| Sockets.SocketHelper.EstablishConnection | SocketHelper.cs:120-137 | it throws on a host, when already connected, or on an unparsable address, with no change; otherwise the end point is (address, 11000), and the sender is a connected socket to it if the handshake succeeds, or an unconnected socket with a SocketException if it fails |
| Sockets.SocketHelper.Send | SocketHelper.cs:144-155 | it throws when not connected, and when Message is null, empty or white space only, and then writes nothing; otherwise it writes exactly ASCII(Message + "<END>"), which is the length of Message plus 5 bytes and reads back as the sanitised Message followed by the terminator |
| Sockets.SocketHelper.ReadInto | SocketHelper.cs:168 | one socket read reports the number of bytes that arrived and leaves exactly them at the front of the buffer, the rest of the buffer unchanged |
| Sockets.SocketHelper.Receive | SocketHelper.cs:161-176 | it throws when not connected and leaves Message unchanged; otherwise, reading the chunks through the 32-byte buffer, it leaves Message equal to the text Deliver gives and reports how many chunks it consumed, or reports that it is still blocked |
| Sockets.SocketHelper.CloseConnection | SocketHelper.cs:181-190 | afterwards the endpoint is not connected and IsHost is unchanged; a connected sender is shut down and disposed; a host's listener is disposed and Message is cleared, except that a host with no listener throws NullReferenceException and keeps Message |
| Scenarios.Connect | SocketHelper.cs:71-137 | a host bound to 127.0.0.1 that accepts a connected peer and a client whose handshake succeeds both end up connected, and the host listens on 127.0.0.1:11000 with backlog 1 |
| Scenarios.Transfer | SocketHelper.cs:144-176 | after one side sets Message to ASCII, non-blank text without the terminator and calls Send, and the other side calls Receive on those bytes in pieces of 1 to 32 bytes, the receiver's Message is that text |
| Scenarios.PingPong | SocketHelper.cs:144-190 | the host receives "ping", the client receives "pong", a blank Message is refused, and Send after CloseConnection throws "not connected" |
| Scenarios.MisusedRoles | SocketHelper.cs:72-124 | a host that never bound cannot wait for a connection (NullReferenceException); a client can neither bind nor wait; a host cannot connect |
| Scenarios.RejectedAddresses | SocketHelper.cs:80-88 | an unparsable address and an address the machine does not own are refused with their two exceptions, and no listener is created |

## Left out

- `GetIPAddresses` and the DNS lookups (`Dns.GetHostEntry`) are queries to the operating system. The host's address list is a parameter of `BindToAddress`.
- The socket system calls (`Bind`, `Listen`, `Accept`, `Connect`, `Send`, `Receive`, `Shutdown`, `Close`) are network I/O. Their outcomes are the inputs listed above. I/O errors on an established connection, such as a reset peer or a failed write, are not modelled, and neither are changes of `Connected` made by the operating system.
- The grammar of `IPAddress.TryParse` belongs to a foreign library. It is a parameter (`tryParse`). The `AddressFamily` of the new socket is not modelled either.
- Partial writes are not modelled: `Send` is treated as writing the whole frame at once.
- Blocking forever is not modelled. This covers `Accept` with no peer, and `Receive` with no terminator, including the endless zero-byte reads after the peer closes. It is a liveness property. The model returns `Blocked` when its inputs run out.
- `EndsWith` and `IndexOf` compare culture-sensitively in .NET. The model compares characters exactly. For the terminator, this can differ only on text that holds characters a culture ignores.
- Dafny characters are Unicode scalar values, and C# characters are UTF-16 code units. The ASCII encoder replaces a surrogate pair with a single '?'. So the frame length is counted in scalar values.
- Program.cs, the console loop, is not part of this model. It covers the prompts, `Console.ReadLine`, and the recursive retry on bad input. The `Scenarios` module follows its turn order.
- Sockets.SocketHelper.RemoteEndpoint: returns the end point value, not its `ToString()` text, because the formatting of IP addresses is not part of this model.
- Sockets.SocketHelper.LocalEndpoint: returns the end point value, not its `ToString()` text, for the same reason.
