# AbaltaChat transfer core in Dafny

A model of the part of the AbaltaChat Android app that moves chat messages and
files between two phones over one TCP socket, with proofs about it.

- `TcpClient` reads headers off the socket in a loop (`start`). A `Text:` header
  becomes an incoming chat message. A `File:name:size` header is announced to the
  progress listener, and then `receiveFile` copies up to `size` raw bytes into the
  downloads directory, reporting progress after every read. `sendMessage` writes
  a text header. `sendFile` writes a file header followed by the file's bytes,
  reporting progress after every write.
- `SocketQueue` keeps two FIFO queues, one for text messages and one for file
  chunks, and `sendFileInChunks` splits a file into chunks of at most `chunkSize`
  bytes, flagging the chunk after which the running total equals the file length.
- `readFullyOrNull` fills a buffer from an input stream, or returns -1 when the
  stream ends first.

Files:

- `basics.dfy`: bytes, `Option`, `Min`.
- `headers.dfy`: the header codec. It covers how `sendMessage`/`sendFile` build
  headers, and how `start` classifies them with Kotlin's `split(":")` and
  `toLongOrNull`. It proves round trips, the rejection cases and what a ':' in a
  file name does.
- `streams.dfy`: `java.io.InputStream.read` over a local file's bytes.
- `stream_utils.dfy`: `readFullyOrNull`.
- `tcp_client.dfy`: the socket as a sequence of pieces. A `Frame` is one
  `writeUTF` header, an `Octet` is one raw byte, and a `Fault` is the point
  where the connection breaks. The end of the sequence is the end of the stream.
  - The client is a class whose callbacks are an event log, with a map for the
    downloads directory.
  - `TcpClientProperties` proves the progress facts and the callback sequences.
  - It also connects a sender to a receiver end to end.
- `socket_queue.dfy`: the two queues and the chunking of files; the two kinds of
  `SocketMessage` are two datatypes, one per queue.

Socket writes may fail at any call, as when the peer resets the connection;
the model chooses that nondeterministically. So every send has a failure shape,
and the contracts hold for every choice.

The receive side follows `TcpClient.kt` as written: a plain header frame,
followed by the raw file bytes. The instrumented test
(app/src/androidTest/java/com/example/abaltachat/TcpClientTest.kt, lines 126
and 132) writes control bytes `CONTROL_MESSAGE_TYPE` and `CONTROL_FILE_CHUNK`
that `TcpClient.kt` does not define; the model follows `TcpClient.kt`.

## Model

| member | source | states |
|---|---|---|
| `Headers.ParseLong` | app/src/main/java/com/example/abaltachat/network/TcpClient.kt:46 | `toLongOrNull` only yields values inside Kotlin's `Long` range; that it reads back every size a file header carries is `Headers.ParseDecimal` |
| `Headers.Split` | app/src/main/java/com/example/abaltachat/network/TcpClient.kt:39 | `split(":")` yields one part more than the header has ':' characters, so there is always a first part |
| `Headers.SplitJoin` | app/src/main/java/com/example/abaltachat/network/TcpClient.kt:39 | `split(":")` loses nothing: joining the parts with ':' gives the header back, and no part contains ':' |
| `Headers.DecimalDigits` | app/src/main/java/com/example/abaltachat/network/TcpClient.kt:106 | the digits written for the size denote the size |
| `Headers.Decimal` | app/src/main/java/com/example/abaltachat/network/TcpClient.kt:105-106 | the size written into a file header is a non-empty run of decimal digits with no leading zero (only 0 starts with '0') |
| `Headers.FileHeaderFor` | app/src/main/java/com/example/abaltachat/network/TcpClient.kt:106 | a file header starts with the file prefix and never with the text prefix, so the receiver never takes it for a text |
| `Headers.ParseDecimal` | app/src/main/java/com/example/abaltachat/network/TcpClient.kt:46 | `toLongOrNull` reads back every size `Long.toString` writes |
| `Headers.TextRoundTrip` | app/src/main/java/com/example/abaltachat/network/TcpClient.kt:32-35 | the header `sendMessage` builds (line 95) is dispatched as an incoming text equal to the sent message, whatever it contains (':' and "File:" included) |
| `Headers.FileHeaderRoundTrip` | app/src/main/java/com/example/abaltachat/network/TcpClient.kt:38-46 | the header `sendFile` builds (line 106) is dispatched as a file announcement with the same name and size, when the name has no ':' |
| `Headers.ColonInNameShiftsFields` | app/src/main/java/com/example/abaltachat/network/TcpClient.kt:39-46 | a ':' in the file name shifts the fields: the text before it becomes the name and the text after it the size, which is rejected unless it parses as a Long |
| `Headers.ColonInNameExample` | app/src/main/java/com/example/abaltachat/network/TcpClient.kt:45-46 | a 3-byte file named "a:7" is announced as a 7-byte file named "a" |
| `Headers.DispatchOrder` | app/src/main/java/com/example/abaltachat/network/TcpClient.kt:32-55 | the classification of a header. It is an incoming text exactly when it starts with the text prefix (tested first), and the text is what follows the prefix. Only headers with the file prefix and without the text prefix announce a file, with a size in `Long`'s range. Every other header is skipped as unknown |
| `Headers.FileHeaderRejection` | app/src/main/java/com/example/abaltachat/network/TcpClient.kt:38-46 | a file header is skipped exactly when it has fewer than 3 parts or its third part is not a Long, and an announced name never contains ':' |
| `Streams.ByteInput.Read` | TcpIpChatApp/app/src/main/java/com/example/abaltachat/utils/StreamUtils.kt:8 | `InputStream.read(buffer, off, len)`: 0 for len 0, -1 at the end, otherwise 1..len of the next bytes at `off`, the rest of the buffer untouched |
| `StreamUtils.ReadFullyOrNull` | TcpIpChatApp/app/src/main/java/com/example/abaltachat/utils/StreamUtils.kt:5-13 | returns the buffer size with the buffer holding exactly the next bytes, or -1 exactly when fewer bytes than the buffer size were left (the stream is then drained) |
| `TcpClient.SocketInput.ReadUtf` | app/src/main/java/com/example/abaltachat/network/TcpClient.kt:29 | `readUTF` returns the next header frame whole and consumes it. It throws at the end of the stream or at a fault, consuming nothing, and never reads past a fault |
| `TcpClient.SocketInput.Read` | app/src/main/java/com/example/abaltachat/network/TcpClient.kt:73-74 | a raw read returns -1 at the end, throws at a fault, and otherwise returns 1..len bytes that are exactly the next raw bytes of the stream |
| `TcpClient.SocketOutput.WriteUtf` | app/src/main/java/com/example/abaltachat/network/TcpClient.kt:95-96 | `writeUTF` appends one header frame or nothing, and always fails on a string over 65535 bytes in modified UTF-8 |
| `TcpClient.SocketOutput.Write` | app/src/main/java/com/example/abaltachat/network/TcpClient.kt:117 | a raw write appends exactly the buffer's first `len` bytes, or nothing |
| `TcpClient.TcpClient.constructor` | app/src/main/java/com/example/abaltachat/network/TcpClient.kt:13-23 | a new client is bound to the socket's two streams, with no callbacks made and no file downloaded |
| `TcpClient.TcpClient.ReceiveFile` | app/src/main/java/com/example/abaltachat/network/TcpClient.kt:65-91 | stores only the announced file. It copies at most `fileSize` bytes, which are exactly the stream's next raw bytes, and never reads past a fault. It reports one progress value per read, then a transfer error after a fault or "received" with the bytes written, even after an early end of stream. Nothing is read for size <= 0 |
| `TcpClient.TcpClient.ReceiveNext` | app/src/main/java/com/example/abaltachat/network/TcpClient.kt:28-60 | one pass of the loop. A header frame is always read whole. A text header adds one incoming message. A rejected header changes nothing. A file announcement reports the file and receives it as `ReceiveFile` does. The end of the stream or a fault stops the loop with nothing changed |
| `TcpClient.TcpClient.Start` | app/src/main/java/com/example/abaltachat/network/TcpClient.kt:25-63 | the loop is a run of passes, each one as `ReceiveNext` states, and ends only where no header frame is next. Callbacks are only appended. A stream of headers that announce no file is read to its end: its texts are delivered in order, rejected headers make no callback, and nothing is downloaded |
| `TcpClient.RunOfHeaders` | app/src/main/java/com/example/abaltachat/network/TcpClient.kt:27-61 | any run of the loop over headers that announce no file, followed by the end of the stream or a fault, reads all the headers and makes exactly their callbacks in order, downloading nothing, and stops at the fault |
| `TcpClient.RunFromStop` | app/src/main/java/com/example/abaltachat/network/TcpClient.kt:27-59 | no pass of the loop starts at the end of the stream or at a fault: `readUTF` throws there and the loop breaks |
| `TcpClient.TcpClient.SendMessage` | app/src/main/java/com/example/abaltachat/network/TcpClient.kt:93-101 | writes the text header or nothing, never for an over-long message, and makes no callback |
| `TcpClient.TcpClient.SendFile` | app/src/main/java/com/example/abaltachat/network/TcpClient.kt:103-131 | the header carries the local file's length, 0 for a missing file. Either the header write fails and one transfer error is reported; or, for a missing file, the header goes out and opening the file reports one transfer error; or the header is followed by a prefix of the file as the copy loop describes |
| `TcpClient.TcpClient.SendContent` | app/src/main/java/com/example/abaltachat/network/TcpClient.kt:110-130 | the stream gets exactly the file's first bytes, as many as the running totals say. There is one progress value per write, plus a transfer error exactly when a write failed before the end |
| `TcpClientProperties.PercentBounds` | app/src/main/java/com/example/abaltachat/network/TcpClient.kt:79 | a reported percentage lies in 0..100 and is 100 exactly when all bytes are done |
| `TcpClientProperties.PercentMonotone` | app/src/main/java/com/example/abaltachat/network/TcpClient.kt:120 | more bytes never report a smaller percentage |
| `TcpClientProperties.ProgressReports` | app/src/main/java/com/example/abaltachat/network/TcpClient.kt:71-81 | one transfer's progress values lie in 0..100 and never decrease. 100 appears only as the last one, and exactly when the whole file is done |
| `TcpClientProperties.ReceiptReports` | app/src/main/java/com/example/abaltachat/network/TcpClient.kt:65-91 | a received file's callbacks: progress values, then one final report. It is a transfer error exactly when a fault cut the file short, and "received" with the bytes that came when the stream ended. A complete file ends with 100 and then "received" with the full size |
| `TcpClientProperties.SendReports` | app/src/main/java/com/example/abaltachat/network/TcpClient.kt:114-129 | a sent file's callbacks: progress values as above, followed by a transfer error exactly when not every byte went out |
| `TcpClientProperties.ReceiptOfOctets` | app/src/main/java/com/example/abaltachat/network/TcpClient.kt:71-83 | after an announcement followed by at most the announced number of raw bytes, exactly those bytes are stored and reported as received |
| `TcpClientProperties.ReceiptStopsAtFault` | app/src/main/java/com/example/abaltachat/network/TcpClient.kt:73-89 | when the connection breaks before the announced size is reached, exactly the bytes before the fault are stored, the fault is not consumed, and the last callback is a transfer error |
| `TcpClientProperties.ReceiptOfWholeFile` | app/src/main/java/com/example/abaltachat/network/TcpClient.kt:71-83 | when the whole announced file is on the stream, exactly its bytes are taken, what follows is left for the next header, and the last callback is "received" with the full size |
| `TcpClientProperties.PassOverFile` | app/src/main/java/com/example/abaltachat/network/TcpClient.kt:38-91 | one pass over a file header and the whole file stores the file under its name, reports it and leaves the stream just past its bytes, ending with progress 100 (for a non-empty file) and "received" with the full size |
| `TcpClientProperties.RunOverFile` | app/src/main/java/com/example/abaltachat/network/TcpClient.kt:25-91 | a run of the loop that starts at a file header and the whole file takes both in its first pass, storing the file under its name and reporting it, and goes on from the data just after the file |
| `TcpClientProperties.FileThenHeaders` | app/src/main/java/com/example/abaltachat/network/TcpClient.kt:25-63 | the loop over a whole file, then headers that announce no file, then the end of the stream or a fault, stores the file, reports it, then makes the headers' callbacks in order, and stops at the end or the fault |
| `TcpClientProperties.UnknownHeaderSkipped` | app/src/main/java/com/example/abaltachat/network/TcpClient.kt:54 | a header of unknown type is skipped without a callback, and the text after it is still delivered |
| `TcpClientProperties.ResetEndsChat` | app/src/main/java/com/example/abaltachat/network/TcpClient.kt:27-61 | when the connection is reset after a text, that text is delivered, the loop stops at the reset, and a text written behind it never arrives |
| `TcpClientProperties.ReceiveAll` | app/src/main/java/com/example/abaltachat/network/TcpClient.kt:25-63 | the loop on a fresh connection is a run of passes from the stream's start that ends where no header frame is next |
| `TcpClientProperties.ReceiveFirst` | app/src/main/java/com/example/abaltachat/network/TcpClient.kt:28-60 | one pass on a fresh connection: a header frame next is always handled, the end of the stream or a fault stops at once, and stopping leaves no callback and no download |
| `TcpClientProperties.TextOverSocket` | app/src/main/java/com/example/abaltachat/network/TcpClient.kt:93-101 | a sent message reaches the other client as exactly one incoming message with the same text, or nothing arrives. An over-long message never arrives |
| `TcpClientProperties.SentFile` | app/src/main/java/com/example/abaltachat/network/TcpClient.kt:103-131 | on a fresh connection `sendFile` leaves nothing, with one transfer error, or the file header followed by the file's first bytes. A transfer error is reported exactly when the file is missing or not all of its bytes went out |
| `TcpClientProperties.WholeFileSent` | app/src/main/java/com/example/abaltachat/network/TcpClient.kt:103-131 | a `sendFile` that reported no transfer error put exactly the file header and every byte of the file on the connection |
| `TcpClientProperties.SendFileOnce` | app/src/main/java/com/example/abaltachat/network/TcpClient.kt:103-131 | `sendFile` on a fresh connection sends nothing (with one transfer error) or the file header and the file's first bytes, with a transfer error exactly when the file is missing or short of them, and nothing for an over-long header |
| `TcpClientProperties.SendFileThenText` | app/src/main/java/com/example/abaltachat/network/TcpClient.kt:93-131 | `sendFile` then `sendMessage` with no error and both headers written leaves the whole file and then the text header on the connection; an over-long text is never complete |
| `TcpClientProperties.ReceivedFile` | app/src/main/java/com/example/abaltachat/network/TcpClient.kt:38-91 | a receiver given the header `sendFile` writes, a prefix of the file and then a clean end or a reset, announces the full size and stores exactly the prefix. It reports "received" with the prefix's length, after progress 100 for the whole file, or a transfer error when the reset came before the whole file |
| `TcpClientProperties.ReceiptOverEnding` | app/src/main/java/com/example/abaltachat/network/TcpClient.kt:71-89 | a file announced over its first bytes, followed by a clean end or a reset, stores exactly those bytes. The last callback is a transfer error when the reset came before the whole file, otherwise "received" with their number, after progress 100 for a complete non-empty file |
| `TcpClientProperties.ArrivedFile` | app/src/main/java/com/example/abaltachat/network/TcpClient.kt:38-91 | the first pass of the loop over a file header, a prefix of the file and the connection's ending announces the full size, stores the prefix, and ends with "received", or with a transfer error when a reset cut the file short |
| `TcpClientProperties.FileTransferOverSocket` | app/src/main/java/com/example/abaltachat/network/TcpClient.kt:103-131 | the other client stores a prefix of the sent file. It stores the whole file exactly when the sender reported no error, ending with "received", after progress 100 when the file is not empty. When the connection breaks (as a failed write does), a short prefix ends in a transfer error on the receiving side too; when it ends cleanly the prefix is reported as received with its length. A header that could not be written delivers nothing. A missing file reports an error on the sending side and delivers at most an empty file |
| `TcpClientProperties.FileThenTextOverSocket` | app/src/main/java/com/example/abaltachat/network/TcpClient.kt:25-131 | a file and then a message sent over one connection, when every write succeeded, arrive as the whole file stored under its name and reported received (after progress 100 when not empty), followed by the incoming message |
| `SocketQueue.SocketQueue.constructor` | app/src/main/java/com/example/abaltachat/network/SocketQueue.kt:9-10 | both queues start empty |
| `SocketQueue.SocketQueue.TakeText` | app/src/main/java/com/example/abaltachat/network/SocketQueue.kt:12-16 | returns nothing exactly when `hasTextMessage` is false, otherwise the oldest text, removing only it; the chunk queue is untouched |
| `SocketQueue.SocketQueue.TakeFileChunk` | app/src/main/java/com/example/abaltachat/network/SocketQueue.kt:14-17 | returns nothing exactly when `hasFileChunk` is false, otherwise the oldest chunk, removing only it; the text queue is untouched |
| `SocketQueue.SocketQueue.SendText` | app/src/main/java/com/example/abaltachat/network/SocketQueue.kt:12-19 | appends the text at the tail of the text queue, so `hasTextMessage` is then true; the chunk queue and `hasFileChunk` are untouched |
| `SocketQueue.SocketQueue.SendFileInChunks` | app/src/main/java/com/example/abaltachat/network/SocketQueue.kt:22-44 | appends chunks after everything already queued. Together they are the file's bytes in order. Each carries the file id and 1..chunkSize bytes, and is flagged last exactly when the running total after it equals the file length. Afterwards `hasFileChunk` holds exactly when it did before or the file is not empty. The text queue is untouched |
| `SocketQueue.OnlyLastChunkFlagged` | app/src/main/java/com/example/abaltachat/network/SocketQueue.kt:31-34 | only the final chunk of a file is flagged last, and an empty file enqueues no chunk |
| `SocketQueue.TextsInOrder` | app/src/main/java/com/example/abaltachat/network/SocketQueue.kt:9-19 | texts come out in the order they went in, whatever happens to the chunk queue in between; the first chunk of a file holds its first bytes |

Some members only compute and carry no contract; the rows above name the
members that state them. `sendMessage`'s `TEXT_HEADER + message` is the
function `Headers.TextHeaderFor`, and what the receiver makes of it is
`Headers.TextRoundTrip`. The classification in `start` is the function
`Headers.Dispatch`, stated by `Headers.DispatchOrder` and
`Headers.FileHeaderRejection`. `hasTextMessage` and `hasFileChunk` are the
predicates `HasTextMessage` and `HasFileChunk`, stated by the contracts of
`TakeText`, `TakeFileChunk`, `SendText` and `SendFileInChunks`.

## Left out

- `stop()`, the coroutine job, the `Socket` object and its streams' buffering: the model starts from two open streams and never closes them.
- Logging (`Log.d`, `Log.e`, `Log.w`) has no effect on state and is not modelled.
- `ChatMessage` timestamps: the clock is not modelled, and a message carries only its text and direction.
- The downloads path from `Environment` and `File` path resolution: the downloads directory is a map from the header's file name to the bytes written. `file.name` and `file.length()` are modelled as that name and the number of bytes written.
- Local disk errors in `receiveFile` (opening or writing the output file): only socket faults cause a transfer error in the model.
- The modified-UTF-8 encoding of `writeUTF`/`readUTF` is a JDK library call. Only its 65535-byte limit is modelled, as an error path of both senders.
- `TcpClient.SocketInput.ReadUtf`: raw file bytes where a header is expected are over-approximated. They may fail, or yield an arbitrary header after consuming some of them, because their decoding depends on that encoding.
- `TcpClient.SocketInput.Read`: a header frame read as raw data yields bytes the model does not represent, because they would be its modified-UTF-8 encoding.
- `TcpClient.SocketOutput.Write`: a failed write is modelled as sending nothing, although a real socket may have sent part of the buffer before failing.
- `Headers.ParseLong`: ASCII digits only; the JVM's `toLongOrNull` also accepts digits of other Unicode scripts.
- `TcpClientProperties.PercentBounds`: integers are unbounded, so the `Long` overflow of `totalRead * 100` for files over about 92 petabytes is not modelled.
- `SocketQueue.SocketQueue.SendFileInChunks`: requires `chunkSize > 0`. With 0 the Kotlin loop reads 0 bytes forever, and a negative size throws when the buffer is allocated.
- `SocketQueue.SocketQueue.SendFileInChunks`: the `OutOfMemoryError` it may throw for a large chunk size is not modelled, and neither is a file that changes length while it is read.
- `SocketQueue.SocketQueue.SendFileInChunks`: the file is given as its bytes, so `file.inputStream()` throwing for a missing or unreadable file (the exception reaches the caller) and a failing `input.read` are not modelled.
- `StreamUtils.ReadFullyOrNull`: the stream is a finite source of bytes whose reads never throw. An `IOException` from `read`, which leaves the buffer partly filled and propagates out of the function, is not modelled.
- `TcpClient.TcpClient.SendFile`: of the local read errors only a missing file is modelled (length 0, the header goes out, then a transfer error). A file that exists but cannot be opened, or a disk error in the middle of `input.read`, is not: the model reads an existing file whole.
- `TcpClient.TcpClient.SendContent`: the copy loop reads the local file without errors; a failing `input.read` is not modelled, for the reason given for `SendFile`.
- Concurrency: `ConcurrentLinkedQueue` and the coroutine dispatcher are modelled sequentially, one call at a time.
- `TcpClientProperties.FileTransferOverSocket`: stated for file names without ':', since `Headers.ColonInNameShiftsFields` shows what happens to the others. The receiver handles the first header, which is all the sender wrote.
