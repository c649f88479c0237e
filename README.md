# A verified model of the capture demo's video link and permission check

The capture demo streams hardware-encoded HEVC video from an Android headset
to a desktop over a raw TCP connection. This project models three pieces of it
in Dafny and proves what they do:

- **The sender.** `VideoEncoder` (Kotlin) is modelled as a class. Its fields are:
  - the lifecycle flags;
  - the presence of the codec, encode thread, output stream and socket;
  - the 30-slot `frameQueue`;
  - `wire`, the bytes written to the current connection;
  - `notifications`, the calls made on the registered callback.

  The codec is abstract. What `dequeueOutputBuffer` answers is given as a
  sequence of `OutputEvent`s: an output buffer with its `BufferInfo`, a
  format change, try-again-later, or another info code.
- **The receiver.** `video_receiver.py` is modelled as a class `VideoReceiver`
  over a `ClientSocket`. Its methods are the loops of `start` and
  `receive_frames`.
  - A connection is a `Stream`: the bytes the peer sent, in order, plus the
    sizes of the pieces in which TCP delivers them. `recv(n)` returns at most
    `n` bytes of the piece at the front. Every way a TCP connection can answer
    a run of plain `recv` calls is some `Stream`. A `recv(4, MSG_PEEK)` sees
    the same front piece as the `recv` after it. Bytes that arrive between a
    short peek and that `recv` are not modelled (see "## Left out").
  - The methods are proved to compute pure functions over streams (module
    `FrameStream`). Those functions are then related to `ParseFrames`, a
    parser of the byte sequence read in full.
- **The permission check.** `PermissionUtils` (Java) is modelled with the
  platform's answers as input. Each permission carries whether
  `checkSelfPermission` grants it and whether
  `shouldShowRequestPermissionRationale` holds. `Build.VERSION.SDK_INT` is a
  parameter. The permissions the code asks about, and the
  `requestPermissions` call it makes, are outputs.

Module `RoundTrip` connects the two ends for a run of plain answers. A plain
run has no further format change, only valid buffer ranges, and no buffer
above 10 MiB. For such a run, the bytes the sender writes (after an optional
leading format change) are the frames of the payloads it sent. A receiver
that reads each field in full gets exactly those payloads back, however the
network splits the stream. The receiver as written gets them back when the
stream is already buffered, and otherwise a prefix of them. Both hold whether
or not the connection opens with the format tag.

Files:
- `bytes.dfy`: bytes, the JVM `Int`, and 4-byte big-endian integers.
- `encoder.dfy`: the sender.
- `frame_stream.dfy`: the receiver's loops as functions, and the parser.
- `receiver.dfy`: the receiver's objects.
- `roundtrip.dfy`: sender and receiver together.
- `permissions.dfy`: the permission check.

## Model

| member | source | states |
|---|---|---|
| `Encoder.VideoEncoder.constructor` | app/src/main/java/com/picoxr/capturesdkdemo/VideoEncoder.kt:17-23 | No codec, callback, thread, stream or socket; the queue is empty and the lifecycle invariant holds |
| `Encoder.VideoEncoder.SetCallback` | app/src/main/java/com/picoxr/capturesdkdemo/VideoEncoder.kt:37-39 | Registers the callback and changes nothing else |
| `Encoder.VideoEncoder.Prepare` | app/src/main/java/com/picoxr/capturesdkdemo/VideoEncoder.kt:41-58 | Makes the codec present and changes nothing else |
| `Encoder.VideoEncoder.ConnectToServer` | app/src/main/java/com/picoxr/capturesdkdemo/VideoEncoder.kt:60-74 | Opens a socket and its stream on a fresh connection with nothing written yet |
| `Encoder.VideoEncoder.StartEncoding` | app/src/main/java/com/picoxr/capturesdkdemo/VideoEncoder.kt:76-86 | A no-op while encoding or without a codec. Otherwise it starts encoding with a thread and notifies `onEncoderStarted` exactly once, if a callback is set. The lifecycle invariant is kept |
| `Encoder.VideoEncoder.StopEncoding` | app/src/main/java/com/picoxr/capturesdkdemo/VideoEncoder.kt:88-98 | Not encoding, no thread, empty queue, one `onEncoderStopped`, whatever the state before (also when it was never started) |
| `Encoder.VideoEncoder.QueueFrame` | app/src/main/java/com/picoxr/capturesdkdemo/VideoEncoder.kt:100-104 | Appends the frame exactly when encoding with fewer than 30 queued. Otherwise the queue is unchanged. Queued frames are never changed, and the queue never exceeds 30 (the invariant) |
| `Encoder.FrameBytes` | app/src/main/java/com/picoxr/capturesdkdemo/VideoEncoder.kt:176-224 | The bytes one answer writes to an open stream. They are empty exactly when the answer is neither a non-empty buffer nor a format change, and otherwise at least the 4-byte size field or tag |
| `Encoder.FrameBytesReadBack` | app/src/main/java/com/picoxr/capturesdkdemo/VideoEncoder.kt:176-192 | A buffer with size > 0 writes `4 + size` bytes. The first four read back big-endian as `size` and the rest are the payload at `offset`. A format change writes exactly `HEVC`. An empty or missing buffer, and the other answers, write nothing |
| `Encoder.VideoEncoder.HandleOutputEvent` | app/src/main/java/com/picoxr/capturesdkdemo/VideoEncoder.kt:169-230 | One answer appends its bytes to the open stream and its `onEncodedData` call to the callback's. It ends the loop on end-of-stream or try-again-later, and aborts on an invalid buffer range |
| `Encoder.VideoEncoder.Advance` | app/src/main/java/com/picoxr/capturesdkdemo/VideoEncoder.kt:167-231 | One pass of the loop extends the bytes written and the calls made by those of the answer at `i`. The loop goes on exactly when that answer does not stop it |
| `Encoder.VideoEncoder.ProcessEncodedOutput` | app/src/main/java/com/picoxr/capturesdkdemo/VideoEncoder.kt:164-232 | Takes exactly `Consumed(events)` answers. What it writes is the bytes of those answers in order (nothing without a stream), and the calls are theirs. It reports whether it ended by an exception |
| `Encoder.Consumed` | app/src/main/java/com/picoxr/capturesdkdemo/VideoEncoder.kt:165-231 | How many answers one run of the `while (!outputDone)` loop takes. Its properties are stated by `Encoder.ConsumedEndsAtFirstStop` |
| `Encoder.ConsumedEndsAtFirstStop` | app/src/main/java/com/picoxr/capturesdkdemo/VideoEncoder.kt:165-231 | The loop takes at least one answer when there is one. No answer before the last one it takes stops it, and when it leaves answers untaken, the last one it took stopped it |
| `Encoder.WireBytes` | app/src/main/java/com/picoxr/capturesdkdemo/VideoEncoder.kt:167-231 | The bytes of a run of answers, one answer after another. Its properties are stated by `Encoder.WireBytesNothing` and `Encoder.WireBytesAppend` |
| `Encoder.WireBytesNothing` | app/src/main/java/com/picoxr/capturesdkdemo/VideoEncoder.kt:176-224 | A run of answers writes nothing exactly when none of them is a non-empty buffer or a format change |
| `Encoder.WireBytesAppend` | app/src/main/java/com/picoxr/capturesdkdemo/VideoEncoder.kt:185-191 | The bytes and calls of two runs of answers are those of the first followed by those of the second |
| `Encoder.VideoEncoder.Release` | app/src/main/java/com/picoxr/capturesdkdemo/VideoEncoder.kt:234-251 | Stops encoding, then leaves no codec, stream or socket. The invariant is kept and nothing is written |
| `Encoder.ReleaseTwice` | app/src/main/java/com/picoxr/capturesdkdemo/VideoEncoder.kt:234-251 | A second release leaves the state exactly as the first did. Only `onEncoderStopped` is heard once more |
| `Bytes.ReadBigEndian32` | video_receiver.py:135 | `struct.unpack('>I')` of four bytes is below 2^32 |
| `Bytes.BigEndian32` | app/src/main/java/com/picoxr/capturesdkdemo/VideoEncoder.kt:184 | Four bytes that read back as the value |
| `Bytes.PutInt` | app/src/main/java/com/picoxr/capturesdkdemo/VideoEncoder.kt:184 | `putInt` writes four bytes that read back big-endian as the two's-complement value |
| `Bytes.ReadBigEndian32Injective` | video_receiver.py:135 | Distinct size fields decode to distinct sizes |
| `Bytes.BigEndian32OfRead` | video_receiver.py:135 | Encoding a decoded size field gives the field back |
| `FrameStream.Take` | video_receiver.py:124 | `recv(n)` returns at most `n` bytes from the front of the stream, and the rest remains. It returns nothing exactly on a closed, drained connection |
| `FrameStream.Peek` | video_receiver.py:70 | `MSG_PEEK` returns what `recv` would, without consuming it |
| `FrameStream.Gather` | video_receiver.py:145-154 | The payload loop yields the next `min(frame_size, available)` bytes of the stream in order, and leaves the rest |
| `FrameStream.GatherIsReadExact` | video_receiver.py:145-158 | However TCP splits the payload, the payload loop reads the next `frame_size` bytes, or all there are; `remaining` reaches 0 exactly when all arrived |
| `FrameStream.Receive` | video_receiver.py:121-165 | The frame loop of `receive_frames` as written, over a delivery schedule. It writes only frames within the 10 MiB limit and stops for a reason other than `running` |
| `FrameStream.Session` | video_receiver.py:66-88 | The tag peek of `start`, then the frame loop. It writes only frames within the limit |
| `FrameStream.ParseFrames` | video_receiver.py:121-163 | Parsing a stream read in full writes only frames within the 10 MiB limit and stops for a reason other than `running` |
| `FrameStream.ReceiveStops` | video_receiver.py:124-158 | No bytes, fewer than 4 bytes for the size, a size above 10 MiB, or a connection closed inside the payload end reception without writing that frame |
| `FrameStream.ReceiveAsParsed` | video_receiver.py:121-178 | The loop as written never writes a frame that parsing would not. It differs from parsing the whole stream only by stopping on a size field that arrived in pieces |
| `FrameStream.ReceiveWhole` | video_receiver.py:121-165 | On a stream delivered in one piece the loop as written is the parser |
| `FrameStream.ReceiveBuffered` | video_receiver.py:121-165 | The same for a stream that is already buffered in full |
| `FrameStream.SessionBuffered` | video_receiver.py:66-88 | The tag peek followed by the loop, on a buffered stream, is the parser of the whole session |
| `FrameStream.SplitSizeField` | video_receiver.py:124-132 | A frame whose size field arrives as 3 bytes and then 1 is dropped by the loop as written, though it is whole |
| `FrameStream.SplitFormatTag` | video_receiver.py:70-78 | A tag that arrives as 2 bytes and then 2 is missed by the peek, and the loop then stops on an incomplete size |
| `FrameStream.ReceiveExactIsParse` | video_receiver.py:121-165 | With each size field read in full, the loop is the parser on every delivery schedule |
| `FrameStream.SessionExactIsParse` | video_receiver.py:66-88 | With the tag also read in full, a session is the parser on every schedule |
| `FrameStream.ParseFramesOfFramed` | video_receiver.py:124-163 | Parsing framed payloads gives them back in order and stops on end of data |
| `FrameStream.ParseFramesAppend` | video_receiver.py:124-163 | Parsing framed payloads followed by more bytes gives those payloads, then what the rest parses to |
| `FrameStream.ParseFramesReframes` | video_receiver.py:124-163 | Framing what was parsed gives a prefix of the stream, and the whole stream exactly when parsing stopped on end of data |
| `FrameStream.FormatTagAsSize` | video_receiver.py:135-142 | `HEVC` read as a size is 0x48455643, above the 10 MiB limit |
| `FrameStream.FramedUntagged` | video_receiver.py:70-72 | The sender's frames never start with the tag: a size within the limit starts with a zero byte |
| `FrameStream.MidStreamTag` | video_receiver.py:140-142 | A tag after some frames stops parsing with that invalid size, after exactly those frames |
| `FrameStream.ParseStreamOfFramed` | video_receiver.py:66-78 | A session over framed payloads, with or without a leading tag, gives the payloads back |
| `FrameStream.ConcatAppend` | video_receiver.py:163 | Writing one more frame appends its bytes to the output file |
| `Receiver.ClientSocket.constructor` | video_receiver.py:57 | The accepted socket holds the peer's stream |
| `Receiver.ClientSocket.Recv` | video_receiver.py:124 | `recv(n)` returns and consumes what `Take` says |
| `Receiver.ClientSocket.Peek` | video_receiver.py:70 | `recv(4, MSG_PEEK)` returns what `Peek` says and consumes nothing |
| `Receiver.VideoReceiver.constructor` | video_receiver.py:16-33 | Not running and no client socket. `output.h265` is not opened, so it keeps what an earlier run left in it |
| `Receiver.VideoReceiver.ReceivePayload` | video_receiver.py:145-158 | The inner loop computes `Gather`: the payload bytes and the stream left over |
| `Receiver.VideoReceiver.ReceiveFrames` | video_receiver.py:108-193 | The output file is reopened empty and ends as the frames of `Receive`, concatenated in order. `frame_count` is their number, and the stop reason is `Receive`'s. When not running nothing is read |
| `Receiver.VideoReceiver.HandleConnection` | video_receiver.py:57-99 | The tag is consumed only when the first four bytes peeked are `HEVC`. Then the frames of `Session` are written and the client socket is dropped |
| `Receiver.VideoReceiver.Accept` | video_receiver.py:55-99 | One turn of the accept loop writes the frames of that connection's session |
| `Receiver.VideoReceiver.AcceptAll` | video_receiver.py:55-99 | While the receiver runs, the accept loop over the accepted connections leaves no client socket. The output file then holds the frames of the last connection's session, or is untouched when nothing connected |
| `Receiver.VideoReceiver.Start` | video_receiver.py:35-106 | After the connections and `stop`, the output file holds the frames of the last connection only. The receiver is stopped with no client socket |
| `Receiver.VideoReceiver.Stop` | video_receiver.py:195-211 | Not running. The client socket reference is kept: `stop` closes it but does not drop it |
| `RoundTrip.SentOf` | app/src/main/java/com/picoxr/capturesdkdemo/VideoEncoder.kt:176-191 | An answer sends one payload exactly when it is a non-empty buffer |
| `RoundTrip.Payloads` | app/src/main/java/com/picoxr/capturesdkdemo/VideoEncoder.kt:167-231 | The payloads sent for a run of answers: at most one per answer, within the receiver's limit on plain runs |
| `RoundTrip.TagsAgree` | app/src/main/java/com/picoxr/capturesdkdemo/VideoEncoder.kt:217 | The tag the sender writes is the one the receiver looks for |
| `RoundTrip.PutIntOfSize` | app/src/main/java/com/picoxr/capturesdkdemo/VideoEncoder.kt:184-191 | The sender's size field and payload are the frame the receiver decodes |
| `RoundTrip.FrameBytesIsFramed` | app/src/main/java/com/picoxr/capturesdkdemo/VideoEncoder.kt:176-192 | One plain answer writes its payload as one frame, or nothing |
| `RoundTrip.WireIsFramed` | app/src/main/java/com/picoxr/capturesdkdemo/VideoEncoder.kt:167-231 | The bytes of a run of plain answers are the framing of the payloads sent |
| `RoundTrip.FramedAppend` | app/src/main/java/com/picoxr/capturesdkdemo/VideoEncoder.kt:185-191 | Framing two runs is framing one after the other |
| `RoundTrip.SessionWire` | app/src/main/java/com/picoxr/capturesdkdemo/VideoEncoder.kt:209-224 | A format change followed by plain answers writes the tag, then the frames |
| `RoundTrip.ParseWire` | video_receiver.py:66-165 | Parsing what the sender wrote, with or without a leading format change, gives the payloads in order and stops on end of data |
| `RoundTrip.EndToEnd` | video_receiver.py:66-165 | On any delivery schedule, a receiver that reads each field in full gets back exactly the payloads sent |
| `RoundTrip.EndToEndAsWritten` | video_receiver.py:66-165 | With or without a leading format change, the receiver as written gets back exactly the payloads when the session is buffered, and otherwise a prefix of them |
| `RoundTrip.SecondFormatChange` | app/src/main/java/com/picoxr/capturesdkdemo/VideoEncoder.kt:209-224 | A second format change in mid-stream makes the receiver stop after the payloads before it, rejecting size 0x48455643 |
| `Permissions.Names` | app/src/main/java/com/picoxr/capturesdkdemo/permissions/PermissionUtils.java:21 | The names of the permissions, one per permission, in order |
| `Permissions.FirstNotGranted` | app/src/main/java/com/picoxr/capturesdkdemo/permissions/PermissionUtils.java:47-52 | The position where the `isPermissionGranted` loop returns: the first permission not granted |
| `Permissions.FirstWithoutRationale` | app/src/main/java/com/picoxr/capturesdkdemo/permissions/PermissionUtils.java:81-87 | The position where the `isRefuseOncePermission` loop breaks: the first permission without a rationale |
| `Permissions.IsPermissionGranted` | app/src/main/java/com/picoxr/capturesdkdemo/permissions/PermissionUtils.java:45-57 | True exactly when the SDK is below 23 or every permission is granted (so true for none). It asks the platform about none below 23, and otherwise about those up to and including the first not granted |
| `Permissions.IsRefuseOncePermission` | app/src/main/java/com/picoxr/capturesdkdemo/permissions/PermissionUtils.java:79-89 | True exactly when every permission shows a rationale (so true for none). It asks about those up to and including the first that does not |
| `Permissions.CheckPermission` | app/src/main/java/com/picoxr/capturesdkdemo/permissions/PermissionUtils.java:21-40 | The result is 1, 2 or 3. It is OK exactly when granted, and REFUSE_ONCE exactly when not granted, not a first request and every permission shows a rationale. It requests all permissions with code 5 exactly when not granted and (first request or refuse-once) |

## Left out

- The encode thread and `encodeLoop` (VideoEncoder.kt:106-162) are left out. This covers the `poll` timeout, `join(1000)`, the unsynchronised `isEncoding` flag, and the final drain after `signalEndOfInputStream`. These are concurrency and timing. `processEncodedOutput` is modelled for the answers the codec gives.
- MediaCodec itself is abstract. `prepare` only makes a codec present. `configure`, `createInputSurface`, `getInputSurface`, the input-buffer calls and `releaseOutputBuffer` are platform calls with no effect in the model.
- `OutputStream.write` failures (`IOException`) are not modelled. The model assumes writes succeed, so the `onEncoderError` calls of the handlers at VideoEncoder.kt:193-196 and 220-223 do not arise. An invalid buffer range is modelled: it raises an exception the handler does not catch, after the size field was written. The model ends the run there.
- The `onEncodedData` call records only the buffer size. The `ByteBuffer` and `BufferInfo` objects it passes are platform objects.
- Closing the stream and socket in `connectToServer` and `release`, and the exceptions `release` swallows, are not modelled. Only the presence of each resource is.
- Socket timeouts are not modelled: the 1 s peek timeout and the 5 s read timeout with its `continue` branch (video_receiver.py:173-175). They have no meaning without real time. The peek answers at once, with what `recv` would return.
- `FrameStream.Session`: the `recv(4)` after the peek returns exactly the bytes the peek saw. In the program, bytes that arrive in between can join it. For example, the peek sees `HE`, then `VC` arrives, and the `recv(4)` at video_receiver.py:124 returns `HEVC`. It is then rejected as size 0x48455643 (video_receiver.py:140-142). For that split tag the model gives only `IncompleteSize(2)`. `Receiver.VideoReceiver.HandleConnection` inherits this.
- `ConnectionResetError` and other socket or file errors are not modelled (video_receiver.py:90-95, 176-178, 180-181). A connection only ever ends by being closed.
- FPS statistics and all `print` output of the receiver are not modelled. They use floating-point wall-clock time.
- Binding, listening and the blocking `accept` are not modelled either. `Start` takes the streams of the connections that get accepted, and the socket closes in `stop` are left out (the reference it keeps is modelled). The `KeyboardInterrupt` that ends `start` is stood for by the end of that sequence.
- The `frame_size < 0` test (video_receiver.py:140) can never hold for an unsigned decode, so the model has no branch for it.
- `Receiver.VideoReceiver.ReceiveFrames`: states the frames written and the stop reason, but not what is left unread on the socket once it stops. Nothing after the loop reads it.
- The `Context` overload of `isPermissionGranted` (PermissionUtils.java:62-74) does the same as the `Activity` one, so it is modelled once.
- A `null` permissions array, which would throw, is not modelled, because a Dafny sequence is never null.
- `MainActivity.kt` is UI and vendor-SDK glue and is not part of this model.

## Findings

| source | as written | input that shows it | evidently intended | confidence | as-written member | corrected member |
|---|---|---|---|---|---|---|
| video_receiver.py:124-132 | the size field is read with a single `recv(4)`, and fewer than four bytes end reception | a frame `00 00 00 01 07` whose first TCP delivery is the 3 bytes `00 00 00` | wait for all four bytes, as the payload loop does | medium, not executed | `FrameStream.SplitSizeField` | `FrameStream.ReceiveExactIsParse` |
| video_receiver.py:70-78 | the tag is detected by a single `recv(4, MSG_PEEK)` | a session whose first delivery is `HE` and whose second is `VC` | read off the tag whenever the first four bytes of the stream are `HEVC` | medium, not executed | `FrameStream.SplitFormatTag` | `FrameStream.SessionExactIsParse` |

In both rows, the as-written loop is `FrameStream.Receive` and its session is
`FrameStream.Session`. The corrected loop is `FrameStream.ReceiveExact` with
`FrameStream.SessionExact`; it reads every field until it has arrived in full
or the connection closes. `RoundTrip.EndToEnd` proves the corrected receiver
recovers the sent payloads on every delivery schedule.
`RoundTrip.EndToEndAsWritten` proves the as-written receiver does so only for
buffered streams, and otherwise writes a prefix of the payloads. The receiver
classes model the code as written. When the rest of a split tag arrives
between the peek and the first `recv(4)`, the program can also stop on the
tag read as an invalid size. The model does not produce that outcome (see
"## Left out").
