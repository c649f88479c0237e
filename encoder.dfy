/**
 * The encoder wrapper of the capture demo (`VideoEncoder.kt`): its lifecycle
 * flags, the bounded frame queue, and the bytes it forwards to the server for
 * each event the hardware encoder reports.
 *
 * The hardware codec is abstract: `prepare` only makes it present, and what
 * `dequeueOutputBuffer` answers is given as a sequence of `OutputEvent`s.
 * The socket and its output stream are presence flags plus `wire`, the bytes
 * written to the current connection so far.
 */
module Encoder {
  import opened Bytes

  /** `"HEVC".toByteArray(Charsets.UTF_8)`: the placeholder format tag. */
  const HevcTag: seq<byte> := [0x48, 0x45, 0x56, 0x43]

  /** `MediaCodec.BUFFER_FLAG_END_OF_STREAM`. */
  const BufferFlagEndOfStream: bv32 := 4

  /** Capacity of `frameQueue` (`ArrayBlockingQueue<FrameData>(30)`). */
  const QueueCapacity: nat := 30

  /** `MediaCodec.BufferInfo` of one output buffer. */
  datatype BufferInfo = BufferInfo(offset: int32, size: int32, flags: bv32)

  /** One answer of `dequeueOutputBuffer`. */
  datatype OutputEvent =
    | OutputBuffer(info: BufferInfo, buffer: Option<seq<byte>>)  // an index >= 0; `getOutputBuffer` may give null
    | OutputFormatChanged                                         // INFO_OUTPUT_FORMAT_CHANGED
    | TryAgainLater                                               // INFO_TRY_AGAIN_LATER
    | OtherInfo                                                   // any other negative index: no branch applies

  /** A call made on the registered `EncoderCallback`. */
  datatype Notice = EncoderStarted | EncoderStopped | EncodedData(size: int)

  /** A frame handed to `queueFrame`: its surface (abstract) and timestamp. */
  datatype FrameData = FrameData(surface: nat, presentationTimeUs: int)

  predicate EndOfStream(info: BufferInfo) {
    info.flags & BufferFlagEndOfStream != 0
  }

  /** `buffer.position(offset)` followed by `buffer.get(ByteArray(size))` succeeds. */
  predicate InRange(info: BufferInfo, buffer: seq<byte>) {
    0 <= info.offset && info.offset as int + info.size as int <= |buffer|
  }

  /** The bytes `size` bytes long starting at `offset`. */
  function Payload(info: BufferInfo, buffer: seq<byte>): (p: seq<byte>)
    requires InRange(info, buffer) && info.size >= 0
    ensures |p| == info.size as int
  {
    buffer[info.offset..info.offset as int + info.size as int]
  }

  /** A non-empty output buffer whose data is sent. */
  predicate SendsData(e: OutputEvent) {
    e.OutputBuffer? && e.buffer.Some? && e.info.size > 0
  }

  /**
   * The event makes `processEncodedOutput` throw after the size field was
   * written: the buffer range is invalid (`IllegalArgumentException` or
   * `BufferUnderflowException`, which the `IOException` handler does not
   * catch).
   */
  predicate Aborts(e: OutputEvent, streamOpen: bool) {
    SendsData(e) && streamOpen && !InRange(e.info, e.buffer.value)
  }

  /** The event sets `outputDone`. */
  predicate Ends(e: OutputEvent) {
    e.TryAgainLater? || (e.OutputBuffer? && EndOfStream(e.info))
  }

  predicate Stops(e: OutputEvent, streamOpen: bool) {
    Ends(e) || Aborts(e, streamOpen)
  }

  /** An event the loop handles without an exception. */
  predicate WellFormed(e: OutputEvent) {
    SendsData(e) ==> InRange(e.info, e.buffer.value)
  }

  /** The answer writes to an open stream: a non-empty buffer or a format change. */
  predicate Writes(e: OutputEvent) {
    SendsData(e) || e.OutputFormatChanged?
  }

  /**
   * The bytes `processEncodedOutput` writes for one answer on an open
   * stream: the size field and payload of a non-empty buffer, the tag of a
   * format change, and nothing otherwise. For a buffer whose range is
   * invalid only the size field is written before the exception.
   */
  function FrameBytes(e: OutputEvent): (b: seq<byte>)
    ensures b == [] <==> !Writes(e)
    ensures Writes(e) ==> |b| >= 4
  {
    if SendsData(e) then
      PutInt(e.info.size) + (if InRange(e.info, e.buffer.value) then Payload(e.info, e.buffer.value) else [])
    else if e.OutputFormatChanged? then HevcTag
    else []
  }

  /**
   * What the receiver reads back from one well-formed event: a non-empty
   * buffer gives a size field holding its size followed by exactly its
   * payload; a format change gives the four tag bytes; an empty or missing
   * buffer and the other answers give nothing.
   */
  lemma FrameBytesReadBack(e: OutputEvent)
    requires WellFormed(e)
    ensures SendsData(e) ==> var w := FrameBytes(e);
                               && |w| == 4 + e.info.size as int
                               && ReadBigEndian32(w[..4]) == e.info.size as int
                               && w[4..] == Payload(e.info, e.buffer.value)
    ensures e.OutputFormatChanged? ==> FrameBytes(e) == HevcTag
    ensures !SendsData(e) && !e.OutputFormatChanged? ==> FrameBytes(e) == []
  {
    if SendsData(e) {
      var w := FrameBytes(e);
      assert w[..4] == PutInt(e.info.size);
    }
  }

  /** The bytes of a run of answers, in order. */
  function WireBytes(events: seq<OutputEvent>): seq<byte> {
    if events == [] then [] else FrameBytes(events[0]) + WireBytes(events[1..])
  }

  /** A run of answers writes nothing exactly when none of its answers writes. */
  lemma {:induction false} WireBytesNothing(events: seq<OutputEvent>)
    ensures WireBytes(events) == [] <==> forall i :: 0 <= i < |events| ==> !Writes(events[i])
  {
    if events != [] {
      WireBytesNothing(events[1..]);
      assert forall i :: 1 <= i < |events| ==> events[i] == events[1..][i - 1];
    }
  }

  /** The `onEncodedData` call made for one answer. */
  function NoticeOf(e: OutputEvent): seq<Notice> {
    if SendsData(e) then [EncodedData(e.info.size as int)] else []
  }

  /** The `onEncodedData` calls made for a run of answers, in order. */
  function EncodedNotices(events: seq<OutputEvent>): seq<Notice> {
    if events == [] then [] else NoticeOf(events[0]) + EncodedNotices(events[1..])
  }

  /**
   * How many of the codec's answers one run of `processEncodedOutput`
   * takes; once `events` is used up the codec answers INFO_TRY_AGAIN_LATER.
   */
  function Consumed(events: seq<OutputEvent>, streamOpen: bool): nat {
    if events == [] then 0
    else if Stops(events[0], streamOpen) then 1
    else 1 + Consumed(events[1..], streamOpen)
  }

  /**
   * A run takes the answers up to and including the first end-of-stream
   * buffer, INFO_TRY_AGAIN_LATER or exception, and no further, and all of
   * them when none of them stops it.
   */
  lemma {:induction false} ConsumedEndsAtFirstStop(events: seq<OutputEvent>, streamOpen: bool)
    ensures var n := Consumed(events, streamOpen);
            && n <= |events|
            && (forall j :: 0 <= j < n - 1 ==> !Stops(events[j], streamOpen))
            && (n == 0 <==> events == [])
            && (n < |events| ==> Stops(events[n - 1], streamOpen))
  {
    if events != [] && !Stops(events[0], streamOpen) {
      ConsumedEndsAtFirstStop(events[1..], streamOpen);
      var n := Consumed(events[1..], streamOpen);
      forall j | 1 <= j < n
        ensures !Stops(events[j], streamOpen)
      {
        assert events[j] == events[1..][j - 1];
      }
    }
  }

  /** `Consumed` from position `i` looks at the answer at `i` first. */
  lemma ConsumedFrom(events: seq<OutputEvent>, i: nat, streamOpen: bool)
    requires i < |events|
    ensures Consumed(events[i..], streamOpen)
         == if Stops(events[i], streamOpen) then 1 else 1 + Consumed(events[i + 1..], streamOpen)
  {
    assert events[i..][1..] == events[i + 1..];
  }

  /** The bytes and calls of two runs of answers, one after the other. */
  lemma {:induction false} WireBytesAppend(p: seq<OutputEvent>, q: seq<OutputEvent>)
    ensures WireBytes(p + q) == WireBytes(p) + WireBytes(q)
    ensures EncodedNotices(p + q) == EncodedNotices(p) + EncodedNotices(q)
  {
    if p == [] {
      assert p + q == q;
    } else {
      assert (p + q)[1..] == p[1..] + q;
      WireBytesAppend(p[1..], q);
      AppendAssociative(FrameBytes(p[0]), WireBytes(p[1..]), WireBytes(q));
      AppendAssociative(NoticeOf(p[0]), EncodedNotices(p[1..]), EncodedNotices(q));
    }
  }

  /** The written bytes and calls grow by those of the answer at `i`. */
  lemma SentAdvance(events: seq<OutputEvent>, i: nat, w: seq<byte>, n: seq<Notice>)
    requires i < |events|
    ensures (w + WireBytes(events[..i])) + FrameBytes(events[i]) == w + WireBytes(events[..i + 1])
    ensures (n + EncodedNotices(events[..i])) + NoticeOf(events[i]) == n + EncodedNotices(events[..i + 1])
  {
    assert events[..i + 1] == events[..i] + [events[i]];
    WireBytesAppend(events[..i], [events[i]]);
    assert WireBytes([events[i]]) == FrameBytes(events[i]) + WireBytes([]);
    assert EncodedNotices([events[i]]) == NoticeOf(events[i]) + EncodedNotices([]);
  }

  /** The encoder wrapper, `class VideoEncoder`. */
  class VideoEncoder {
    var hasMediaCodec: bool      // mediaCodec != null
    var hasCallback: bool        // encoderCallback != null
    var hasEncodeThread: bool    // encodeThread != null
    var isEncoding: bool
    var frameQueue: seq<FrameData>
    var hasOutputStream: bool    // outputStream != null
    var hasSocket: bool          // socket != null
    var wire: seq<byte>          // bytes written to the current output stream
    var notifications: seq<Notice>  // calls made on the callback, oldest first

    /**
     * The invariant the lifecycle keeps: the queue is bounded, there is an
     * encode thread exactly while encoding, encoding needs a codec, the queue
     * is empty while not encoding, and the stream comes with its socket.
     */
    ghost predicate Valid()
      reads this`frameQueue, this`hasEncodeThread, this`isEncoding, this`hasMediaCodec
      reads this`hasOutputStream, this`hasSocket
    {
      && |frameQueue| <= QueueCapacity
      && hasEncodeThread == isEncoding
      && (isEncoding ==> hasMediaCodec)
      && (!isEncoding ==> frameQueue == [])
      && hasOutputStream == hasSocket
    }

    constructor ()
      ensures Valid()
      ensures !hasMediaCodec && !hasCallback && !hasEncodeThread && !isEncoding
      ensures frameQueue == [] && !hasOutputStream && !hasSocket
      ensures wire == [] && notifications == []
    {
      hasMediaCodec, hasCallback, hasEncodeThread, isEncoding := false, false, false, false;
      frameQueue := [];
      hasOutputStream, hasSocket := false, false;
      wire, notifications := [], [];
    }

    method SetCallback()
      requires Valid()
      modifies this
      ensures Valid() && hasCallback
      ensures hasMediaCodec == old(hasMediaCodec) && hasEncodeThread == old(hasEncodeThread)
      ensures isEncoding == old(isEncoding) && frameQueue == old(frameQueue)
      ensures hasOutputStream == old(hasOutputStream) && hasSocket == old(hasSocket)
      ensures wire == old(wire) && notifications == old(notifications)
    {
      hasCallback := true;
    }

    /** `prepare`: a configured HEVC encoder replaces whatever codec there was. */
    method Prepare()
      requires Valid()
      modifies this
      ensures Valid() && hasMediaCodec
      ensures hasCallback == old(hasCallback) && hasEncodeThread == old(hasEncodeThread)
      ensures isEncoding == old(isEncoding) && frameQueue == old(frameQueue)
      ensures hasOutputStream == old(hasOutputStream) && hasSocket == old(hasSocket)
      ensures wire == old(wire) && notifications == old(notifications)
    {
      hasMediaCodec := true;
    }

    /** `connectToServer`: closes any connection and opens a fresh one. */
    method ConnectToServer()
      requires Valid()
      modifies this
      ensures Valid() && hasSocket && hasOutputStream && wire == []
      ensures hasMediaCodec == old(hasMediaCodec) && hasCallback == old(hasCallback)
      ensures hasEncodeThread == old(hasEncodeThread) && isEncoding == old(isEncoding)
      ensures frameQueue == old(frameQueue) && notifications == old(notifications)
    {
      hasSocket := true;
      hasOutputStream := true;
      wire := [];
    }

    /**
     * `startEncoding`: a no-op while already encoding or without a codec;
     * otherwise starts the encode thread and tells the callback once.
     */
    method StartEncoding()
      requires Valid()
      modifies this
      ensures Valid()
      ensures old(isEncoding) || !old(hasMediaCodec) ==>
                isEncoding == old(isEncoding) && hasEncodeThread == old(hasEncodeThread)
                && notifications == old(notifications)
      ensures !old(isEncoding) && old(hasMediaCodec) ==>
                isEncoding && hasEncodeThread
                && notifications == old(notifications) + (if hasCallback then [EncoderStarted] else [])
      ensures hasMediaCodec == old(hasMediaCodec) && hasCallback == old(hasCallback)
      ensures frameQueue == old(frameQueue)
      ensures hasOutputStream == old(hasOutputStream) && hasSocket == old(hasSocket)
      ensures wire == old(wire)
    {
      if isEncoding || !hasMediaCodec {
        return;
      }
      isEncoding := true;
      hasEncodeThread := true;
      if hasCallback {
        notifications := notifications + [EncoderStarted];
      }
    }

    /**
     * `stopEncoding`: clears the flag, drops the thread and the queued
     * frames, and tells the callback, whether or not it was encoding.
     */
    method StopEncoding()
      requires Valid()
      modifies this
      ensures Valid()
      ensures !isEncoding && !hasEncodeThread && frameQueue == []
      ensures notifications == old(notifications) + (if hasCallback then [EncoderStopped] else [])
      ensures hasMediaCodec == old(hasMediaCodec) && hasCallback == old(hasCallback)
      ensures hasOutputStream == old(hasOutputStream) && hasSocket == old(hasSocket)
      ensures wire == old(wire)
    {
      isEncoding := false;
      hasEncodeThread := false;
      frameQueue := [];
      if hasCallback {
        notifications := notifications + [EncoderStopped];
      }
    }

    /**
     * `queueFrame`: `offer` appends while encoding and there is room, and
     * otherwise drops the frame; queued frames are never touched.
     */
    method QueueFrame(frame: FrameData)
      requires Valid()
      modifies this
      ensures Valid()
      ensures frameQueue == if old(isEncoding) && |old(frameQueue)| < QueueCapacity
                            then old(frameQueue) + [frame] else old(frameQueue)
      ensures hasMediaCodec == old(hasMediaCodec) && hasCallback == old(hasCallback)
      ensures hasEncodeThread == old(hasEncodeThread) && isEncoding == old(isEncoding)
      ensures hasOutputStream == old(hasOutputStream) && hasSocket == old(hasSocket)
      ensures wire == old(wire) && notifications == old(notifications)
    {
      if isEncoding {
        if |frameQueue| < QueueCapacity {
          frameQueue := frameQueue + [frame];
        }
      }
    }

    /**
     * `processEncodedOutput`: takes the codec's answers one by one until an
     * end-of-stream buffer, INFO_TRY_AGAIN_LATER or an exception. Returns how
     * many answers it took and whether it ended by the exception.
     */
    method ProcessEncodedOutput(events: seq<OutputEvent>) returns (consumed: nat, aborted: bool)
      requires Valid()
      modifies this`wire, this`notifications
      ensures Valid()
      ensures consumed == Consumed(events, hasOutputStream) && consumed <= |events|
      ensures aborted == (0 < consumed && Aborts(events[consumed - 1], hasOutputStream))
      ensures wire == old(wire) + (if hasOutputStream then WireBytes(events[..consumed]) else [])
      ensures notifications == old(notifications) + (if hasCallback then EncodedNotices(events[..consumed]) else [])
    {
      var outputDone := false;
      consumed, aborted := 0, false;
      while !outputDone
        invariant consumed <= |events|
        invariant wire == old(wire) + (if hasOutputStream then WireBytes(events[..consumed]) else [])
        invariant notifications == old(notifications) + (if hasCallback then EncodedNotices(events[..consumed]) else [])
        invariant aborted == (0 < consumed && Aborts(events[consumed - 1], hasOutputStream))
        invariant !outputDone ==> consumed == 0 || !Stops(events[consumed - 1], hasOutputStream)
        invariant !outputDone ==> Consumed(events, hasOutputStream) == consumed + Consumed(events[consumed..], hasOutputStream)
        invariant outputDone ==> Consumed(events, hasOutputStream) == consumed
        decreases |events| - consumed, !outputDone
      {
        if consumed == |events| {
          // the codec has nothing more: INFO_TRY_AGAIN_LATER
          assert events[consumed..] == [];
          outputDone := true;
        } else {
          outputDone, aborted := Advance(events, consumed, old(wire), old(notifications));
          consumed := consumed + 1;
        }
      }
    }

    /**
     * One pass of the loop for the answer at `i`, with what it does to the
     * run so far: the bytes and calls grow by those of the answer, and the
     * loop goes on exactly when the answer does not stop it (an exception
     * leaves `processEncodedOutput` as well).
     */
    method Advance(events: seq<OutputEvent>, i: nat, ghost w0: seq<byte>, ghost n0: seq<Notice>)
      returns (stop: bool, aborted: bool)
      requires i < |events|
      requires wire == w0 + (if hasOutputStream then WireBytes(events[..i]) else [])
      requires notifications == n0 + (if hasCallback then EncodedNotices(events[..i]) else [])
      requires Consumed(events, hasOutputStream) == i + Consumed(events[i..], hasOutputStream)
      modifies this`wire, this`notifications
      ensures wire == w0 + (if hasOutputStream then WireBytes(events[..i + 1]) else [])
      ensures notifications == n0 + (if hasCallback then EncodedNotices(events[..i + 1]) else [])
      ensures aborted == Aborts(events[i], hasOutputStream)
      ensures stop == Stops(events[i], hasOutputStream)
      ensures !stop ==> Consumed(events, hasOutputStream) == (i + 1) + Consumed(events[i + 1..], hasOutputStream)
      ensures stop ==> Consumed(events, hasOutputStream) == i + 1
    {
      SentAdvance(events, i, w0, n0);
      ConsumedFrom(events, i, hasOutputStream);
      var outputDone;
      outputDone, aborted := HandleOutputEvent(events[i]);
      stop := outputDone || aborted;
    }

    /** One pass of the `while (!outputDone)` loop, for the answer `e`. */
    method HandleOutputEvent(e: OutputEvent) returns (outputDone: bool, aborted: bool)
      modifies this`wire, this`notifications
      ensures outputDone == Ends(e) && aborted == Aborts(e, hasOutputStream)
      ensures wire == old(wire) + (if hasOutputStream then FrameBytes(e) else [])
      ensures notifications == old(notifications) + (if hasCallback then NoticeOf(e) else [])
    {
      outputDone, aborted := false, false;
      match e {
        case OutputBuffer(info, buffer) =>
          if buffer.Some? && info.size > 0 {
            var data := buffer.value;
            if hasCallback {
              notifications := notifications + [EncodedData(info.size as int)];
            }
            if hasOutputStream {
              wire := wire + PutInt(info.size);
              if !(0 <= info.offset && info.offset as int + info.size as int <= |data|) {
                aborted := true;
                outputDone := info.flags & BufferFlagEndOfStream != 0;
                return;
              }
              wire := wire + data[info.offset..info.offset as int + info.size as int];
            }
          }
          outputDone := info.flags & BufferFlagEndOfStream != 0;
        case OutputFormatChanged =>
          if hasOutputStream {
            wire := wire + HevcTag;
          }
        case TryAgainLater =>
          outputDone := true;
        case OtherInfo =>
      }
    }

    /**
     * `release`: stops encoding, then drops the codec, the output stream and
     * the socket.
     */
    method Release()
      requires Valid()
      modifies this
      ensures Valid()
      ensures !isEncoding && !hasEncodeThread && frameQueue == []
      ensures !hasMediaCodec && !hasOutputStream && !hasSocket
      ensures notifications == old(notifications) + (if hasCallback then [EncoderStopped] else [])
      ensures hasCallback == old(hasCallback) && wire == old(wire)
    {
      StopEncoding();
      hasMediaCodec := false;
      hasOutputStream := false;
      hasSocket := false;
    }
  }

  /**
   * Releasing twice leaves the encoder as one release does; only the
   * callback hears `onEncoderStopped` once more.
   */
  method ReleaseTwice(encoder: VideoEncoder)
    requires encoder.Valid()
    modifies encoder
    ensures encoder.Valid()
    ensures !encoder.isEncoding && !encoder.hasEncodeThread && encoder.frameQueue == []
    ensures !encoder.hasMediaCodec && !encoder.hasOutputStream && !encoder.hasSocket
    ensures encoder.hasCallback == old(encoder.hasCallback) && encoder.wire == old(encoder.wire)
    ensures encoder.notifications == old(encoder.notifications)
      + (if encoder.hasCallback then [EncoderStopped, EncoderStopped] else [])
  {
    encoder.Release();
    var codec, stream, socket, encoding := encoder.hasMediaCodec, encoder.hasOutputStream, encoder.hasSocket, encoder.isEncoding;
    var queue, wire, notices := encoder.frameQueue, encoder.wire, encoder.notifications;
    encoder.Release();
    assert encoder.hasMediaCodec == codec && encoder.hasOutputStream == stream && encoder.hasSocket == socket;
    assert encoder.isEncoding == encoding && encoder.frameQueue == queue && encoder.wire == wire;
    assert encoder.notifications == notices + (if encoder.hasCallback then [EncoderStopped] else []);
  }
}
