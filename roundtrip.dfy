/**
 * The sender and the receiver together: the bytes `processEncodedOutput`
 * writes for a run of the codec's answers are the frames of the buffers it
 * sends, and the receiver reads exactly those frames back.
 */
module RoundTrip {
  import opened Bytes
  import opened Encoder
  import opened FrameStream

  /** The payload sent for one answer, if any. */
  function SentOf(e: OutputEvent): (p: seq<seq<byte>>)
    requires WellFormed(e)
    ensures |p| == (if SendsData(e) then 1 else 0)
  {
    if SendsData(e) then [Payload(e.info, e.buffer.value)] else []
  }

  /** The payloads of the buffers sent for a run of answers, in order. */
  function Payloads(events: seq<OutputEvent>): (r: seq<seq<byte>>)
    requires forall i :: 0 <= i < |events| ==> WellFormed(events[i])
    ensures |r| <= |events|
    ensures AllPlain(events) ==> Acceptable(r)
  {
    if events == [] then []
    else
      var sent := SentOf(events[0]) + Payloads(events[1..]);
      assert AllPlain(events) ==> AllPlain(events[1..]) by {
        if AllPlain(events) {
          forall i | 0 <= i < |events[1..]| ensures Plain(events[1..][i]) {
            assert events[1..][i] == events[i + 1];
          }
        }
      }
      sent
  }

  /**
   * A run of answers after the format change: every buffer range is valid,
   * no further format change, and no buffer above the receiver's limit.
   */
  predicate Plain(e: OutputEvent) {
    && WellFormed(e)
    && !e.OutputFormatChanged?
    && (SendsData(e) ==> e.info.size as int <= MaxFrameSize)
  }

  predicate AllPlain(events: seq<OutputEvent>) {
    forall i :: 0 <= i < |events| ==> Plain(events[i])
  }

  /** The two modules agree on the tag. */
  lemma TagsAgree()
    ensures HevcTag == FormatTag
  {
  }

  /** The size field of the sender is the one the receiver decodes. */
  lemma PutIntOfSize(p: seq<byte>, v: int32)
    requires v >= 0 && |p| == v as int
    ensures PutInt(v) + p == FrameOf(p)
  {
  }

  /** One answer puts its payload on the wire as one frame. */
  lemma FrameBytesIsFramed(e: OutputEvent)
    requires Plain(e)
    ensures Acceptable(SentOf(e))
    ensures FrameBytes(e) == Framed(SentOf(e))
  {
    if SendsData(e) {
      var p := Payload(e.info, e.buffer.value);
      PutIntOfSize(p, e.info.size);
      assert Framed([p]) == FrameOf(p) + Framed([]);
    }
  }

  /**
   * What the sender writes for a run of plain answers is the framing of the
   * payloads it sends.
   */
  lemma {:induction false} WireIsFramed(events: seq<OutputEvent>)
    requires AllPlain(events)
    ensures Acceptable(Payloads(events))
    ensures WireBytes(events) == Framed(Payloads(events))
  {
    if events != [] {
      var rest := events[1..];
      assert AllPlain(rest) by {
        forall i | 0 <= i < |rest| ensures Plain(rest[i]) {
          assert rest[i] == events[i + 1];
        }
      }
      WireIsFramed(rest);
      FrameBytesIsFramed(events[0]);
      FramedAppend(SentOf(events[0]), Payloads(rest));
    }
  }

  /** Framing two runs of frames is framing them one after the other. */
  lemma {:induction false} FramedAppend(a: seq<seq<byte>>, b: seq<seq<byte>>)
    requires Acceptable(a) && Acceptable(b)
    ensures Acceptable(a + b)
    ensures Framed(a + b) == Framed(a) + Framed(b)
  {
    if a != [] {
      assert (a + b)[1..] == a[1..] + b;
      FramedAppend(a[1..], b);
      FramedCons(a[0], a[1..] + b);
      assert [a[0]] + (a[1..] + b) == a + b;
      AppendAssociative(FrameOf(a[0]), Framed(a[1..]), Framed(b));
      FramedCons(a[0], a[1..]);
      assert [a[0]] + a[1..] == a;
    } else {
      assert a + b == b;
    }
  }

  /**
   * The bytes of a connection on which the codec first reports its format
   * and then answers `rest`: the tag followed by the frames.
   */
  lemma SessionWire(rest: seq<OutputEvent>)
    requires AllPlain(rest)
    ensures WireBytes([OutputFormatChanged] + rest) == FormatTag + Framed(Payloads(rest))
  {
    assert ([OutputFormatChanged] + rest)[1..] == rest;
    WireIsFramed(rest);
  }

  /**
   * Read in full, the connection yields the payloads the sender sent, in
   * order, and the receiver stops because the data ran out — whether or not
   * the codec reported its format first.
   */
  lemma ParseWire(rest: seq<OutputEvent>, formatFirst: bool)
    requires AllPlain(rest)
    ensures var events := if formatFirst then [OutputFormatChanged] + rest else rest;
      ParseStream(WireBytes(events)) == Reception(Payloads(rest), NoMoreData)
  {
    WireIsFramed(rest);
    if formatFirst {
      SessionWire(rest);
      ParseStreamOfFramed(Payloads(rest), true);
    } else {
      ParseStreamOfFramed(Payloads(rest), false);
      assert [] + Framed(Payloads(rest)) == WireBytes(rest);
    }
  }

  /**
   * However the network splits the connection into deliveries, a receiver
   * that reads the tag and every size field in full gets back the payloads
   * the sender sent.
   */
  lemma EndToEnd(rest: seq<OutputEvent>, formatFirst: bool, s: Stream)
    requires AllPlain(rest)
    requires s.data == WireBytes(if formatFirst then [OutputFormatChanged] + rest else rest)
    ensures SessionExact(s) == Reception(Payloads(rest), NoMoreData)
  {
    ParseWire(rest, formatFirst);
    SessionExactIsParse(s);
  }

  /**
   * The receiver as written gets back the payloads when the connection is
   * buffered in full before it reads, and on any other schedule it writes a
   * prefix of them: it never writes a frame the sender did not send. This
   * holds whether or not the connection opens with a format change (after a
   * reconnection it opens with a frame).
   */
  lemma EndToEndAsWritten(rest: seq<OutputEvent>, formatFirst: bool, s: Stream)
    requires AllPlain(rest)
    requires s.data == WireBytes(if formatFirst then [OutputFormatChanged] + rest else rest)
    ensures Session(Buffered(s.data)) == Reception(Payloads(rest), NoMoreData)
    ensures Session(s).frames <= Payloads(rest)
  {
    ParseWire(rest, formatFirst);
    SessionBuffered(s.data);
    WireIsFramed(rest);
    var framed := Framed(Payloads(rest));
    if formatFirst {
      SessionWire(rest);
      if Peek(s, 4) == FormatTag {
        var s1 := Take(s, 4).1;
        assert s1.data == framed;
        ReceiveAsParsed(s1);
        ParseFramesOfFramed(Payloads(rest));
      } else {
        ReceiveAsParsed(s);
        MidStreamTag([], framed);
        assert Framed([]) + (FormatTag + framed) == s.data;
      }
    } else {
      FramedUntagged(Payloads(rest));
      assert Peek(s, 4) != FormatTag;
      ReceiveAsParsed(s);
      ParseFramesOfFramed(Payloads(rest));
    }
  }

  /** A second format change in mid-stream makes the receiver reject the tag as a size. */
  lemma SecondFormatChange(before: seq<OutputEvent>, after: seq<OutputEvent>)
    requires AllPlain(before) && AllPlain(after)
    ensures var events := [OutputFormatChanged] + before + [OutputFormatChanged] + after;
      ParseStream(WireBytes(events)) == Reception(Payloads(before), InvalidSize(0x4845_5643))
  {
    var events := [OutputFormatChanged] + before + [OutputFormatChanged] + after;
    assert events == [OutputFormatChanged] + (before + ([OutputFormatChanged] + after));
    WireBytesAppend([OutputFormatChanged], before + ([OutputFormatChanged] + after));
    WireBytesAppend(before, [OutputFormatChanged] + after);
    assert ([OutputFormatChanged] + after)[1..] == after;
    assert WireBytes([OutputFormatChanged]) == FormatTag + WireBytes([]);
    WireIsFramed(before);
    var tail := FormatTag + WireBytes(after);
    assert WireBytes(events) == FormatTag + (Framed(Payloads(before)) + tail);
    MidStreamTag(Payloads(before), WireBytes(after));
  }
}
