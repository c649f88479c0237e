/**
 * The receiving end of the wire format (`video_receiver.py`), as functions.
 *
 * What the peer sent and the receiver has not read yet is a `Stream`: the
 * bytes in the order they arrive, and the sizes of the deliveries in which
 * the network hands them over (whatever follows the last listed delivery
 * arrives in one). `recv(n)` returns at most `n` bytes of the delivery at
 * the front, and `b''` once the peer has closed the connection and
 * everything was read. Every way a TCP stream can answer a sequence of
 * plain `recv` calls is some `Stream`. A `recv(n, MSG_PEEK)` sees the same
 * front delivery as the `recv` after it, so bytes that arrive between a
 * short peek and that `recv` are not modelled.
 *
 * `Receive` is the frame loop of `receive_frames` as written; `ParseFrames`
 * is the same loop over a stream that is read in full, which is what the
 * loop does whenever each size field arrives in one piece.
 */
module FrameStream {
  import opened Bytes

  /** `10 * 1024 * 1024`: the largest frame size the receiver accepts. */
  const MaxFrameSize: nat := 10 * 1024 * 1024

  /** The most the payload loop asks `recv` for at a time. */
  const RecvChunk: nat := 4096

  /** `b'HEVC'`, the tag the receiver looks for before the first frame. */
  const FormatTag: seq<byte> := [0x48, 0x45, 0x56, 0x43]

  type pos = n: nat | 0 < n witness 1

  /** The unread bytes of a connection and the sizes of the deliveries to come. */
  datatype Stream = Stream(data: seq<byte>, cuts: seq<pos>)

  /** A stream that is already buffered in full when reading starts. */
  function Buffered(b: seq<byte>): (s: Stream)
    ensures s.data == b
  {
    Stream(b, [])
  }

  function Min(a: nat, b: nat): nat {
    if a < b then a else b
  }

  /** How many bytes `recv` can hand over at once. */
  function Front(s: Stream): (k: nat)
    ensures k <= |s.data| && (k == 0 <==> s.data == [])
  {
    if s.cuts == [] then |s.data| else Min(s.cuts[0], |s.data|)
  }

  /** The deliveries left once `k` bytes of the front one were read. */
  function RestCuts(cuts: seq<pos>, k: nat): seq<pos> {
    if cuts == [] then []
    else if k < cuts[0] then [cuts[0] - k] + cuts[1..]
    else cuts[1..]
  }

  /**
   * `recv(n)`: what it returns and what is left. It returns the front
   * delivery or its first `n` bytes, and returns nothing only on a closed,
   * drained connection.
   */
  function Take(s: Stream, n: nat): (r: (seq<byte>, Stream))
    requires n > 0
    ensures r.0 + r.1.data == s.data
    ensures |r.0| <= n && (r.0 == [] <==> s.data == [])
  {
    var k := Min(n, Front(s));
    assert s.data[..k] + s.data[k..] == s.data;
    (s.data[..k], Stream(s.data[k..], RestCuts(s.cuts, k)))
  }

  /** `recv(n, MSG_PEEK)`: the bytes `recv(n)` would return, nothing consumed. */
  function Peek(s: Stream, n: nat): (p: seq<byte>)
    requires n > 0
    ensures p == Take(s, n).0
  {
    s.data[..Min(n, Front(s))]
  }

  /**
   * The payload loop: `recv(min(remaining, 4096))` until `remaining` is 0
   * or the connection is closed. Whatever the deliveries, it gathers the
   * next `remaining` bytes of the stream, or all there are.
   */
  function Gather(s: Stream, remaining: nat): (r: (seq<byte>, Stream))
    ensures r.0 + r.1.data == s.data
    ensures |r.0| == Min(remaining, |s.data|)
    ensures r.1.cuts == DropCuts(s.cuts, |r.0|)
    decreases remaining
  {
    if remaining == 0 then
      DropNoCuts(s.cuts);
      ([], s)
    else
      var (packet, s1) := Take(s, Min(remaining, RecvChunk));
      RestCutsIsDrop(s.cuts, |packet|);
      if packet == [] then ([], s1)
      else
        var (more, s2) := Gather(s1, remaining - |packet|);
        AppendAssociative(packet, more, s2.data);
        DropCutsAdd(s.cuts, |packet|, |more|);
        (packet + more, s2)
  }

  /** One round of the payload loop, when `recv` returns data. */
  lemma GatherStep(s: Stream, remaining: nat, packet: seq<byte>, s1: Stream)
    requires remaining > 0 && s.data != []
    requires packet == Take(s, Min(remaining, RecvChunk)).0 && s1 == Take(s, Min(remaining, RecvChunk)).1
    ensures Gather(s, remaining)
         == (packet + Gather(s1, remaining - |packet|).0, Gather(s1, remaining - |packet|).1)
  {
  }

  /** One round of the payload loop, when the connection is closed. */
  lemma GatherClosed(s: Stream, remaining: nat)
    requires remaining > 0 && s.data == []
    ensures Gather(s, remaining) == ([], Take(s, Min(remaining, RecvChunk)).1)
  {
  }

  /** Why the frame loop ended. */
  datatype StopReason =
    | NoMoreData                              // `recv(4)` returned nothing
    | IncompleteSize(got: nat)                // fewer than 4 bytes for the size field
    | InvalidSize(size: nat)                  // a size above `MaxFrameSize`
    | IncompleteFrame(got: nat, size: nat)    // the connection closed inside a payload
    | Stopped                                 // `self.running` was false

  /** The frames written to the output file, in order, and why it stopped. */
  datatype Reception = Reception(frames: seq<seq<byte>>, stop: StopReason)

  function Prepend(frames: seq<seq<byte>>, r: Reception): Reception {
    Reception(frames + r.frames, r.stop)
  }

  lemma PrependNothing(frames: seq<seq<byte>>, stop: StopReason)
    ensures Prepend(frames, Reception([], stop)) == Reception(frames, stop)
  {
    assert frames + [] == frames;
  }

  /** The bytes of the output file: the frames one after another. */
  function Concat(frames: seq<seq<byte>>): seq<byte> {
    if frames == [] then [] else frames[0] + Concat(frames[1..])
  }

  lemma {:induction false} ConcatAppend(frames: seq<seq<byte>>, f: seq<byte>)
    ensures Concat(frames + [f]) == Concat(frames) + f
  {
    if frames == [] {
      assert [] + [f] == [f];
      assert Concat([f]) == f + Concat([]);
    } else {
      assert (frames + [f])[1..] == frames[1..] + [f];
      ConcatAppend(frames[1..], f);
    }
  }

  /** The frame loop of `receive_frames`, as written, over a schedule. */
  function Receive(s: Stream): (r: Reception)
    ensures Acceptable(r.frames) && r.stop != Stopped
    decreases |s.data|
  {
    var (sizeData, s1) := Take(s, 4);
    if sizeData == [] then Reception([], NoMoreData)
    else if |sizeData| != 4 then Reception([], IncompleteSize(|sizeData|))
    else
      var frameSize := ReadBigEndian32(sizeData);
      if frameSize > MaxFrameSize then Reception([], InvalidSize(frameSize))
      else
        var (frameData, s2) := Gather(s1, frameSize);
        if |frameData| < frameSize then Reception([], IncompleteFrame(|frameData|, frameSize))
        else
          var rest := Receive(s2);
          AcceptableCons(frameData, rest.frames);
          Prepend([frameData], rest)
  }

  lemma AcceptableCons(f: seq<byte>, frames: seq<seq<byte>>)
    requires |f| <= MaxFrameSize && Acceptable(frames)
    ensures Acceptable([f] + frames)
  {
    assert forall i :: 1 <= i < |[f] + frames| ==> ([f] + frames)[i] == frames[i - 1];
  }

  /**
   * `start` for one connection: a leading `HEVC` tag is read off only when
   * the peeked bytes are exactly the tag; then the frame loop runs.
   */
  function Session(s: Stream): (r: Reception)
    ensures Acceptable(r.frames) && r.stop != Stopped
  {
    if Peek(s, 4) == FormatTag then Receive(Take(s, 4).1) else Receive(s)
  }

  /** The frame loop over a stream that is read in full. */
  function ParseFrames(b: seq<byte>): (r: Reception)
    ensures Acceptable(r.frames) && r.stop != Stopped
    decreases |b|
  {
    if b == [] then Reception([], NoMoreData)
    else if |b| < 4 then Reception([], IncompleteSize(|b|))
    else
      var frameSize := ReadBigEndian32(b[..4]);
      if frameSize > MaxFrameSize then Reception([], InvalidSize(frameSize))
      else if |b| - 4 < frameSize then Reception([], IncompleteFrame(|b| - 4, frameSize))
      else Prepend([b[4..4 + frameSize]], ParseFrames(b[4 + frameSize..]))
  }

  /** A session over a stream that is read in full. */
  function ParseStream(b: seq<byte>): Reception {
    if |b| >= 4 && b[..4] == FormatTag then ParseFrames(b[4..]) else ParseFrames(b)
  }

  /** The deliveries left once `k` more bytes were read, whichever way. */
  function DropCuts(cuts: seq<pos>, k: nat): seq<pos>
    decreases |cuts|
  {
    if cuts == [] then []
    else if k < cuts[0] then [cuts[0] - k] + cuts[1..]
    else DropCuts(cuts[1..], k - cuts[0])
  }

  /**
   * Reading until `n` bytes have arrived or the connection is closed, by
   * what it yields: the next `n` bytes of the stream, or all there are.
   */
  function ReadExact(s: Stream, n: nat): (r: (seq<byte>, Stream))
    ensures r.0 + r.1.data == s.data
    ensures |r.0| == Min(n, |s.data|)
  {
    var k := Min(n, |s.data|);
    assert s.data[..k] + s.data[k..] == s.data;
    (s.data[..k], Stream(s.data[k..], DropCuts(s.cuts, k)))
  }

  /**
   * The frame loop with the size field read by a loop that waits for all
   * four bytes (the payload loop's way of reading); otherwise as `Receive`.
   */
  function ReceiveExact(s: Stream): (r: Reception)
    decreases |s.data|
  {
    var (sizeData, s1) := ReadExact(s, 4);
    if sizeData == [] then Reception([], NoMoreData)
    else if |sizeData| != 4 then Reception([], IncompleteSize(|sizeData|))
    else
      var frameSize := ReadBigEndian32(sizeData);
      if frameSize > MaxFrameSize then Reception([], InvalidSize(frameSize))
      else
        var (frameData, s2) := ReadExact(s1, frameSize);
        if |frameData| < frameSize then Reception([], IncompleteFrame(|frameData|, frameSize))
        else Prepend([frameData], ReceiveExact(s2))
  }

  /** `Session` with the tag and the size fields read in full. */
  function SessionExact(s: Stream): Reception
  {
    var (tag, s1) := ReadExact(s, 4);
    if tag == FormatTag then ReceiveExact(s1) else ReceiveExact(s)
  }

  /** One frame as the sender puts it on the wire. */
  function FrameOf(payload: seq<byte>): (w: seq<byte>)
    requires |payload| < TwoTo32
  {
    BigEndian32(|payload|) + payload
  }

  predicate Acceptable(frames: seq<seq<byte>>) {
    forall i :: 0 <= i < |frames| ==> |frames[i]| <= MaxFrameSize
  }

  /** Frames one after another on the wire. */
  function Framed(frames: seq<seq<byte>>): seq<byte>
    requires Acceptable(frames)
  {
    if frames == [] then [] else FrameOf(frames[0]) + Framed(frames[1..])
  }

  /** A split of a sequence is its prefix and its suffix. */
  lemma SplitAt(a: seq<byte>, r: seq<byte>, b: seq<byte>)
    requires a + r == b
    ensures a == b[..|a|] && r == b[|a|..]
  {
  }

  lemma PrependPrefix(frames: seq<seq<byte>>, r: Reception, p: Reception)
    requires r.frames <= p.frames
    ensures Prepend(frames, r).frames <= Prepend(frames, p).frames
  {
    assert (frames + p.frames)[..|frames + r.frames|] == frames + r.frames;
  }

  /** The next size field arrives whole, is accepted, and its payload arrives in full. */
  predicate WholeFrame(s: Stream) {
    var (sizeData, s1) := Take(s, 4);
    && |sizeData| == 4
    && ReadBigEndian32(sizeData) <= MaxFrameSize
    && |Gather(s1, ReadBigEndian32(sizeData)).0| == ReadBigEndian32(sizeData)
  }

  /** The frame loop as written takes a whole frame off the front. */
  lemma ReceiveStep(s: Stream) returns (s2: Stream)
    requires WholeFrame(s)
    ensures FrameAhead(s.data)
    ensures var n := ReadBigEndian32(s.data[..4]);
      s2.data == s.data[4 + n..] && Receive(s) == Prepend([s.data[4..4 + n]], Receive(s2))
  {
    var sizeData, s1 := Take(s, 4).0, Take(s, 4).1;
    SplitAt(sizeData, s1.data, s.data);
    assert sizeData == s.data[..4] && s1.data == s.data[4..];
    var n := ReadBigEndian32(sizeData);
    var frameData, t := Gather(s1, n).0, Gather(s1, n).1;
    SplitAt(frameData, t.data, s1.data);
    assert frameData == s.data[4..4 + n] && t.data == s.data[4 + n..];
    ReceiveOneFrame(s);
    s2 := t;
  }

  /**
   * Where the frame loop as written stops, it stops as parsing does, or on
   * a size field it got only part of.
   */
  lemma ReceiveStops(s: Stream)
    requires !WholeFrame(s)
    ensures Receive(s).frames == []
    ensures Receive(s) == ParseFrames(s.data) || Receive(s).stop.IncompleteSize?
  {
    var (sizeData, s1) := Take(s, 4);
    if sizeData == [] {
      assert Receive(s) == Reception([], NoMoreData) == ParseFrames(s.data);
    } else if |sizeData| != 4 {
      assert Receive(s) == Reception([], IncompleteSize(|sizeData|));
    } else {
      SplitAt(sizeData, s1.data, s.data);
      var n := ReadBigEndian32(sizeData);
      if n > MaxFrameSize {
        assert Receive(s) == Reception([], InvalidSize(n)) == ParseFrames(s.data);
      } else {
        var g := Gather(s1, n).0;
        assert |g| == |s1.data| == |s.data| - 4;
        assert Receive(s) == Reception([], IncompleteFrame(|g|, n)) == ParseFrames(s.data);
      }
    }
  }

  /** Parsing takes a whole frame off the front. */
  lemma ParseStep(b: seq<byte>)
    requires FrameAhead(b)
    ensures var n := ReadBigEndian32(b[..4]);
      ParseFrames(b) == Prepend([b[4..4 + n]], ParseFrames(b[4 + n..]))
  {
  }

  /** A whole frame ahead is that frame as the sender writes it, then the rest. */
  lemma FrameSplit(b: seq<byte>)
    requires FrameAhead(b)
    ensures var n := ReadBigEndian32(b[..4]);
      n <= MaxFrameSize && b == FrameOf(b[4..4 + n]) + b[4 + n..]
  {
    BigEndian32OfRead(b[..4]);
    var n := ReadBigEndian32(b[..4]);
    assert b == b[..4] + b[4..4 + n] + b[4 + n..];
  }

  /**
   * The frame loop as written against the stream it reads: it never invents
   * a frame, and it differs from reading the stream in full only by giving
   * up early on a size field that arrives in pieces.
   */
  lemma {:induction false} ReceiveAsParsed(s: Stream)
    ensures var r, p := Receive(s), ParseFrames(s.data);
      r.frames <= p.frames && (r == p || r.stop.IncompleteSize?)
    decreases |s.data|
  {
    if WholeFrame(s) {
      var s2 := ReceiveStep(s);
      ParseStep(s.data);
      ReceiveAsParsed(s2);
      var n := ReadBigEndian32(s.data[..4]);
      PrependPrefix([s.data[4..4 + n]], Receive(s2), ParseFrames(s2.data));
    } else {
      ReceiveStops(s);
    }
  }

  lemma DropNoCuts(cuts: seq<pos>)
    ensures DropCuts(cuts, 0) == cuts
  {
    if cuts != [] {
      assert [cuts[0]] + cuts[1..] == cuts;
    }
  }

  lemma {:induction false} DropCutsAdd(cuts: seq<pos>, a: nat, b: nat)
    ensures DropCuts(DropCuts(cuts, a), b) == DropCuts(cuts, a + b)
    decreases |cuts|
  {
    if cuts != [] {
      if a < cuts[0] {
        var c := [cuts[0] - a] + cuts[1..];
        assert c[0] == cuts[0] - a && c[1..] == cuts[1..];
      } else {
        DropCutsAdd(cuts[1..], a - cuts[0], b);
      }
    }
  }

  /** What `recv` leaves of the deliveries is what reading its bytes in any way leaves. */
  lemma RestCutsIsDrop(cuts: seq<pos>, k: nat)
    requires cuts != [] ==> k <= cuts[0]
    ensures RestCuts(cuts, k) == DropCuts(cuts, k)
  {
    if cuts != [] && k == cuts[0] {
      DropNoCuts(cuts[1..]);
    }
  }

  /**
   * The payload loop reads the next `remaining` bytes, or all there are,
   * however the network cuts them: it is `ReadExact`.
   */
  lemma GatherIsReadExact(s: Stream, remaining: nat)
    ensures Gather(s, remaining) == ReadExact(s, remaining)
  {
    var g, e := Gather(s, remaining), ReadExact(s, remaining);
    SplitAt(g.0, g.1.data, s.data);
    SplitAt(e.0, e.1.data, s.data);
  }

  /** `Receive` one frame further on, as the loop takes it. */
  lemma ReceiveOneFrame(s: Stream)
    requires var sizeData := Take(s, 4).0;
      |sizeData| == 4 && ReadBigEndian32(sizeData) <= MaxFrameSize
      && |Gather(Take(s, 4).1, ReadBigEndian32(sizeData)).0| == ReadBigEndian32(sizeData)
    ensures var g := Gather(Take(s, 4).1, ReadBigEndian32(Take(s, 4).0));
      Receive(s) == Prepend([g.0], Receive(g.1))
  {
  }

  /** A stream delivered in one piece is read as it is parsed. */
  lemma {:induction false} ReceiveWhole(s: Stream)
    requires s.cuts == []
    ensures Receive(s) == ParseFrames(s.data)
    decreases |s.data|
  {
    var b := s.data;
    var (sizeData, s1) := Take(s, 4);
    assert |sizeData| == Min(4, |b|) && s1.cuts == [];
    SplitAt(sizeData, s1.data, b);
    if |sizeData| == 4 {
      var n := ReadBigEndian32(sizeData);
      if n <= MaxFrameSize {
        var (frameData, s2) := Gather(s1, n);
        SplitAt(frameData, s2.data, s1.data);
        if |frameData| == n {
          assert frameData == b[4..4 + n] && s2.data == b[4 + n..];
          assert Receive(s) == Prepend([frameData], Receive(s2));
          GatherIsReadExact(s1, n);
          ReceiveWhole(s2);
        }
      }
    } else {
      assert sizeData == b;
    }
  }

  lemma ReceiveBuffered(b: seq<byte>)
    ensures Receive(Buffered(b)) == ParseFrames(b)
  {
    ReceiveWhole(Buffered(b));
  }

  lemma SessionBuffered(b: seq<byte>)
    ensures Session(Buffered(b)) == ParseStream(b)
  {
    var (peeked, s1) := Take(Buffered(b), 4);
    SplitAt(peeked, s1.data, b);
    assert |peeked| == Min(4, |b|) && s1.cuts == [];
    ReceiveWhole(s1);
    ReceiveWhole(Buffered(b));
  }

  /** A size field delivered as 3 + 1 bytes stops the loop as written. */
  lemma SplitSizeField()
    ensures var s := Stream([0, 0, 0, 1, 7], [3]);
      ParseFrames(s.data) == Reception([[7]], NoMoreData)
      && Receive(s) == Reception([], IncompleteSize(3))
  {
    var b: seq<byte> := [0, 0, 0, 1, 7];
    assert ReadBigEndian32(b[..4]) == 1;
    assert b[4..5] == [7];
    assert ParseFrames(b[5..]) == Reception([], NoMoreData);
    assert Take(Stream(b, [3]), 4).0 == [0, 0, 0];
  }

  /** A tag delivered as 2 + 2 bytes is missed by the peek, and the loop stops. */
  lemma SplitFormatTag()
    ensures var s := Stream(FormatTag, [2]);
      ParseStream(s.data) == Reception([], NoMoreData)
      && Session(s) == Reception([], IncompleteSize(2))
  {
    var s := Stream(FormatTag, [2]);
    assert FormatTag[4..] == [];
    assert Peek(s, 4) == [0x48, 0x45];
    assert Take(s, 4).0 == [0x48, 0x45];
  }

  /** Whether the next frame of a stream read in full is whole and accepted. */
  predicate FrameAhead(b: seq<byte>) {
    |b| >= 4 && ReadBigEndian32(b[..4]) <= MaxFrameSize && |b| - 4 >= ReadBigEndian32(b[..4])
  }

  /** With the size field read in full, one frame comes off as it is parsed. */
  lemma ReceiveExactStep(s: Stream) returns (s2: Stream)
    requires FrameAhead(s.data)
    ensures var n := ReadBigEndian32(s.data[..4]);
      s2.data == s.data[4 + n..]
      && ReceiveExact(s) == Prepend([s.data[4..4 + n]], ReceiveExact(s2))
  {
    var b := s.data;
    var n := ReadBigEndian32(b[..4]);
    var s1 := ReadExact(s, 4).1;
    assert ReadExact(s, 4).0 == b[..4] && s1.data == b[4..];
    s2 := ReadExact(s1, n).1;
    assert ReadExact(s1, n).0 == b[4..4 + n];
    assert s2.data == b[4 + n..];
  }

  /** With the size field read in full, the loop stops where parsing does. */
  lemma ReceiveExactShort(s: Stream)
    requires |s.data| < 4
    ensures ReceiveExact(s) == ParseFrames(s.data)
  {
    assert ReadExact(s, 4).0 == s.data;
  }

  lemma ReceiveExactOversize(s: Stream)
    requires |s.data| >= 4 && ReadBigEndian32(s.data[..4]) > MaxFrameSize
    ensures ReceiveExact(s) == Reception([], InvalidSize(ReadBigEndian32(s.data[..4])))
  {
    assert ReadExact(s, 4).0 == s.data[..4];
  }

  lemma ReceiveExactTruncated(s: Stream)
    requires |s.data| >= 4 && ReadBigEndian32(s.data[..4]) <= MaxFrameSize
    requires |s.data| - 4 < ReadBigEndian32(s.data[..4])
    ensures ReceiveExact(s) == Reception([], IncompleteFrame(|s.data| - 4, ReadBigEndian32(s.data[..4])))
  {
    var (sizeData, s1) := ReadExact(s, 4);
    assert sizeData == s.data[..4];
    assert |ReadExact(s1, ReadBigEndian32(sizeData)).0| == |s1.data| == |s.data| - 4;
  }

  /** With the size field read in full, every stream is read as it is parsed. */
  lemma {:induction false} ReceiveExactIsParse(s: Stream)
    ensures ReceiveExact(s) == ParseFrames(s.data)
    decreases |s.data|
  {
    if FrameAhead(s.data) {
      var s2 := ReceiveExactStep(s);
      ReceiveExactIsParse(s2);
    } else if |s.data| < 4 {
      ReceiveExactShort(s);
    } else if ReadBigEndian32(s.data[..4]) > MaxFrameSize {
      ReceiveExactOversize(s);
    } else {
      ReceiveExactTruncated(s);
    }
  }

  lemma SessionExactIsParse(s: Stream)
    ensures SessionExact(s) == ParseStream(s.data)
  {
    var (tag, s1) := ReadExact(s, 4);
    SplitAt(tag, s1.data, s.data);
    ReceiveExactIsParse(s);
    ReceiveExactIsParse(s1);
  }

  /** Parsing one framed payload gives it back, then what follows. */
  lemma ParseFramesFrameOf(f: seq<byte>, rest: seq<byte>)
    requires |f| <= MaxFrameSize
    ensures ParseFrames(FrameOf(f) + rest) == Prepend([f], ParseFrames(rest))
  {
    var b := FrameOf(f) + rest;
    AppendAssociative(BigEndian32(|f|), f, rest);
    SplitAt(BigEndian32(|f|), f + rest, b);
    assert b[4..4 + |f|] == f;
    assert b[4 + |f|..] == rest;
  }

  /** Parsing frames that the sender framed gives them back, then what follows. */
  lemma {:induction false} ParseFramesAppend(frames: seq<seq<byte>>, rest: seq<byte>)
    requires Acceptable(frames)
    ensures ParseFrames(Framed(frames) + rest) == Prepend(frames, ParseFrames(rest))
  {
    if frames == [] {
      assert Framed(frames) + rest == rest;
    } else {
      var f, more := frames[0], frames[1..];
      var tail := Framed(more) + rest;
      assert Framed(frames) == FrameOf(f) + Framed(more);
      AppendAssociative(FrameOf(f), Framed(more), rest);
      ParseFramesFrameOf(f, tail);
      ParseFramesAppend(more, rest);
      PrependTwice(f, more, ParseFrames(rest));
      assert [f] + more == frames;
    }
  }

  lemma PrependTwice(f: seq<byte>, more: seq<seq<byte>>, r: Reception)
    ensures Prepend([f], Prepend(more, r)) == Prepend([f] + more, r)
  {
    AppendAssociative([f], more, r.frames);
  }

  lemma ParseFramesOfFramed(frames: seq<seq<byte>>)
    requires Acceptable(frames)
    ensures ParseFrames(Framed(frames)) == Reception(frames, NoMoreData)
  {
    ParseFramesAppend(frames, []);
    assert Framed(frames) + [] == Framed(frames);
  }

  lemma FramedCons(f: seq<byte>, frames: seq<seq<byte>>)
    requires |f| <= MaxFrameSize && Acceptable(frames)
    ensures Acceptable([f] + frames)
    ensures Framed([f] + frames) == FrameOf(f) + Framed(frames)
  {
    assert ([f] + frames)[1..] == frames;
  }

  lemma PrefixAppend(a: seq<byte>, x: seq<byte>, y: seq<byte>)
    requires x <= y
    ensures a + x <= a + y
    ensures a + x == a + y <==> x == y
  {
    assert (a + y)[..|a + x|] == a + x;
    if a + x == a + y {
      assert x == (a + x)[|a|..] == (a + y)[|a|..] == y;
    }
  }

  /**
   * The other direction: framing what was parsed gives back the stream read
   * so far, and all of it exactly when the loop stopped on end of data.
   */
  lemma {:induction false} ParseFramesReframes(b: seq<byte>)
    ensures var r := ParseFrames(b);
      Framed(r.frames) <= b && (r.stop == NoMoreData <==> Framed(r.frames) == b)
    decreases |b|
  {
    if FrameAhead(b) {
      var n := ReadBigEndian32(b[..4]);
      var f, rest := b[4..4 + n], b[4 + n..];
      var r := ParseFrames(rest);
      ParseStep(b);
      ParseFramesReframes(rest);
      FrameSplit(b);
      FramedCons(f, r.frames);
      PrefixAppend(FrameOf(f), Framed(r.frames), rest);
    }
  }

  /** Big endian `HEVC` read as a frame size: far above the limit. */
  lemma FormatTagAsSize()
    ensures ReadBigEndian32(FormatTag) == 0x4845_5643 > MaxFrameSize
  {
  }

  /** A session parses framed payloads back, whether or not the tag leads. */
  lemma ParseStreamOfFramed(frames: seq<seq<byte>>, tagged: bool)
    requires Acceptable(frames)
    ensures ParseStream((if tagged then FormatTag else []) + Framed(frames))
      == Reception(frames, NoMoreData)
  {
    var b := (if tagged then FormatTag else []) + Framed(frames);
    ParseFramesOfFramed(frames);
    if tagged {
      assert b[..4] == FormatTag && b[4..] == Framed(frames);
    } else {
      assert b == Framed(frames);
    }
  }

  /**
   * Framed payloads never start with the tag: a size field within the limit
   * starts with a zero byte, the tag with `H`.
   */
  lemma FramedUntagged(frames: seq<seq<byte>>)
    requires Acceptable(frames)
    ensures |Framed(frames)| >= 4 ==> Framed(frames)[..4] != FormatTag
  {
    if frames != [] {
      assert |frames[0]| <= MaxFrameSize;
      assert Framed(frames)[0] == BigEndian32(|frames[0]|)[0] == 0;
    }
  }

  /** A tag in the middle of the stream is read as an oversized frame. */
  lemma MidStreamTag(frames: seq<seq<byte>>, rest: seq<byte>)
    requires Acceptable(frames)
    ensures ParseFrames(Framed(frames) + (FormatTag + rest))
      == Reception(frames, InvalidSize(0x4845_5643))
  {
    ParseFramesAppend(frames, FormatTag + rest);
    assert (FormatTag + rest)[..4] == FormatTag;
  }
}
