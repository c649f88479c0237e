/**
 * The receiver of `video_receiver.py` as it runs: a client socket whose
 * `recv` follows `FrameStream.Take`, and the `VideoReceiver` whose methods
 * are the loops of `start` and `receive_frames`, each proved to compute the
 * functions of `FrameStream`. The output file `received_frames/output.h265`
 * is the sequence of bytes written to it since it was last opened.
 */
module Receiver {
  import opened Bytes
  import opened FrameStream

  /** An accepted client connection. */
  class ClientSocket {
    /** What the peer sent that was not read yet, and how it arrives. */
    var pending: Stream

    constructor (stream: Stream)
      ensures pending == stream
    {
      pending := stream;
    }

    /** `recv(n)`. */
    method Recv(n: nat) returns (data: seq<byte>)
      requires n > 0
      modifies this
      ensures data == Take(old(pending), n).0 && pending == Take(old(pending), n).1
    {
      var k := Min(n, Front(pending));
      data := pending.data[..k];
      pending := Stream(pending.data[k..], RestCuts(pending.cuts, k));
    }

    /** `recv(n, socket.MSG_PEEK)`. */
    method Peek(n: nat) returns (data: seq<byte>)
      requires n > 0
      ensures data == Take(pending, n).0
    {
      data := pending.data[..Min(n, Front(pending))];
    }
  }

  class VideoReceiver {
    var running: bool
    var clientSocket: ClientSocket?
    /** The bytes of `output.h265`. */
    var outputFile: seq<byte>

    /**
     * `__init__` does not touch `output.h265`: it holds whatever an earlier
     * run left in it, `existing`.
     */
    constructor (existing: seq<byte>)
      ensures !running && clientSocket == null && outputFile == existing
    {
      running := false;
      clientSocket := null;
      outputFile := existing;
    }

    /**
     * `receive_frames`: opens the output file afresh and writes the frames
     * of the connection into it until the loop stops. The frame count and
     * the reason for stopping are what the source prints.
     */
    method ReceiveFrames() returns (frameCount: nat, stop: StopReason)
      requires clientSocket != null
      modifies this`outputFile, clientSocket
      ensures var r := if running then Receive(old(clientSocket.pending)) else Reception([], Stopped);
        outputFile == Concat(r.frames) && frameCount == |r.frames| && stop == r.stop
      ensures !running ==> clientSocket.pending == old(clientSocket.pending)
    {
      var sock := clientSocket;
      outputFile := [];
      frameCount := 0;
      stop := Stopped;
      ghost var frames: seq<seq<byte>> := [];
      while running
        invariant running == old(running) && clientSocket == sock
        invariant stop == Stopped && (!running ==> frames == [])
        invariant Receive(old(sock.pending)) == Prepend(frames, Receive(sock.pending))
        invariant outputFile == Concat(frames) && frameCount == |frames|
        invariant frames == [] ==> sock.pending == old(sock.pending)
        decreases |sock.pending.data|
      {
        ghost var before := sock.pending;
        var sizeData := sock.Recv(4);
        if sizeData == [] {
          stop := NoMoreData;
          assert Receive(before) == Reception([], stop);
          PrependNothing(frames, stop);
          break;
        }
        if |sizeData| != 4 {
          stop := IncompleteSize(|sizeData|);
          assert Receive(before) == Reception([], stop);
          PrependNothing(frames, stop);
          break;
        }
        var frameSize := ReadBigEndian32(sizeData);
        if frameSize > MaxFrameSize {
          stop := InvalidSize(frameSize);
          assert Receive(before) == Reception([], stop);
          PrependNothing(frames, stop);
          break;
        }
        var frameData := ReceivePayload(sock, frameSize);
        if |frameData| < frameSize {
          stop := IncompleteFrame(|frameData|, frameSize);
          assert Receive(before) == Reception([], stop);
          PrependNothing(frames, stop);
          break;
        }
        ReceiveOneFrame(before);
        AppendAssociative(frames, [frameData], Receive(sock.pending).frames);
        ConcatAppend(frames, frameData);
        outputFile := outputFile + frameData;
        frames := frames + [frameData];
        frameCount := frameCount + 1;
      }
    }

    /**
     * The payload loop of `receive_frames`: `recv` in pieces of at most
     * 4096 bytes until `frameSize` bytes arrived or the connection closed.
     */
    static method ReceivePayload(sock: ClientSocket, frameSize: nat) returns (frameData: seq<byte>)
      modifies sock
      ensures frameData == Gather(old(sock.pending), frameSize).0
      ensures sock.pending == Gather(old(sock.pending), frameSize).1
    {
      frameData := [];
      var remaining: nat := frameSize;
      ghost var target := Gather(sock.pending, frameSize);
      assert frameData + target.0 == target.0;
      while remaining > 0
        invariant target == (frameData + Gather(sock.pending, remaining).0, Gather(sock.pending, remaining).1)
        decreases remaining
      {
        ghost var here := sock.pending;
        var packet := sock.Recv(Min(remaining, RecvChunk));
        if packet == [] {
          GatherClosed(here, remaining);
          assert frameData + [] == frameData;
          break;
        }
        GatherStep(here, remaining, packet, sock.pending);
        AppendAssociative(frameData, packet, Gather(sock.pending, remaining - |packet|).0);
        frameData := frameData + packet;
        remaining := remaining - |packet|;
      }
      if remaining == 0 {
        assert frameData + [] == frameData;
      }
    }

    /**
     * One connection in the accept loop of `start`: peek at the first four
     * bytes, read them off when they are the format tag, receive the frames,
     * and forget the connection.
     */
    method HandleConnection(sock: ClientSocket) returns (frameCount: nat, stop: StopReason)
      modifies this`clientSocket, this`outputFile, sock
      ensures clientSocket == null
      ensures var r := if running then Session(old(sock.pending)) else Reception([], Stopped);
        outputFile == Concat(r.frames) && frameCount == |r.frames| && stop == r.stop
    {
      clientSocket := sock;
      var formatInfo := sock.Peek(4);
      if formatInfo == FormatTag {
        var tag := sock.Recv(4);
      }
      frameCount, stop := ReceiveFrames();
      clientSocket := null;
    }

    /**
     * `start` over the connections that are accepted, one after another,
     * followed by `stop`: `accept` hands over a fresh socket for each
     * incoming stream. The output file is reopened for every connection, so
     * it ends up holding the frames of the last one only.
     */
    method Start(incoming: seq<Stream>)
      requires clientSocket == null
      modifies this`running, this`clientSocket, this`outputFile
      ensures !running && clientSocket == null
      ensures outputFile == if incoming == [] then old(outputFile)
        else Concat(Session(incoming[|incoming| - 1]).frames)
    {
      running := true;
      AcceptAll(incoming);
      Stop();
    }

    /** The accept loop of `start`, while the receiver runs. */
    method AcceptAll(incoming: seq<Stream>)
      requires running && clientSocket == null
      modifies this`clientSocket, this`outputFile
      ensures clientSocket == null
      ensures outputFile == if incoming == [] then old(outputFile)
        else Concat(Session(incoming[|incoming| - 1]).frames)
    {
      for i := 0 to |incoming|
        invariant clientSocket == null
        invariant outputFile == if i == 0 then old(outputFile) else Concat(Session(incoming[i - 1]).frames)
      {
        Accept(incoming[i]);
      }
    }

    /** One turn of the accept loop, for a peer that sends `stream`. */
    method Accept(stream: Stream)
      requires running
      modifies this`clientSocket, this`outputFile
      ensures clientSocket == null
      ensures outputFile == Concat(Session(stream).frames)
    {
      var sock := new ClientSocket(stream);
      var frameCount, stop := HandleConnection(sock);
    }

    /**
     * `stop`: the receiver no longer runs. It closes the client socket but
     * keeps the reference; only the accept loop drops it.
     */
    method Stop()
      modifies this`running
      ensures !running
    {
      running := false;
    }
  }
}
