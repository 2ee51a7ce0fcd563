/** The worker side of the command channel, `WorkerCommandChannel`: one
    connection to the master, over which it sends its rank, waits for the
    confirm byte, reads command frames and writes error frames. The bytes
    the master sends on the connection and the worker has not yet read are
    `inbox`; every send and close is appended to `log`. The lemmas at the
    end connect what one side writes with what the other side reads. */
module Worker {
  import opened Wire
  import opened Text
  import opened Poll
  import opened Master

  class WorkerCommandChannel {
    /** `_rank`, as loaded from the environment. */
    const rank: nat
    /** `_socket`: the connection to the master, -1 before `init`. */
    var socket: int
    /** The bytes the master sends on `socket` that have not yet been read;
        a read that needs more than these fails, as the master has then
        stopped sending. */
    var inbox: seq<byte>
    /** Every send and close performed, in order. */
    var log: seq<IoAction>

    constructor (rank: nat)
      ensures this.rank == rank && socket == -1 && inbox == [] && log == []
    {
      this.rank := rank;
      socket := -1;
      inbox := [];
      log := [];
    }

    /** `init`: connect (the connection is `fd`, with `incoming` the bytes
        the master will send on it), send the rank as a `rank_type`, then
        read the confirm byte; that read fails when the master sends
        nothing. */
    method Init(fd: int, incoming: seq<byte>) returns (ok: bool)
      modifies this`socket, this`inbox, this`log
      ensures socket == fd
      ensures log == old(log) + [Sent(fd, EncodeLE(rank, RANK_WIDTH))]
      ensures ok <==> incoming != []
      ensures inbox == if ok then incoming[1..] else incoming
    {
      socket := fd;
      log := log + [Sent(fd, EncodeLE(rank, RANK_WIDTH))];
      if incoming == [] {
        inbox := incoming;
        return false;
      }
      inbox := incoming[1..];
      ok := true;
    }

    /** `recvMessage`: read one frame from the connection. `None` is the
        exception raised when the master stops sending before a whole frame. */
    method RecvMessage() returns (msg: Option<seq<byte>>)
      modifies this`inbox
      ensures msg.Some? ==> old(inbox) == EncodeFrame(msg.value) + inbox
      ensures msg.Some? <==> DecodeFrame(old(inbox)).Some?
      ensures msg.None? ==> inbox == old(inbox)
    {
      match DecodeFrame(inbox) {
        case Some(d) =>
          FrameDecodedIsEncoded(inbox);
          assert inbox == inbox[..d.consumed] + inbox[d.consumed..];
          msg := Some(d.payload);
          inbox := inbox[d.consumed..];
        case None =>
          msg := None;
      }
    }

    /** `sendError`: the error text as one frame, length first. */
    method SendError(text: CString)
      modifies this`log
      ensures log == old(log) + [Sent(socket, EncodeFrame(OctetsOf(text)))]
    {
      log := log + [Sent(socket, EncodeFrame(OctetsOf(text)))];
    }

    /** The destructor: the connection is closed if there is one. */
    method Close()
      modifies this`log
      ensures log == old(log) + if socket != -1 then [Closed(socket)] else []
    {
      if socket != -1 {
        log := log + [Closed(socket)];
      }
    }
  }

  /** The rank a worker sends is the rank the master reads, as a `rank_type`
      holds it. */
  lemma HelloRegistersRank(r: nat, fd: int, rest: seq<byte>)
    ensures PeerRank(Peer(fd, EncodeLE(r, RANK_WIDTH) + rest)) == Some(r % Pow256(RANK_WIDTH))
  {
    var hello := EncodeLE(r, RANK_WIDTH) + rest;
    assert hello[..RANK_WIDTH] == EncodeLE(r, RANK_WIDTH);
    DecodeEncodeLE(r, RANK_WIDTH);
  }

  /** The master's error read recovers exactly the text a worker's
      `sendError` wrote, whatever follows it on the connection. */
  lemma ErrorFrameRoundTrip(text: CString, rest: seq<byte>)
    requires |text| < Pow256(LENGTH_WIDTH)
    ensures DecodeFrame(EncodeFrame(OctetsOf(text)) + rest).Some?
    ensures TextOf(DecodeFrame(EncodeFrame(OctetsOf(text)) + rest).value.payload) == text
  {
    FrameRoundTrip(OctetsOf(text), rest);
    TextOfOctets(text);
  }

  /** When the first connection with events reports exactly `POLLIN` and
      carries a frame written by `sendError`, the master reports that rank
      with that text. */
  lemma WorkerErrorReported(p: seq<PollFd>, incoming: seq<seq<byte>>, k: nat, text: CString, rest: seq<byte>)
    requires |incoming| == |p| && k < |p|
    requires forall i :: 0 <= i < k ==> p[i].revents == 0
    requires p[k].revents == POLLIN
    requires incoming[k] == EncodeFrame(OctetsOf(text)) + rest && |text| < Pow256(LENGTH_WIDTH)
    ensures Scan(p, incoming) == (ErrorRead(k, text), p)
    ensures forall ioText: CString :: ReportOf(Scan(p, incoming).0, ioText) == Report(k, text)
  {
    assert FirstReady(p, 0) == k;
    ErrorFrameRoundTrip(text, rest);
  }
}
