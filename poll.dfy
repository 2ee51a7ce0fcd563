/** The decision logic of `MasterCommandChannel::recvError` as functions over
    the poll list: building the cached list, clearing the returned events,
    the wait loop around `::poll`, and the ascending scan for the first
    connection with an event. The readiness wait itself is an input: the
    sequence of results the successive `::poll` calls return, each with the
    value the exit flag is seen to have right after it. */
module Poll {
  import opened Wire
  import opened Text

  /** The value of `POLLIN` on Linux. */
  const POLLIN: int := 1

  /** One `struct pollfd`. */
  datatype PollFd = PollFd(fd: int, events: int, revents: int)

  /** The result of one `::poll` call: its non-negative return value and
      the `revents` it reports per entry, or a failure (`SYSCHECK` turns the
      return value -1 into an exception whose text is `what`). */
  datatype PollResult = Returned(count: nat, revents: seq<int>) | Failed(what: CString)

  /** One wake-up of the wait loop: what `::poll` returned and whether the
      exit flag was then found set. */
  datatype Wake = Wake(result: PollResult, exiting: bool)

  /** Which branch of `recvError` was taken. */
  datatype Outcome =
    | PollFailed(what: CString)
    | ExitObserved
    | NothingReady
    | WorkerClosed(rank: nat)
    | ErrorRead(rank: nat, text: CString)
    | ReadFailed(rank: nat)

  /** What `recvError` returns: the rank and the error text. */
  datatype Report = Report(rank: nat, text: string)

  const CLOSED_TEXT: string := "connection with worker has been closed"
  const NOT_RECEIVED_TEXT: string := "failed to receive error from worker"

  /** The tuple `recvError` returns for each branch; `ioText` is the text of
      the exception `recv_bytes` raises when the error read fails. */
  function ReportOf(o: Outcome, ioText: CString): (r: Report)
    ensures o.PollFailed? || o.ExitObserved? || o.NothingReady? ==> r.rank == 0
    ensures o.WorkerClosed? || o.ErrorRead? || o.ReadFailed? ==> r.rank == o.rank
  {
    match o
    case PollFailed(what) => Report(0, "poll: " + what)
    case ExitObserved => Report(0, "")
    case NothingReady => Report(0, NOT_RECEIVED_TEXT)
    case WorkerClosed(k) => Report(k, CLOSED_TEXT)
    case ErrorRead(k, text) => Report(k, text)
    case ReadFailed(k) => Report(k, "recv: " + ioText)
  }

  /** The poll list built on first use: one entry per socket slot, same
      descriptor, interest `POLLIN`, no events. */
  function PollList(table: seq<int>): (p: seq<PollFd>)
    ensures |p| == |table|
    ensures forall i :: 0 <= i < |p| ==> p[i] == PollFd(table[i], POLLIN, 0)
  {
    seq(|table|, i requires 0 <= i < |table| => PollFd(table[i], POLLIN, 0))
  }

  /** The list after every `revents` is reset to 0. */
  function ClearRevents(p: seq<PollFd>): (q: seq<PollFd>)
    ensures |q| == |p|
    ensures forall i :: 0 <= i < |p| ==> q[i] == p[i].(revents := 0)
  {
    seq(|p|, i requires 0 <= i < |p| => p[i].(revents := 0))
  }

  /** The list after `::poll` has stored its events: an entry whose
      descriptor is negative is ignored by `::poll` and gets 0. */
  function ApplyPoll(p: seq<PollFd>, revents: seq<int>): (q: seq<PollFd>)
    requires |revents| == |p|
    ensures |q| == |p|
    ensures forall i :: 0 <= i < |p| ==>
      q[i] == p[i].(revents := if p[i].fd < 0 then 0 else revents[i])
  {
    seq(|p|, i requires 0 <= i < |p| => p[i].(revents := if p[i].fd < 0 then 0 else revents[i]))
  }

  /** Entries keep their descriptor and interest. */
  predicate SameFds(p: seq<PollFd>, q: seq<PollFd>)
  {
    |p| == |q| && forall i :: 0 <= i < |p| ==> q[i].fd == p[i].fd && q[i].events == p[i].events
  }

  /** A wake that leaves the wait loop: a failure, the exit flag, or a
      positive return value. */
  predicate EndsWait(w: Wake)
  {
    w.result.Failed? || w.exiting || w.result.count != 0
  }

  /** The wakes `::poll` delivers for a list of `n` entries, with the wait
      over by the last one (the loop blocks for as long as it does not end). */
  predicate ValidWakes(wakes: seq<Wake>, n: nat)
  {
    && |wakes| > 0
    && EndsWait(wakes[|wakes| - 1])
    && forall i :: 0 <= i < |wakes| && wakes[i].result.Returned? ==> |wakes[i].result.revents| == n
  }

  datatype WaitEnd = WaitFailed(what: CString) | WaitExited | Woke

  /** The index of the first wake at or after `w` that leaves the loop. */
  function FirstEnd(wakes: seq<Wake>, w: nat): (e: nat)
    requires w < |wakes| && EndsWait(wakes[|wakes| - 1])
    ensures w <= e < |wakes| && EndsWait(wakes[e])
    ensures forall j :: w <= j < e ==> !EndsWait(wakes[j])
    decreases |wakes| - w
  {
    if EndsWait(wakes[w]) then w else FirstEnd(wakes, w + 1)
  }

  /** How a wake that leaves the loop leaves it: a failed `::poll` first,
      then the exit flag, then a positive return value. */
  function WaitEndOf(wake: Wake): WaitEnd
  {
    match wake.result
    case Failed(what) => WaitFailed(what)
    case Returned(_, _) => if wake.exiting then WaitExited else Woke
  }

  /** The wait loop from wake `w` on, and the poll list it leaves. */
  function WaitFrom(p: seq<PollFd>, wakes: seq<Wake>, w: nat): (r: (WaitEnd, seq<PollFd>))
    requires w < |wakes| && ValidWakes(wakes, |p|)
    ensures SameFds(p, r.1)
    ensures r.0 == Woke ==> forall i :: 0 <= i < |p| && r.1[i].fd < 0 ==> r.1[i].revents == 0
    decreases |wakes| - w
  {
    match wakes[w].result
    case Failed(what) => (WaitFailed(what), p)
    case Returned(count, revents) =>
      var q := ApplyPoll(p, revents);
      if wakes[w].exiting then (WaitExited, q)
      else if count != 0 then (Woke, q)
      else WaitFrom(q, wakes, w + 1)
  }

  /** `::poll` overwrites every `revents`, so only the last call's events
      remain. */
  lemma ApplyPollAgain(p: seq<PollFd>, a: seq<int>, b: seq<int>)
    requires |a| == |p| && |b| == |p|
    ensures ApplyPoll(ApplyPoll(p, a), b) == ApplyPoll(p, b)
  {
    var q := ApplyPoll(p, a);
    assert forall i :: 0 <= i < |p| ==> ApplyPoll(q, b)[i] == ApplyPoll(p, b)[i];
  }

  /** The wait loop ends at the first wake that fails, sees the exit flag
      or returns a positive count, and ends as that wake says; when that
      `::poll` returned, the list holds exactly its events. */
  lemma {:induction false} WaitFromEnds(p: seq<PollFd>, wakes: seq<Wake>, w: nat)
    requires w < |wakes| && ValidWakes(wakes, |p|)
    ensures var e := FirstEnd(wakes, w);
      && WaitFrom(p, wakes, w).0 == WaitEndOf(wakes[e])
      && (wakes[e].result.Returned? ==> WaitFrom(p, wakes, w).1 == ApplyPoll(p, wakes[e].result.revents))
    decreases |wakes| - w
  {
    if !EndsWait(wakes[w]) {
      var q := ApplyPoll(p, wakes[w].result.revents);
      WaitFromEnds(q, wakes, w + 1);
      var e := FirstEnd(wakes, w + 1);
      if wakes[e].result.Returned? {
        ApplyPollAgain(p, wakes[w].result.revents, wakes[e].result.revents);
      }
    }
  }

  /** The index of the first entry at or after `from` with events, or `|p|`. */
  function FirstReady(p: seq<PollFd>, from: nat): (k: nat)
    requires from <= |p|
    ensures from <= k <= |p|
    ensures forall i :: from <= i < k ==> p[i].revents == 0
    ensures k < |p| ==> p[k].revents != 0
    decreases |p| - from
  {
    if from == |p| || p[from].revents != 0 then from else FirstReady(p, from + 1)
  }

  /** The scan after a genuine wake: the first entry with events decides.
      Anything but exactly `POLLIN` means the connection is closed, and that
      entry's descriptor becomes -1; exactly `POLLIN` means an error frame
      is read from `incoming[k]`, the bytes that worker sends on its
      connection. */
  function Scan(p: seq<PollFd>, incoming: seq<seq<byte>>): (r: (Outcome, seq<PollFd>))
    requires |incoming| == |p|
    ensures r.0.WorkerClosed? || r.0.ErrorRead? || r.0.ReadFailed? ==>
      && r.0.rank < |p|
      && p[r.0.rank].revents != 0
      && (forall i :: 0 <= i < r.0.rank ==> p[i].revents == 0)
      && (r.0.WorkerClosed? <==> p[r.0.rank].revents != POLLIN)
    ensures r.0.NothingReady? <==> forall i :: 0 <= i < |p| ==> p[i].revents == 0
    ensures r.0.ReadFailed? ==> DecodeFrame(incoming[r.0.rank]).None?
    ensures r.0.ErrorRead? ==>
      && DecodeFrame(incoming[r.0.rank]).Some?
      && r.0.text == TextOf(DecodeFrame(incoming[r.0.rank]).value.payload)
    ensures !r.0.PollFailed? && !r.0.ExitObserved?
    ensures r.1 == if r.0.WorkerClosed? then p[r.0.rank := p[r.0.rank].(fd := -1)] else p
  {
    var k := FirstReady(p, 0);
    if k == |p| then (NothingReady, p)
    else if p[k].revents != POLLIN then (WorkerClosed(k), p[k := p[k].(fd := -1)])
    else match DecodeFrame(incoming[k])
      case Some(d) => (ErrorRead(k, TextOf(d.payload)), p)
      case None => (ReadFailed(k), p)
  }

  /** The size of the buffer the error read allocates for a length field
      `len`, as written: `len + 1` in `std::uint64_t` arithmetic. */
  function ErrorBufferSize(len: nat): (size: nat)
    requires len < Pow256(LENGTH_WIDTH)
    ensures size < Pow256(LENGTH_WIDTH)
  {
    (len + 1) % Pow256(LENGTH_WIDTH)
  }

  /** As written, the buffer has room for the `len` bytes read into it for
      every length field except the largest, where `len + 1` wraps to 0. */
  lemma ErrorBufferOverrun(len: nat)
    requires len < Pow256(LENGTH_WIDTH)
    ensures ErrorBufferSize(len) > len <==> len != Pow256(LENGTH_WIDTH) - 1
    ensures len == Pow256(LENGTH_WIDTH) - 1 ==> ErrorBufferSize(len) == 0
  {
    if len + 1 < Pow256(LENGTH_WIDTH) {
      ModOfSmaller(len + 1, Pow256(LENGTH_WIDTH));
    } else {
      ModUnique(len + 1, Pow256(LENGTH_WIDTH), 1, 0);
    }
  }

  /** A worker that sends the length field 2^64 - 1 followed by one byte.
      As written, the error read allocates a zero-size buffer for that
      length while one byte is there to be read into it; the model's read
      fails instead, and the report is the `recv` failure. */
  lemma MaxLengthErrorFrame(fd: int, ioText: CString)
    ensures var incoming := EncodeLE(Pow256(LENGTH_WIDTH) - 1, LENGTH_WIDTH) + [65];
      && DecodeLE(incoming[..LENGTH_WIDTH]) == Pow256(LENGTH_WIDTH) - 1
      && ErrorBufferSize(DecodeLE(incoming[..LENGTH_WIDTH])) == 0
      && |incoming| - LENGTH_WIDTH == 1
      && Scan([PollFd(fd, POLLIN, POLLIN)], [incoming]).0 == ReadFailed(0)
      && ReportOf(Scan([PollFd(fd, POLLIN, POLLIN)], [incoming]).0, ioText) == Report(0, "recv: " + ioText)
  {
    var max := Pow256(LENGTH_WIDTH) - 1;
    var incoming := EncodeLE(max, LENGTH_WIDTH) + [65];
    assert incoming[..LENGTH_WIDTH] == EncodeLE(max, LENGTH_WIDTH);
    DecodeEncodeLE(max, LENGTH_WIDTH);
    ModOfSmaller(max, Pow256(LENGTH_WIDTH));
    ErrorBufferOverrun(max);
    assert FirstReady([PollFd(fd, POLLIN, POLLIN)], 0) == 0;
  }

  /** The read the code evidently intends: when the first entry with events
      reports exactly `POLLIN` and its worker sends fewer payload bytes than
      its length field says, whatever that length, the read fails and the
      report is that rank with the `recv` failure text. */
  lemma ShortErrorFrameFails(p: seq<PollFd>, incoming: seq<seq<byte>>, k: nat, ioText: CString)
    requires |incoming| == |p| && k < |p|
    requires forall i :: 0 <= i < k ==> p[i].revents == 0
    requires p[k].revents == POLLIN
    requires |incoming[k]| >= LENGTH_WIDTH
    requires |incoming[k]| < LENGTH_WIDTH + DecodeLE(incoming[k][..LENGTH_WIDTH])
    ensures Scan(p, incoming) == (ReadFailed(k), p)
    ensures ReportOf(Scan(p, incoming).0, ioText) == Report(k, "recv: " + ioText)
  {
    assert FirstReady(p, 0) == k;
  }

  /** One call of `recvError` on poll list `p0`: reset the events, wait,
      then scan. The fallbacks come first: a poll failure, then the exit
      flag seen after a poll. */
  function RecvErrorSpec(p0: seq<PollFd>, wakes: seq<Wake>, incoming: seq<seq<byte>>): (r: (Outcome, seq<PollFd>))
    requires ValidWakes(wakes, |p0|) && |incoming| == |p0|
    ensures |r.1| == |p0|
    ensures forall i :: 0 <= i < |p0| ==>
      && r.1[i].events == p0[i].events
      && r.1[i].fd == if r.0 == WorkerClosed(i) then -1 else p0[i].fd
    ensures var wake := wakes[FirstEnd(wakes, 0)];
      && (wake.result.Failed? ==> r.0 == PollFailed(wake.result.what))
      && (wake.result.Returned? && wake.exiting ==> r.0 == ExitObserved)
      && (wake.result.Returned? && !wake.exiting ==>
            r == Scan(ApplyPoll(ClearRevents(p0), wake.result.revents), incoming))
  {
    WaitFromEnds(ClearRevents(p0), wakes, 0);
    var (end, p1) := WaitFrom(ClearRevents(p0), wakes, 0);
    match end
    case WaitFailed(what) => (PollFailed(what), p1)
    case WaitExited => (ExitObserved, p1)
    case Woke => Scan(p1, incoming)
  }

  /** The tuples of the fallbacks: a failed `::poll` gives rank 0 and
      "poll: " with the failure's text, the exit flag gives rank 0 and the
      empty text, and a wake with no entry ready gives rank 0 and "failed to
      receive error from worker". */
  lemma RecvErrorFallbacks(p0: seq<PollFd>, wakes: seq<Wake>, incoming: seq<seq<byte>>, ioText: CString)
    requires ValidWakes(wakes, |p0|) && |incoming| == |p0|
    ensures var wake := wakes[FirstEnd(wakes, 0)];
      var report := ReportOf(RecvErrorSpec(p0, wakes, incoming).0, ioText);
      && (wake.result.Failed? ==> report == Report(0, "poll: " + wake.result.what))
      && (wake.result.Returned? && wake.exiting ==> report == Report(0, ""))
      && (wake.result.Returned? && !wake.exiting &&
          (forall i :: 0 <= i < |p0| ==> p0[i].fd < 0 || wake.result.revents[i] == 0) ==>
            report == Report(0, NOT_RECEIVED_TEXT))
  {
    var wake := wakes[FirstEnd(wakes, 0)];
    if wake.result.Returned? && !wake.exiting {
      var q := ApplyPoll(ClearRevents(p0), wake.result.revents);
      if forall i :: 0 <= i < |p0| ==> p0[i].fd < 0 || wake.result.revents[i] == 0 {
        assert forall i :: 0 <= i < |q| ==> q[i].revents == 0;
      }
    }
  }

  /** A connection that has been excluded (its descriptor is negative, as
      after a closed-connection report) is never reported again. */
  lemma ExcludedNeverReported(p0: seq<PollFd>, wakes: seq<Wake>, incoming: seq<seq<byte>>, k: nat)
    requires ValidWakes(wakes, |p0|) && |incoming| == |p0|
    requires k < |p0| && p0[k].fd < 0
    ensures var o := RecvErrorSpec(p0, wakes, incoming).0;
      !((o.WorkerClosed? || o.ErrorRead? || o.ReadFailed?) && o.rank == k)
  {
    var (end, p1) := WaitFrom(ClearRevents(p0), wakes, 0);
    assert SameFds(ClearRevents(p0), p1);
    assert p1[k].fd < 0;
  }

  /** The number of entries `::poll` would count for these events: those
      with a non-negative descriptor and non-zero events. */
  function ReadyCount(p: seq<PollFd>, revents: seq<int>): (c: nat)
    requires |revents| == |p|
    ensures c <= |p|
  {
    if p == [] then 0
    else ReadyCount(p[1..], revents[1..]) + (if p[0].fd >= 0 && revents[0] != 0 then 1 else 0)
  }

  /** Every wake's return value is the count `::poll` reports for its events. */
  predicate ConsistentWakes(p: seq<PollFd>, wakes: seq<Wake>)
  {
    forall i :: 0 <= i < |wakes| && wakes[i].result.Returned? && |wakes[i].result.revents| == |p| ==>
      wakes[i].result.count == ReadyCount(p, wakes[i].result.revents)
  }

  lemma {:induction false} ReadyCountPositive(p: seq<PollFd>, revents: seq<int>)
    requires |revents| == |p| && ReadyCount(p, revents) > 0
    ensures exists i :: 0 <= i < |p| && p[i].fd >= 0 && revents[i] != 0
  {
    if !(p[0].fd >= 0 && revents[0] != 0) {
      ReadyCountPositive(p[1..], revents[1..]);
      var i :| 0 <= i < |p| - 1 && p[1..][i].fd >= 0 && revents[1..][i] != 0;
      assert p[i + 1].fd >= 0 && revents[i + 1] != 0;
    }
  }

  lemma {:induction false} ConsistentWaitHasEvent(p: seq<PollFd>, wakes: seq<Wake>, w: nat)
    requires w < |wakes| && ValidWakes(wakes, |p|)
    requires ConsistentWakes(p, wakes)
    requires WaitFrom(p, wakes, w).0 == Woke
    ensures exists i :: 0 <= i < |p| && WaitFrom(p, wakes, w).1[i].revents != 0
    decreases |wakes| - w
  {
    var r := wakes[w].result;
    var q := ApplyPoll(p, r.revents);
    if r.count != 0 && !wakes[w].exiting {
      ReadyCountPositive(p, r.revents);
      var i :| 0 <= i < |p| && p[i].fd >= 0 && r.revents[i] != 0;
      assert q[i].revents != 0;
    } else {
      assert SameFds(p, q);
      forall i | 0 <= i < |wakes| && wakes[i].result.Returned? && |wakes[i].result.revents| == |q|
        ensures wakes[i].result.count == ReadyCount(q, wakes[i].result.revents)
      {
        ReadyCountSameFds(p, q, wakes[i].result.revents);
      }
      ConsistentWaitHasEvent(q, wakes, w + 1);
    }
  }

  lemma {:induction false} ReadyCountSameFds(p: seq<PollFd>, q: seq<PollFd>, revents: seq<int>)
    requires SameFds(p, q) && |revents| == |p|
    ensures ReadyCount(p, revents) == ReadyCount(q, revents)
  {
    if p != [] {
      ReadyCountSameFds(p[1..], q[1..], revents[1..]);
    }
  }

  /** When every return value of `::poll` agrees with the events it reports,
      the "failed to receive error from worker" fallback cannot happen. */
  lemma ConsistentPollFindsEvent(p0: seq<PollFd>, wakes: seq<Wake>, incoming: seq<seq<byte>>)
    requires ValidWakes(wakes, |p0|) && |incoming| == |p0|
    requires ConsistentWakes(p0, wakes)
    ensures RecvErrorSpec(p0, wakes, incoming).0 != NothingReady
  {
    var c := ClearRevents(p0);
    forall i | 0 <= i < |wakes| && wakes[i].result.Returned? && |wakes[i].result.revents| == |c|
      ensures wakes[i].result.count == ReadyCount(c, wakes[i].result.revents)
    {
      ReadyCountSameFds(p0, c, wakes[i].result.revents);
    }
    if WaitFrom(c, wakes, 0).0 == Woke {
      ConsistentWaitHasEvent(c, wakes, 0);
    }
  }
}
