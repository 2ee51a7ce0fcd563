/** The master side of the command channel, `MasterCommandChannel`: the
    socket table indexed by rank, the bootstrap in `init`, `sendMessage`
    with its two guards, `recvError` over the cached poll list, the loop of
    `errorHandler`, and the closing of the table on teardown. Every socket
    action is appended to `log`; what the peers and `::poll` deliver is
    given to each operation as input. */
module Master {
  import opened Wire
  import opened Text
  import opened Poll

  /** Width in bytes of `rank_type`, the rank each worker sends first. */
  const RANK_WIDTH: nat := 4

  /** The byte the master sends each worker once all have registered. */
  const CONFIRM_BYTE: byte := 1

  const INVALID_RANK_TEXT: string := "sendMessage received invalid rank as parameter"

  /** One connection returned by `accept`, with the bytes its peer sent. */
  datatype Peer = Peer(fd: int, hello: seq<byte>)

  /** The rank read from a peer by `recv_bytes<rank_type>`; `None` when the
      peer sent too few bytes and the read fails. */
  function PeerRank(p: Peer): (r: Option<nat>)
    ensures r.Some? <==> |p.hello| >= RANK_WIDTH
    ensures r.Some? ==> r.value < Pow256(RANK_WIDTH) && EncodeLE(r.value, RANK_WIDTH) == p.hello[..RANK_WIDTH]
  {
    if |p.hello| < RANK_WIDTH then None
    else
      EncodeDecodeLE(p.hello[..RANK_WIDTH]);
      Some(DecodeLE(p.hello[..RANK_WIDTH]))
  }

  datatype InitOutcome = Ready | AcceptFailed | RecvFailed | RankOutOfRange(rank: nat)

  /** Peers `i-1 ..` all deliver a rank that `at` accepts, for the slots
      `i .. n-1` still to fill. */
  predicate Registrable(n: nat, peers: seq<Peer>, i: nat)
  {
    && (i < n ==> n - 1 <= |peers|)
    && forall j :: 0 <= j && i - 1 <= j < n - 1 ==> PeerRank(peers[j]).Some? && PeerRank(peers[j]).value < n
  }

  /** The registration loop of `init` from iteration `i` on: peer `i-1` is
      stored at the slot it names. No uniqueness check is made. */
  function Register(table: seq<int>, peers: seq<Peer>, i: nat): (r: (InitOutcome, seq<int>))
    requires 1 <= i <= |table|
    ensures |r.1| == |table|
    ensures r.0 == Ready <==> Registrable(|table|, peers, i)
    decreases |table| - i
  {
    if i == |table| then (Ready, table)
    else if i - 1 >= |peers| then (AcceptFailed, table)
    else match PeerRank(peers[i - 1])
      case None => (RecvFailed, table)
      case Some(rank) =>
        if rank >= |table| then (RankOutOfRange(rank), table)
        else Register(table[rank := peers[i - 1].fd], peers, i + 1)
  }

  /** A registered peer keeps its slot unless a later peer names the same
      rank; a repeated rank overwrites the slot. */
  lemma {:induction false} RegisterLastWins(table: seq<int>, peers: seq<Peer>, i: nat, j: nat)
    requires 1 <= i <= |table| && Registrable(|table|, peers, i)
    requires i - 1 <= j < |table| - 1
    requires forall j' :: j < j' < |table| - 1 ==> PeerRank(peers[j']) != PeerRank(peers[j])
    ensures PeerRank(peers[j]).Some?
    ensures Register(table, peers, i).1[PeerRank(peers[j]).value] == peers[j].fd
    decreases |table| - i
  {
    var rank := PeerRank(peers[i - 1]).value;
    var next := table[rank := peers[i - 1].fd];
    if j == i - 1 {
      RegisterUntouched(next, peers, i + 1, rank);
    } else {
      RegisterLastWins(next, peers, i + 1, j);
    }
  }

  /** A slot no remaining peer names keeps its value. */
  lemma {:induction false} RegisterUntouched(table: seq<int>, peers: seq<Peer>, i: nat, s: nat)
    requires 1 <= i <= |table| && Registrable(|table|, peers, i) && s < |table|
    requires forall j :: i - 1 <= j < |table| - 1 ==> PeerRank(peers[j]) != Some(s)
    ensures Register(table, peers, i).1[s] == table[s]
    decreases |table| - i
  {
    if i < |table| {
      var rank := PeerRank(peers[i - 1]).value;
      RegisterUntouched(table[rank := peers[i - 1].fd], peers, i + 1, s);
    }
  }

  /** With distinct ranks, every peer's connection ends up in the slot its
      rank names. */
  lemma DistinctRanksKeepSlots(table: seq<int>, peers: seq<Peer>, j: nat)
    requires 1 <= |table| && Registrable(|table|, peers, 1)
    requires forall j1, j2 :: 0 <= j1 < j2 < |table| - 1 ==> PeerRank(peers[j1]) != PeerRank(peers[j2])
    requires j < |table| - 1
    ensures PeerRank(peers[j]).Some?
    ensures Register(table, peers, 1).1[PeerRank(peers[j]).value] == peers[j].fd
  {
    RegisterLastWins(table, peers, 1, j);
  }

  /** With distinct ranks that cover `1 .. n-1`, every worker slot ends up
      holding the connection of the peer that named it. */
  lemma DistinctRanksFillTable(table: seq<int>, peers: seq<Peer>)
    requires 1 <= |table| && Registrable(|table|, peers, 1)
    requires forall j1, j2 :: 0 <= j1 < j2 < |table| - 1 ==> PeerRank(peers[j1]) != PeerRank(peers[j2])
    requires forall s :: 1 <= s < |table| ==> exists j :: 0 <= j < |table| - 1 && PeerRank(peers[j]) == Some(s)
    ensures forall s :: 1 <= s < |table| ==>
      exists j :: 0 <= j < |table| - 1 && PeerRank(peers[j]) == Some(s) && Register(table, peers, 1).1[s] == peers[j].fd
  {
    var filled := Register(table, peers, 1).1;
    forall s | 1 <= s < |table|
      ensures exists j :: 0 <= j < |table| - 1 && PeerRank(peers[j]) == Some(s) && filled[s] == peers[j].fd
    {
      var j :| 0 <= j < |table| - 1 && PeerRank(peers[j]) == Some(s);
      DistinctRanksKeepSlots(table, peers, j);
    }
  }

  /** The confirm bytes of `init`: one to each slot `1 .. n-1`, ascending. */
  function Confirms(table: seq<int>): (c: seq<IoAction>)
    requires |table| >= 1
    ensures |c| == |table| - 1
    ensures forall k :: 0 <= k < |c| ==> c[k] == Sent(table[k + 1], [CONFIRM_BYTE])
  {
    seq(|table| - 1, k requires 0 <= k < |table| - 1 => Sent(table[k + 1], [CONFIRM_BYTE]))
  }

  /** With distinct ranks, the confirm byte for a peer that named a worker
      slot goes to that peer's connection, at the position its rank gives
      in the ascending order. */
  lemma ConfirmsReachPeers(table: seq<int>, peers: seq<Peer>, j: nat)
    requires 1 <= |table| && Registrable(|table|, peers, 1)
    requires forall j1, j2 :: 0 <= j1 < j2 < |table| - 1 ==> PeerRank(peers[j1]) != PeerRank(peers[j2])
    requires j < |table| - 1 && PeerRank(peers[j]) != Some(0)
    ensures PeerRank(peers[j]).Some? && PeerRank(peers[j]).value >= 1
    ensures Confirms(Register(table, peers, 1).1)[PeerRank(peers[j]).value - 1] == Sent(peers[j].fd, [CONFIRM_BYTE])
  {
    DistinctRanksKeepSlots(table, peers, j);
  }

  /** The `::close` calls of the destructor: each slot that is not -1, in
      slot order. */
  function CloseAll(table: seq<int>): (c: seq<IoAction>)
    ensures |c| <= |table|
  {
    if table == [] then []
    else CloseAll(table[..|table| - 1]) + (if table[|table| - 1] != -1 then [Closed(table[|table| - 1])] else [])
  }

  /** The number of slots that are not -1. */
  function OpenCount(table: seq<int>): (n: nat)
    ensures n <= |table|
  {
    if table == [] then 0
    else (if table[0] != -1 then 1 else 0) + OpenCount(table[1..])
  }

  lemma {:induction false} OpenCountAppend(table: seq<int>, x: int)
    ensures OpenCount(table + [x]) == OpenCount(table) + if x != -1 then 1 else 0
  {
    if table != [] {
      assert (table + [x])[1..] == table[1..] + [x];
      OpenCountAppend(table[1..], x);
    } else {
      assert ([x])[1..] == [];
    }
  }

  /** Teardown closes each slot that is not -1 exactly once, in slot order:
      there are as many closes as open slots, and the close of slot `k`
      comes after those of the open slots before it. */
  lemma {:induction false} CloseAllInSlotOrder(table: seq<int>)
    ensures |CloseAll(table)| == OpenCount(table)
    ensures forall k :: 0 <= k < |table| && table[k] != -1 ==>
      OpenCount(table[..k]) < |CloseAll(table)| && CloseAll(table)[OpenCount(table[..k])] == Closed(table[k])
  {
    if table != [] {
      var n := |table|;
      var front := table[..n - 1];
      CloseAllInSlotOrder(front);
      assert table == front + [table[n - 1]];
      OpenCountAppend(front, table[n - 1]);
      forall k | 0 <= k < n && table[k] != -1
        ensures OpenCount(table[..k]) < |CloseAll(table)| && CloseAll(table)[OpenCount(table[..k])] == Closed(table[k])
      {
        if k < n - 1 {
          assert table[..k] == front[..k];
          assert front[k] == table[k];
        } else {
          assert table[..k] == front;
        }
      }
    }
  }

  lemma {:induction false} CloseAllClosesOpen(table: seq<int>)
    ensures forall a :: a in CloseAll(table) ==> a.Closed? && a.fd in table && a.fd != -1
    ensures forall k :: 0 <= k < |table| && table[k] != -1 ==> Closed(table[k]) in CloseAll(table)
  {
    if table != [] {
      var front := table[..|table| - 1];
      CloseAllClosesOpen(front);
      assert forall k :: 0 <= k < |front| ==> front[k] == table[k];
    }
  }

  /** The message `errorHandler` stores for a report. */
  function FormatError(rank: nat, text: string): (s: string)
    ensures |s| == 15 + |NatToString(rank)| + |text|
    ensures s[..12] == "error (rank " && s[|s| - |text|..] == text
    ensures s[12..12 + |NatToString(rank)|] == NatToString(rank)
    ensures s[12 + |NatToString(rank)|..15 + |NatToString(rank)|] == "): "
  {
    "error (rank " + NatToString(rank) + "): " + text
  }

  lemma CancelPrefix(a: string, u: string, v: string)
    requires a + u == a + v
    ensures u == v
  {
    assert u == (a + u)[|a|..];
    assert v == (a + v)[|a|..];
  }

  /** Two strings that both start with a run of digits followed by a
      non-digit split the same way. */
  lemma SplitDigits(d1: string, x1: string, d2: string, x2: string)
    requires AllDigits(d1) && AllDigits(d2)
    requires x1 != [] && x2 != [] && !IsDigit(x1[0]) && !IsDigit(x2[0])
    requires d1 + x1 == d2 + x2
    ensures d1 == d2 && x1 == x2
  {
    LeadingDigitsOf(d1, x1);
    LeadingDigitsOf(d2, x2);
    assert d1 == (d1 + x1)[..|d1|];
    assert d2 == (d2 + x2)[..|d2|];
    CancelPrefix(d1, x1, x2);
  }

  lemma FormatErrorParts(rank: nat, text: string)
    ensures FormatError(rank, text) == "error (rank " + (NatToString(rank) + ("): " + text))
  {
  }

  /** The stored message identifies the rank and the text it was made of. */
  lemma FormatErrorInjective(r1: nat, t1: string, r2: nat, t2: string)
    requires FormatError(r1, t1) == FormatError(r2, t2)
    ensures r1 == r2 && t1 == t2
  {
    var d1, d2 := NatToString(r1), NatToString(r2);
    FormatErrorParts(r1, t1);
    FormatErrorParts(r2, t2);
    CancelPrefix("error (rank ", d1 + ("): " + t1), d2 + ("): " + t2));
    SplitDigits(d1, "): " + t1, d2, "): " + t2);
    NatToStringInjective(r1, r2);
    CancelPrefix("): ", t1, t2);
  }

  /** The stored error after the handler stored `reports` in order. */
  function LastStored(error: Option<string>, reports: seq<Report>): (e: Option<string>)
    ensures reports != [] ==> e.Some?
  {
    if reports == [] then error
    else Some(FormatError(reports[|reports| - 1].rank, reports[|reports| - 1].text))
  }

  /** The inputs of one iteration of `errorHandler`: those of its
      `recvError` call, and the exit flag as the handler then reads it. */
  datatype Round = Round(wakes: seq<Wake>, incoming: seq<seq<byte>>, ioText: CString, exitingAfter: bool)

  /** The exit flag is only ever set, never cleared: once `recvError` has
      seen it, the handler sees it too. */
  predicate ValidRound(r: Round, n: nat)
  {
    && ValidWakes(r.wakes, n)
    && |r.incoming| == n
    && forall k :: 0 <= k < |r.wakes| && r.wakes[k].exiting ==> r.exitingAfter
  }

  /** The `errorHandler` loop from round `i` on: the reports it stores, in
      order, and the poll list it leaves. */
  function HandlerRun(p: seq<PollFd>, rounds: seq<Round>, i: nat): (r: (seq<Report>, seq<PollFd>))
    requires i <= |rounds| && forall j :: i <= j < |rounds| ==> ValidRound(rounds[j], |p|)
    ensures |r.1| == |p|
    decreases |rounds| - i
  {
    if i == |rounds| then ([], p)
    else
      assert ValidRound(rounds[i], |p|);
      var (o, q) := RecvErrorSpec(p, rounds[i].wakes, rounds[i].incoming);
      if rounds[i].exitingAfter then ([], q)
      else
        var (stored, q') := HandlerRun(q, rounds, i + 1);
        ([ReportOf(o, rounds[i].ioText)] + stored, q')
  }

  /** A round that ends with the exit flag stores nothing, and stops the
      handler. */
  lemma HandlerExitStoresNothing(p: seq<PollFd>, rounds: seq<Round>, i: nat)
    requires i < |rounds| && forall j :: i <= j < |rounds| ==> ValidRound(rounds[j], |p|)
    requires rounds[i].exitingAfter
    ensures HandlerRun(p, rounds, i).0 == []
  {
  }

  /** Every completed round stores one report and a later report replaces
      an earlier one: the handler keeps the last error, not the first. */
  lemma {:induction false} HandlerStoresEachRound(p: seq<PollFd>, rounds: seq<Round>, i: nat)
    requires i <= |rounds| && forall j :: i <= j < |rounds| ==> ValidRound(rounds[j], |p|)
    requires forall j :: i <= j < |rounds| ==> !rounds[j].exitingAfter
    ensures |HandlerRun(p, rounds, i).0| == |rounds| - i
    decreases |rounds| - i
  {
    if i < |rounds| {
      assert ValidRound(rounds[i], |p|);
      var spec := RecvErrorSpec(p, rounds[i].wakes, rounds[i].incoming);
      HandlerStoresEachRound(spec.1, rounds, i + 1);
      assert HandlerRun(p, rounds, i).0 == [ReportOf(spec.0, rounds[i].ioText)] + HandlerRun(spec.1, rounds, i + 1).0;
    }
  }

  /** One iteration of `errorHandler` on the stored error and the poll
      list: what it stores is the report of `recvError`, unless the exit
      flag is then set. */
  function RoundStep(error: Option<string>, p: seq<PollFd>, r: Round): (s: (Option<string>, seq<PollFd>))
    requires ValidRound(r, |p|)
    ensures |s.1| == |p|
    ensures r.exitingAfter ==> s.0 == error
    ensures !r.exitingAfter ==> s.0.Some?
  {
    var spec := RecvErrorSpec(p, r.wakes, r.incoming);
    var report := ReportOf(spec.0, r.ioText);
    (if r.exitingAfter then error else Some(FormatError(report.rank, report.text)), spec.1)
  }

  /** A report replaces whatever was stored before: the stored error does
      not influence what a round stores, nor whether it stores. */
  lemma RoundIgnoresPreviousError(e1: Option<string>, e2: Option<string>, p: seq<PollFd>, r: Round)
    requires ValidRound(r, |p|) && !r.exitingAfter
    ensures RoundStep(e1, p, r) == RoundStep(e2, p, r)
  {
  }

  /** The stored error and the poll list once the handler has run from
      round `i` until a round ends with the exit flag set. */
  function HandlerFinal(error: Option<string>, p: seq<PollFd>, rounds: seq<Round>, i: nat): (s: (Option<string>, seq<PollFd>))
    requires i <= |rounds| && forall j :: i <= j < |rounds| ==> ValidRound(rounds[j], |p|)
    ensures |s.1| == |p|
    decreases |rounds| - i
  {
    if i == |rounds| then (error, p)
    else
      assert ValidRound(rounds[i], |p|);
      var s := RoundStep(error, p, rounds[i]);
      if rounds[i].exitingAfter then s else HandlerFinal(s.0, s.1, rounds, i + 1)
  }

  /** The error the handler leaves stored is the last report it stored,
      or the earlier error when it stored none. */
  lemma {:induction false} HandlerFinalIsLastStored(error: Option<string>, p: seq<PollFd>, rounds: seq<Round>, i: nat)
    requires i <= |rounds| && forall j :: i <= j < |rounds| ==> ValidRound(rounds[j], |p|)
    ensures HandlerFinal(error, p, rounds, i).0 == LastStored(error, HandlerRun(p, rounds, i).0)
    ensures HandlerFinal(error, p, rounds, i).1 == HandlerRun(p, rounds, i).1
    decreases |rounds| - i
  {
    if i < |rounds| {
      assert ValidRound(rounds[i], |p|);
      var s := RoundStep(error, p, rounds[i]);
      if !rounds[i].exitingAfter {
        HandlerFinalIsLastStored(s.0, s.1, rounds, i + 1);
        var spec := RecvErrorSpec(p, rounds[i].wakes, rounds[i].incoming);
        var head := ReportOf(spec.0, rounds[i].ioText);
        var tail := HandlerRun(spec.1, rounds, i + 1).0;
        assert HandlerRun(p, rounds, i).0 == [head] + tail;
        if tail != [] {
          assert ([head] + tail)[|[head] + tail| - 1] == tail[|tail| - 1];
        }
      }
    }
  }

  datatype SendOutcome = Delivered | RemoteError(message: string) | InvalidRank(message: string)

  class MasterCommandChannel {
    /** `_sockets`: slot `r` holds the connection of worker `r`, -1 if none;
        slot 0 holds the listening socket during `init`. */
    var sockets: array<int>
    /** `_poll_events`: built on the first `recvError`, reused afterwards. */
    var pollEvents: array?<PollFd>
    /** `_error`: the last error message stored by `errorHandler`. */
    var error: Option<string>
    /** `_started`: the error handler has been started. */
    var started: bool
    /** Every send and close performed, in order. */
    var log: seq<IoAction>

    ghost predicate Valid()
      reads this
    {
      pollEvents != null ==> pollEvents.Length == sockets.Length
    }

    /** The poll list the next `recvError` uses: the cached one, or the one
        it will build from the table. */
    ghost function CachedList(): seq<PollFd>
      reads this, sockets, pollEvents
    {
      if pollEvents == null then PollList(sockets[..]) else pollEvents[..]
    }

    /** `world_size` slots, all -1. */
    constructor (worldSize: nat)
      ensures Valid() && fresh(sockets)
      ensures sockets.Length == worldSize && forall r :: 0 <= r < worldSize ==> sockets[r] == -1
      ensures pollEvents == null && error == None && !started && log == []
    {
      sockets := new int[worldSize](_ => -1);
      pollEvents := null;
      error := None;
      started := false;
      log := [];
    }

    /** The registration loop of `init`, on a table whose slot 0 already
        holds the listening socket. */
    method RegisterPeers(peers: seq<Peer>) returns (outcome: InitOutcome)
      requires sockets.Length >= 1
      modifies sockets
      ensures (outcome, sockets[..]) == Register(old(sockets[..]), peers, 1)
    {
      var i := 1;
      while i < sockets.Length
        invariant 1 <= i <= sockets.Length
        invariant Register(sockets[..], peers, i) == Register(old(sockets[..]), peers, 1)
      {
        if i - 1 >= |peers| {
          return AcceptFailed;
        }
        var peer := peers[i - 1];
        var rank := PeerRank(peer);
        if rank.None? {
          return RecvFailed;
        }
        if rank.value >= sockets.Length {
          return RankOutOfRange(rank.value);
        }
        sockets[rank.value] := peer.fd;
        i := i + 1;
      }
      outcome := Ready;
    }

    /** The barrier of `init`: one confirm byte to each slot 1 .. n-1. */
    method SendConfirms()
      requires sockets.Length >= 1
      modifies this`log
      ensures log == old(log) + Confirms(sockets[..])
    {
      var i := 1;
      while i < sockets.Length
        invariant 1 <= i <= sockets.Length
        invariant log == old(log) + Confirms(sockets[..])[..i - 1]
      {
        assert Confirms(sockets[..])[..i] == Confirms(sockets[..])[..i - 1] + [Sent(sockets[i], [CONFIRM_BYTE])];
        log := log + [Sent(sockets[i], [CONFIRM_BYTE])];
        i := i + 1;
      }
      assert Confirms(sockets[..])[..i - 1] == Confirms(sockets[..]);
    }

    /** `init`: the listening socket goes to slot 0, each accepted peer to
        the slot it names; only when all `n-1` have registered are the
        confirm bytes sent (slots 1 .. n-1 ascending), then the slot-0
        socket is closed and slot 0 cleared. */
    method Init(listenFd: int, peers: seq<Peer>) returns (outcome: InitOutcome)
      requires Valid() && sockets.Length >= 1
      modifies this`log, this`started, sockets
      ensures Valid()
      ensures var r := Register(old(sockets[..])[0 := listenFd], peers, 1);
        && outcome == r.0
        && (r.0 == Ready ==>
              && sockets[..] == r.1[0 := -1]
              && log == old(log) + Confirms(r.1) + [Closed(r.1[0])]
              && started)
        && (r.0 != Ready ==>
              && sockets[..] == r.1
              && log == old(log)
              && started == old(started))
    {
      sockets[0] := listenFd;
      assert sockets[..] == old(sockets[..])[0 := listenFd];
      outcome := RegisterPeers(peers);
      if outcome != Ready {
        return;
      }
      SendConfirms();
      log := log + [Closed(sockets[0])];
      sockets[0] := -1;
      started := true;
    }

    /** `sendMessage`: a stored error is thrown first, then the rank is
        checked, and only then is one frame written, to that rank's slot. */
    method SendMessage(payload: seq<byte>, rank: int) returns (r: SendOutcome)
      modifies this`log
      ensures error.Some? ==> r == RemoteError(error.value) && log == old(log)
      ensures error.None? && (rank <= 0 || rank >= sockets.Length) ==>
        r == InvalidRank(INVALID_RANK_TEXT) && log == old(log)
      ensures error.None? && 0 < rank < sockets.Length ==>
        r == Delivered && log == old(log) + [Sent(sockets[rank], EncodeFrame(payload))]
    {
      if error.Some? {
        return RemoteError(error.value);
      }
      if rank <= 0 || rank >= sockets.Length {
        return InvalidRank(INVALID_RANK_TEXT);
      }
      log := log + [Sent(sockets[rank], EncodeFrame(payload))];
      r := Delivered;
    }

    /** The first `recvError` builds the poll list from the table. */
    method BuildPollList()
      requires pollEvents == null
      modifies this`pollEvents
      ensures pollEvents != null && fresh(pollEvents)
      ensures pollEvents[..] == PollList(sockets[..])
    {
      var list := new PollFd[sockets.Length];
      var k := 0;
      while k < list.Length
        invariant 0 <= k <= list.Length
        invariant forall i :: 0 <= i < k ==> list[i] == PollFd(sockets[i], POLLIN, 0)
      {
        list[k] := PollFd(sockets[k], POLLIN, 0);
        k := k + 1;
      }
      pollEvents := list;
    }

    /** Every `revents` is reset to 0 before waiting. */
    method ResetRevents()
      requires pollEvents != null
      modifies pollEvents
      ensures pollEvents[..] == ClearRevents(old(pollEvents[..]))
    {
      var k := 0;
      while k < pollEvents.Length
        invariant 0 <= k <= pollEvents.Length
        invariant forall i :: 0 <= i < k ==> pollEvents[i] == old(pollEvents[i]).(revents := 0)
        invariant forall i :: k <= i < pollEvents.Length ==> pollEvents[i] == old(pollEvents[i])
      {
        pollEvents[k] := pollEvents[k].(revents := 0);
        k := k + 1;
      }
    }

    /** `::poll` storing the events of one call into the cached list. */
    method StorePollEvents(revents: seq<int>)
      requires pollEvents != null && |revents| == pollEvents.Length
      modifies pollEvents
      ensures pollEvents[..] == ApplyPoll(old(pollEvents[..]), revents)
    {
      var k := 0;
      while k < pollEvents.Length
        invariant 0 <= k <= pollEvents.Length
        invariant forall i :: 0 <= i < k ==>
          pollEvents[i] == old(pollEvents[i]).(revents := if old(pollEvents[i]).fd < 0 then 0 else revents[i])
        invariant forall i :: k <= i < pollEvents.Length ==> pollEvents[i] == old(pollEvents[i])
      {
        var e := pollEvents[k];
        pollEvents[k] := e.(revents := if e.fd < 0 then 0 else revents[k]);
        k := k + 1;
      }
    }

    /** The wait loop of `recvError`: poll until the return value is not
        zero, leaving early on a poll failure or when the exit flag is seen
        after a poll. */
    method WaitForEvents(wakes: seq<Wake>) returns (end: WaitEnd)
      requires pollEvents != null && ValidWakes(wakes, pollEvents.Length)
      modifies pollEvents
      ensures (end, pollEvents[..]) == WaitFrom(old(pollEvents[..]), wakes, 0)
    {
      var w := 0;
      var ret := 0;
      while ret == 0
        invariant 0 <= w <= |wakes|
        invariant ret == 0 ==> forall j :: 0 <= j < w ==> !EndsWait(wakes[j])
        invariant ret == 0 ==> w < |wakes| && WaitFrom(pollEvents[..], wakes, w) == WaitFrom(old(pollEvents[..]), wakes, 0)
        invariant ret != 0 ==> WaitFrom(old(pollEvents[..]), wakes, 0) == (Woke, pollEvents[..])
        decreases |wakes| - w
      {
        match wakes[w].result {
          case Failed(what) =>
            return WaitFailed(what);
          case Returned(count, revents) =>
            StorePollEvents(revents);
            ret := count;
        }
        if wakes[w].exiting {
          return WaitExited;
        }
        w := w + 1;
      }
      end := Woke;
    }

    /** The scan of `recvError`: ascending, the first entry with events
        decides; a closed connection is excluded from later polls. */
    method ScanEvents(incoming: seq<seq<byte>>, ioText: CString) returns (rank: nat, text: string)
      requires pollEvents != null && |incoming| == pollEvents.Length
      modifies pollEvents
      ensures ReportOf(Scan(old(pollEvents[..]), incoming).0, ioText) == Report(rank, text)
      ensures pollEvents[..] == Scan(old(pollEvents[..]), incoming).1
    {
      ghost var p := pollEvents[..];
      rank := 0;
      while rank < pollEvents.Length
        invariant 0 <= rank <= pollEvents.Length
        invariant pollEvents[..] == p
        invariant forall i :: 0 <= i < rank ==> p[i].revents == 0
      {
        if pollEvents[rank].revents == 0 {
          rank := rank + 1;
          continue;
        }
        assert FirstReady(p, 0) == rank;
        if pollEvents[rank].revents != POLLIN {
          pollEvents[rank] := pollEvents[rank].(fd := -1);
          text := CLOSED_TEXT;
          return;
        }
        match DecodeFrame(incoming[rank]) {
          case Some(d) =>
            text := TextOf(d.payload);
          case None =>
            text := "recv: " + ioText;
        }
        return;
      }
      assert FirstReady(p, 0) == |p|;
      return 0, NOT_RECEIVED_TEXT;
    }

    /** `recvError`: build the poll list if there is none, reset every
        `revents`, wait, then scan. */
    method RecvError(wakes: seq<Wake>, incoming: seq<seq<byte>>, ioText: CString) returns (rank: nat, text: string)
      requires Valid() && ValidWakes(wakes, sockets.Length) && |incoming| == sockets.Length
      modifies this`pollEvents, pollEvents
      ensures Valid() && pollEvents != null
      ensures old(pollEvents) != null ==> pollEvents == old(pollEvents)
      ensures old(pollEvents) == null ==> fresh(pollEvents)
      ensures ReportOf(RecvErrorSpec(old(CachedList()), wakes, incoming).0, ioText) == Report(rank, text)
      ensures pollEvents[..] == RecvErrorSpec(old(CachedList()), wakes, incoming).1
    {
      if pollEvents == null {
        BuildPollList();
      }
      ResetRevents();
      var end := WaitForEvents(wakes);
      match end {
        case WaitFailed(what) =>
          return 0, "poll: " + what;
        case WaitExited =>
          return 0, "";
        case Woke =>
          rank, text := ScanEvents(incoming, ioText);
      }
    }

    /** One iteration of the `errorHandler` loop: call `recvError`; if the
        exit flag is then set, stop and store nothing, otherwise replace the
        stored error with the formatted report. */
    method HandleRound(round: Round) returns (stop: bool)
      requires Valid() && ValidRound(round, sockets.Length)
      modifies this`pollEvents, this`error, pollEvents
      ensures Valid() && pollEvents != null
      ensures old(pollEvents) != null ==> pollEvents == old(pollEvents)
      ensures old(pollEvents) == null ==> fresh(pollEvents)
      ensures stop == round.exitingAfter
      ensures (error, pollEvents[..]) == RoundStep(old(error), old(CachedList()), round)
    {
      var rank, text := RecvError(round.wakes, round.incoming, round.ioText);
      if round.exitingAfter {
        return true;
      }
      error := Some(FormatError(rank, text));
      stop := false;
    }

    /** The `errorHandler` loop over the given rounds: it runs until a round
        ends with the exit flag set, each other round replacing the stored
        error, so that what is left stored is the last report. */
    method HandleErrors(rounds: seq<Round>)
      requires Valid() && forall j :: 0 <= j < |rounds| ==> ValidRound(rounds[j], sockets.Length)
      modifies this`pollEvents, this`error, pollEvents
      ensures Valid()
      ensures rounds == [] ==> error == old(error) && pollEvents == old(pollEvents)
      ensures rounds != [] ==>
        && pollEvents != null
        && (old(pollEvents) != null ==> pollEvents == old(pollEvents))
        && (error, pollEvents[..]) == HandlerFinal(old(error), old(CachedList()), rounds, 0)
        && error == LastStored(old(error), HandlerRun(old(CachedList()), rounds, 0).0)
    {
      if rounds == [] {
        return;
      }
      ghost var start := CachedList();
      HandlerFinalIsLastStored(error, start, rounds, 0);
      var i := 0;
      while i < |rounds|
        invariant 0 <= i <= |rounds|
        invariant Valid() && |CachedList()| == sockets.Length
        invariant i > 0 ==> pollEvents != null
        invariant old(pollEvents) != null ==> pollEvents == old(pollEvents)
        invariant old(pollEvents) == null ==> pollEvents == null || fresh(pollEvents)
        invariant HandlerFinal(error, CachedList(), rounds, i) == HandlerFinal(old(error), start, rounds, 0)
      {
        var stop := HandleRound(rounds[i]);
        if stop {
          return;
        }
        i := i + 1;
      }
    }

    /** The part of the destructor kept here: every slot that is not -1 is
        closed. */
    method Close()
      modifies this`log
      ensures log == old(log) + CloseAll(sockets[..])
    {
      var k := 0;
      while k < sockets.Length
        invariant 0 <= k <= sockets.Length
        invariant log == old(log) + CloseAll(sockets[..k])
      {
        assert sockets[..k + 1][..k] == sockets[..k];
        if sockets[k] != -1 {
          log := log + [Closed(sockets[k])];
        }
        k := k + 1;
      }
      assert sockets[..k] == sockets[..];
    }
  }
}
