# THD master/worker command channel, modelled in Dafny

This project models the command channel of the THD master/worker runtime
(`torch/lib/THD/master_worker/common/CommandChannel.cpp`). The channel is a
set of TCP connections:
- **master**: sends length-prefixed command frames to the workers and, on a
  background thread, collects error reports the workers send back;
- **worker**: registers with the master by sending its rank, reads command
  frames and writes error frames.

The model replaces sockets, `::poll` and the background thread with explicit
inputs and outputs, so the sequential logic can be stated and proved:
- every send and close a channel performs is appended to a `log` of
  `Sent(fd, bytes)` and `Closed(fd)` entries. A frame is written by two
  `send_bytes` calls, the length and then the payload, and is logged as one
  `Sent` of the whole frame;
- `accept`, `recv`, `connect` and `::poll` are inputs: what peers send, and
  what successive `::poll` calls return, are parameters of the operations;
- failures are error values.

Modules, one per part of the program:

- `Wire` covers bytes and framing:
  - the little-endian fixed-width integer codec;
  - the frame writer and reader used on every connection (an 8-byte length,
    then that many payload bytes);
  - the log entries.
- `Text` covers text as the code sees it:
  - a `std::string` as a string of 8-bit chars, converted one for one to the
    bytes on the wire;
  - `std::to_string` of a rank.
- `Poll` specifies `recvError` as pure functions over the poll list:
  - building the cached list;
  - clearing `revents`;
  - the wait loop around `::poll`, with its failure and exit exits;
  - the ascending scan, with its closed-connection rule and fallbacks.
- `Master` holds the class `MasterCommandChannel`, with the fields
  `sockets`, `pollEvents`, `error`, `started` and `log`. It has:
  - the constructor, `init`'s registration loop, confirm barrier and closing
    of the listening socket;
  - `sendMessage` with its guard order;
  - `recvError`, as imperative methods proved against the `Poll` functions;
  - the `errorHandler` loop, run over a sequence of rounds;
  - the destructor's close rule.
- `Worker` holds the class `WorkerCommandChannel` (`init`, `recvMessage`,
  `sendError`, the destructor's close). It also has the lemmas joining the
  two sides: what one side writes is what the other reads.

Conventions the model fixes:

- Host byte order is little-endian.
- `rank_type` is a 4-byte unsigned integer.
- `POLLIN` is 1.
- `std::uint64_t` is explicit:
  - the length field is the payload size mod 2^64;
  - the writer sends as many payload bytes as the field says.
- `_exiting` is not a field. Each point where the code reads it gets a
  boolean input:
  - one per `::poll` return inside `recvError`;
  - one for the check in `errorHandler`.

  A round of the handler must not see the flag go from set back to unset.
- `::poll` is given as the sequence of its results (return value and
  `revents`, or a failure text). The last result must end the wait, so the
  simulated wait always ends; results after the first one that ends it are
  never read.
- The return value of `::poll` is an independent input, as it is to the
  code. This keeps the "failed to receive error from worker" fallback
  reachable. `Poll.ConsistentPollFindsEvent` shows the fallback cannot occur
  when the count agrees with the reported events.
- An entry with a negative descriptor gets `revents` 0, as `::poll` does
  for such entries.

The model follows the code as written, including where it does less than an
idealised design of the channel would:

- `errorHandler` does not latch the first error and does not stop after it.
  It loops until the exit flag is set, and every report replaces the stored
  error. See `Master.HandleErrors`, `Master.HandlerFinalIsLastStored` and
  `Master.RoundIgnoresPreviousError`.
- Bootstrap does not reject duplicate ranks. A repeated rank overwrites its
  slot (`Master.RegisterLastWins`). A rank outside the table fails only
  through `std::vector::at`, as `RankOutOfRange`. A peer may also name rank
  0, which overwrites the listening socket's slot; that slot is then what
  `init` closes. Either way some slot in 1..n-1 keeps -1, and the confirm
  loop then sends on -1 (see the `Master.MasterCommandChannel.Init` line
  under "Left out").
- The error payload is kept as raw 8-bit chars, not decoded as UTF-8.

## Model

| member | source | states |
|---|---|---|
| Wire.EncodeLE | torch/lib/THD/master_worker/common/CommandChannel.cpp:22 | the unsigned integer a `send_bytes` of a fixed-width value writes: exactly `w` bytes |
| Wire.DecodeLE | torch/lib/THD/master_worker/common/CommandChannel.cpp:32 | the value `recv_bytes` of a fixed-width integer reads: below 256^w for `w` bytes |
| Wire.DecodeEncodeLE | torch/lib/THD/master_worker/common/CommandChannel.cpp:20-22 | reading back a `w`-byte field gives the value mod 256^w, as a cast to the field's width does |
| Wire.EncodeDecodeLE | torch/lib/THD/master_worker/common/CommandChannel.cpp:31-32 | every `w` received bytes are the encoding of the value read from them |
| Wire.FrameLength | torch/lib/THD/master_worker/common/CommandChannel.cpp:20 | the length field is below 2^64, and equals the payload size when that fits |
| Wire.EncodeFrame | torch/lib/THD/master_worker/common/CommandChannel.cpp:18-28 | a frame is 8 length bytes followed by exactly the first `length` payload bytes |
| Wire.DecodeFrame | torch/lib/THD/master_worker/common/CommandChannel.cpp:30-40 | an accepted frame consumes 8 + payload bytes, no more than the peer sent, and the length field read equals the payload size; it fails exactly when the peer sends fewer than 8 bytes, or fewer payload bytes than the field says |
| Wire.FrameRoundTrip | torch/lib/THD/master_worker/common/CommandChannel.cpp:18-40 | reading a written frame, whatever bytes follow, returns the payload as far as the length field covers it and consumes exactly 8 + that many bytes; a payload under 2^64 bytes comes back whole |
| Wire.FrameDecodedIsEncoded | torch/lib/THD/master_worker/common/CommandChannel.cpp:30-40 | whatever the reader accepts is exactly the frame the writer produces for that payload |
| Text.OctetsOf | torch/lib/THD/master_worker/common/CommandChannel.cpp:205-207 | a string is sent as one byte per char, same length |
| Text.TextOf | torch/lib/THD/master_worker/common/CommandChannel.cpp:166-168 | received bytes become a string of the same length whose chars are all 8-bit |
| Text.TextOfOctets | torch/lib/THD/master_worker/common/CommandChannel.cpp:204-208 | turning a string into bytes and back gives the same string |
| Text.OctetsOfText | torch/lib/THD/master_worker/common/CommandChannel.cpp:166-168 | turning bytes into a string and back gives the same bytes |
| Text.NatToString | torch/lib/THD/master_worker/common/CommandChannel.cpp:105 | `std::to_string` of a rank is a nonempty run of decimal digits, starting with 0 only for 0 |
| Text.NatToStringValue | torch/lib/THD/master_worker/common/CommandChannel.cpp:105 | the printed digits denote the rank |
| Text.NatToStringInjective | torch/lib/THD/master_worker/common/CommandChannel.cpp:105 | different ranks print differently |
| Poll.PollList | torch/lib/THD/master_worker/common/CommandChannel.cpp:124-133 | the built list mirrors the socket table: same descriptor per slot, interest `POLLIN`, no events |
| Poll.ClearRevents | torch/lib/THD/master_worker/common/CommandChannel.cpp:135-137 | every entry keeps descriptor and interest, with `revents` 0 |
| Poll.ApplyPoll | torch/lib/THD/master_worker/common/CommandChannel.cpp:142 | `::poll` sets only `revents`, to 0 for a negative descriptor |
| Poll.WaitFrom | torch/lib/THD/master_worker/common/CommandChannel.cpp:139-150 | the wait loop never changes a descriptor or interest; on a genuine wake, an excluded entry has no events |
| Poll.FirstEnd | torch/lib/THD/master_worker/common/CommandChannel.cpp:141-147 | the first wake at or after a given one that leaves the loop; every wake before it neither fails, nor sees the exit flag, nor returns a positive count |
| Poll.ApplyPollAgain | torch/lib/THD/master_worker/common/CommandChannel.cpp:142 | a later `::poll` call overwrites every `revents` the earlier one stored |
| Poll.WaitFromEnds | torch/lib/THD/master_worker/common/CommandChannel.cpp:139-150 | the loop ends at the first wake that leaves it: a failed `::poll` ends as a failure with its text, otherwise the exit flag ends as an exit, otherwise the positive count is a genuine wake; when that `::poll` returned, the list holds exactly its events |
| Poll.FirstReady | torch/lib/THD/master_worker/common/CommandChannel.cpp:152-154 | the ascending scan stops at the first entry with nonzero `revents`; every entry before it has none |
| Poll.Scan | torch/lib/THD/master_worker/common/CommandChannel.cpp:152-175 | the reported rank is the first entry with events; the rank is reported as closed exactly when its `revents` is not exactly `POLLIN`, and then only that entry's descriptor becomes -1; otherwise the read of that worker's bytes decides: a whole frame gives its text, and a failed read gives the read-failure outcome; "failed to receive" exactly when no entry has events; nothing else changes |
| Poll.ErrorBufferSize | torch/lib/THD/master_worker/common/CommandChannel.cpp:166 | the error buffer's size as written, `len + 1` in 64-bit unsigned arithmetic: below 2^64 |
| Poll.ErrorBufferOverrun | torch/lib/THD/master_worker/common/CommandChannel.cpp:163-167 | as written, the buffer has room for the `len` bytes read into it exactly when `len` is not 2^64 - 1, where the size wraps to 0 |
| Poll.MaxLengthErrorFrame | torch/lib/THD/master_worker/common/CommandChannel.cpp:163-167 | a worker sending the length 2^64 - 1 and one byte gets a zero-size buffer in the code, while the model reports its read as failed with the `recv` text |
| Poll.ShortErrorFrameFails | torch/lib/THD/master_worker/common/CommandChannel.cpp:161-171 | when the first ready entry is exactly `POLLIN` and its worker sends fewer payload bytes than the length field says, whatever the length, the result is that rank with "recv: " and the failure text |
| Poll.RecvErrorSpec | torch/lib/THD/master_worker/common/CommandChannel.cpp:123-176 | a `recvError` call keeps every entry's interest and descriptor, except that the descriptor of exactly the rank reported closed becomes -1; the first wake that ends the wait decides the outcome: a poll failure with its text, else an exit, else the scan of the list holding that `::poll`'s events |
| Poll.ReportOf | torch/lib/THD/master_worker/common/CommandChannel.cpp:145-175 | the tuple returned for each outcome: rank 0 for a poll failure, an exit and "failed to receive", and the outcome's own rank otherwise |
| Poll.RecvErrorFallbacks | torch/lib/THD/master_worker/common/CommandChannel.cpp:139-175 | the fallback tuples: a failed `::poll` gives (0, "poll: " + its text), the exit flag gives (0, ""), and a genuine wake with no events on a watched entry gives (0, "failed to receive error from worker") |
| Poll.ExcludedNeverReported | torch/lib/THD/master_worker/common/CommandChannel.cpp:156-158 | a connection whose descriptor was set to -1 is never reported again |
| Poll.ReadyCount | torch/lib/THD/master_worker/common/CommandChannel.cpp:142 | the count `::poll` returns for the given events: at most one per entry |
| Poll.ReadyCountPositive | torch/lib/THD/master_worker/common/CommandChannel.cpp:142 | a positive `::poll` count means some watched entry has events |
| Poll.ReadyCountSameFds | torch/lib/THD/master_worker/common/CommandChannel.cpp:142 | the count does not depend on previous `revents` |
| Poll.ConsistentWaitHasEvent | torch/lib/THD/master_worker/common/CommandChannel.cpp:139-147 | when every count agrees with the events, a genuine wake leaves some entry with events |
| Poll.ConsistentPollFindsEvent | torch/lib/THD/master_worker/common/CommandChannel.cpp:174-175 | when every count agrees with the events, `recvError` never falls back to "failed to receive error from worker" |
| Master.PeerRank | torch/lib/THD/master_worker/common/CommandChannel.cpp:76 | the rank read succeeds exactly when the peer sent at least 4 bytes, and is the value whose encoding those bytes are |
| Master.Register | torch/lib/THD/master_worker/common/CommandChannel.cpp:74-78 | the table keeps its size; registration completes exactly when the peers yield n-1 readable ranks, all inside the table |
| Master.RegisterLastWins | torch/lib/THD/master_worker/common/CommandChannel.cpp:77 | a peer's connection ends up in the slot it named unless a later peer names the same rank: no duplicate check, the last writer wins |
| Master.RegisterUntouched | torch/lib/THD/master_worker/common/CommandChannel.cpp:74-78 | a slot no remaining peer names keeps its value |
| Master.DistinctRanksKeepSlots | torch/lib/THD/master_worker/common/CommandChannel.cpp:74-78 | with distinct ranks, every peer's connection is in the slot it named |
| Master.DistinctRanksFillTable | torch/lib/THD/master_worker/common/CommandChannel.cpp:74-78 | distinct ranks covering 1..n-1 leave each slot 1..n-1 holding the connection of the peer that named it |
| Master.Confirms | torch/lib/THD/master_worker/common/CommandChannel.cpp:83-86 | n-1 sends of the byte 1, the k-th to slot k+1 |
| Master.ConfirmsReachPeers | torch/lib/THD/master_worker/common/CommandChannel.cpp:83-86 | with distinct ranks, the confirm byte at position rank-1 goes to the connection of the peer that named that rank |
| Master.CloseAll | torch/lib/THD/master_worker/common/CommandChannel.cpp:63-66 | teardown performs no more closes than there are slots; one close per open slot, in slot order, is `Master.CloseAllInSlotOrder` |
| Master.OpenCount | torch/lib/THD/master_worker/common/CommandChannel.cpp:64 | the number of slots the destructor's guard lets through, at most the table size |
| Master.CloseAllInSlotOrder | torch/lib/THD/master_worker/common/CommandChannel.cpp:63-66 | teardown closes one descriptor per open slot, and the close of slot `k` comes right after those of the open slots before `k`: slot order |
| Master.CloseAllClosesOpen | torch/lib/THD/master_worker/common/CommandChannel.cpp:63-66 | teardown closes every slot that is not -1, and closes nothing else |
| Master.FormatError | torch/lib/THD/master_worker/common/CommandChannel.cpp:104-106 | the stored message is "error (rank ", then the printed rank, then "): ", then the report's text, each at its position |
| Master.FormatErrorInjective | torch/lib/THD/master_worker/common/CommandChannel.cpp:104-106 | the stored message "error (rank R): text" determines both R and the text |
| Master.LastStored | torch/lib/THD/master_worker/common/CommandChannel.cpp:104-106 | after one or more reports an error is stored |
| Master.HandlerRun | torch/lib/THD/master_worker/common/CommandChannel.cpp:97-108 | the reports the handler stores, in order, until a round ends with the exit flag set; the poll list it leaves has one entry per slot |
| Master.HandlerExitStoresNothing | torch/lib/THD/master_worker/common/CommandChannel.cpp:99-102 | a round that ends with the exit flag set stores nothing and ends the handler |
| Master.HandlerStoresEachRound | torch/lib/THD/master_worker/common/CommandChannel.cpp:98-107 | while the exit flag stays unset, every round stores exactly one report |
| Master.RoundStep | torch/lib/THD/master_worker/common/CommandChannel.cpp:99-106 | with the exit flag set the stored error is untouched; otherwise an error is stored |
| Master.RoundIgnoresPreviousError | torch/lib/THD/master_worker/common/CommandChannel.cpp:104-106 | what a round stores does not depend on what was stored before: the code overwrites, it does not keep the first error |
| Master.HandlerFinal | torch/lib/THD/master_worker/common/CommandChannel.cpp:97-108 | the stored error and poll list once the handler stops; the list keeps one entry per slot |
| Master.HandlerFinalIsLastStored | torch/lib/THD/master_worker/common/CommandChannel.cpp:97-108 | the error left stored is the last report stored (or the earlier one if none), and the poll list is the one the rounds leave |
| Master.MasterCommandChannel.constructor | torch/lib/THD/master_worker/common/CommandChannel.cpp:44-55 | `world_size` slots all -1, no poll list, no error, not started |
| Master.MasterCommandChannel.RegisterPeers | torch/lib/THD/master_worker/common/CommandChannel.cpp:74-78 | the loop's outcome and the table it leaves are those of `Register` |
| Master.MasterCommandChannel.SendConfirms | torch/lib/THD/master_worker/common/CommandChannel.cpp:83-86 | exactly the confirm sends, to slots 1..n-1 ascending, are appended |
| Master.MasterCommandChannel.Init | torch/lib/THD/master_worker/common/CommandChannel.cpp:69-95 | on success the confirms follow all registrations, then slot 0's socket is closed, slot 0 becomes -1 and `started` is set; on failure nothing is sent and `started` is unchanged |
| Master.MasterCommandChannel.SendMessage | torch/lib/THD/master_worker/common/CommandChannel.cpp:110-121 | a stored error is thrown first and nothing is written; otherwise a rank outside 1..n-1 is rejected and nothing is written; otherwise exactly one frame is written, to that rank's socket |
| Master.MasterCommandChannel.BuildPollList | torch/lib/THD/master_worker/common/CommandChannel.cpp:124-133 | a fresh list equal to `PollList` of the table |
| Master.MasterCommandChannel.ResetRevents | torch/lib/THD/master_worker/common/CommandChannel.cpp:135-137 | the list becomes `ClearRevents` of the old list |
| Master.MasterCommandChannel.StorePollEvents | torch/lib/THD/master_worker/common/CommandChannel.cpp:142 | the list becomes `ApplyPoll` of the old list |
| Master.MasterCommandChannel.WaitForEvents | torch/lib/THD/master_worker/common/CommandChannel.cpp:139-150 | the loop ends as `WaitFrom` does, with the same list |
| Master.MasterCommandChannel.ScanEvents | torch/lib/THD/master_worker/common/CommandChannel.cpp:152-175 | the returned tuple and the list are those of `Scan` |
| Master.MasterCommandChannel.RecvError | torch/lib/THD/master_worker/common/CommandChannel.cpp:123-176 | the list is built only when there is none and reused otherwise; the returned tuple and the new list are those of `RecvErrorSpec` on the cached list |
| Master.MasterCommandChannel.HandleRound | torch/lib/THD/master_worker/common/CommandChannel.cpp:99-106 | `recvError` runs, then the stored error and the list become those of `RoundStep`; it stops exactly when the exit flag is set |
| Master.MasterCommandChannel.HandleErrors | torch/lib/THD/master_worker/common/CommandChannel.cpp:97-108 | the stored error and poll list end as `HandlerFinal` says, i.e. the last report stored replaces every earlier one |
| Master.MasterCommandChannel.Close | torch/lib/THD/master_worker/common/CommandChannel.cpp:63-66 | exactly `CloseAll` of the table is appended to the log |
| Worker.WorkerCommandChannel.constructor | torch/lib/THD/master_worker/common/CommandChannel.cpp:179-184 | no connection (-1), nothing received or sent |
| Worker.WorkerCommandChannel.Init | torch/lib/THD/master_worker/common/CommandChannel.cpp:191-198 | the rank is sent as 4 bytes on the new connection, then one confirm byte is consumed; it fails exactly when the master sent nothing |
| Worker.WorkerCommandChannel.RecvMessage | torch/lib/THD/master_worker/common/CommandChannel.cpp:200-202 | a message is returned exactly when the master sent a whole frame, and the bytes consumed are exactly that frame; otherwise nothing is consumed |
| Worker.WorkerCommandChannel.SendError | torch/lib/THD/master_worker/common/CommandChannel.cpp:204-208 | exactly one frame carrying the text's bytes is written to the connection |
| Worker.WorkerCommandChannel.Close | torch/lib/THD/master_worker/common/CommandChannel.cpp:186-189 | the connection is closed if it is not -1 |
| Worker.HelloRegistersRank | torch/lib/THD/master_worker/common/CommandChannel.cpp:193 | the master reads back the rank a worker sends, mod 2^32 |
| Worker.ErrorFrameRoundTrip | torch/lib/THD/master_worker/common/CommandChannel.cpp:204-208 | the master's error read of a `sendError` frame recovers exactly the text |
| Worker.WorkerErrorReported | torch/lib/THD/master_worker/common/CommandChannel.cpp:161-168 | when the first entry with events is exactly `POLLIN` and carries a `sendError` frame, `recvError` reports that rank with that text and changes no descriptor |

## Left out

- The socket calls `listen`, `accept`, `connect`, `send_bytes`, `recv_bytes`,
  `::poll` and `::close` are not modelled; they live in `ChannelUtils`.
  - Their effects are log entries.
  - Their results are inputs: accepted peers with the bytes each sends,
    successive `::poll` results, the bytes the peer sends on each connection,
    and
    the text of a failed read's exception.
- A failing `send_bytes` is not modelled; every send is taken to succeed.
- Poll.Scan: a length field of 2^64 - 1 makes `error_length + 1` wrap to 0
  at line 166, so the code reads into a zero-size buffer. The model does not
  capture that undefined behaviour: the read follows `Wire.DecodeFrame`
  like any other length, and fails when fewer bytes come. See "Findings".
- Master.MasterCommandChannel.Init: when two peers send the same rank, or a
  peer sends rank 0, some slot in 1..n-1 is still -1 after registration.
  The code's confirm loop then calls `send_bytes` on -1, which fails and
  throws, so the real `init` aborts part way through the confirms, without
  closing the listening socket or setting `_started`. The model, where every
  send succeeds, logs `Sent(-1, [1])`, closes slot 0 and returns `Ready`
  with `started` set; a later `SendMessage` to such a rank likewise logs a
  send on -1 and returns `Delivered`. `Master.DistinctRanksFillTable` gives
  the condition under which no slot keeps -1.
- `accept` on slot 0 returns the next given peer even after a peer has named
  rank 0 and overwritten the listening socket's slot. The real `accept` would
  then be called on a connected socket.
- Consumption across reads on one connection is not tracked on the master.
  Each `recvError` round takes the bytes each worker sends as its own input,
  unrelated to what earlier rounds read (or the 4-byte rank read of `init`),
  whether those reads succeeded or failed. Every real run is one of the
  modelled runs. On the worker, a failed read consumes nothing in the model,
  where a real short read may consume some bytes before failing.
- The background thread, `std::thread` creation and the destructor's
  `join`, and the atomic handoff of `_exiting` are left out: they are
  concurrency.
- The 500 ms poll timeout is time. A timeout is a `::poll` result with count
  0.
- The environment loading is not modelled: `load_master_env`,
  `load_rank_env` and `load_worker_env`. The world size and the rank are
  constructor parameters; the port, master address and listening socket are
  not modelled (the listening socket is an input of `Init`).
- The internals of `rpc::RPCMessage` are not modelled; a message is its
  payload bytes.
- Master.MasterCommandChannel.HandleErrors: runs over a finite sequence of
  rounds. The loop in the code only ends when the exit flag is set, so a run
  that never sets it is modelled by its finite prefixes.
- Poll.ValidWakes: requires the last `::poll` result to end the wait, so the
  model covers a wait of finitely many polls, not one that never ends.
- Little-endian byte order, a 4-byte `rank_type` and `POLLIN` = 1 stand for
  the host's values. `CommandChannel.hpp` and `ChannelUtils.hpp` are not part
  of this model.
- `init` in the code always returns true and throws on failure; the model
  returns the failure as an `InitOutcome`. The same holds for the worker's
  `Init`, whose `bool` result is false for the exception.
- `sendMessage`'s thrown exceptions are the outcomes `RemoteError` and
  `InvalidRank` of `Master.SendOutcome`.

## Findings

| source | as written | input that shows it | evidently intended | confidence | as-written member | corrected member |
|---|---|---|---|---|---|---|
| torch/lib/THD/master_worker/common/CommandChannel.cpp:166 | the error buffer is `new char[error_length + 1]` in 64-bit unsigned arithmetic | a worker sends the length field 2^64 - 1, then one byte: the size wraps to 0 and `recv_bytes` writes that byte into a zero-size buffer | a buffer with room for the whole length, so that a worker sending too few bytes gives the `recv` failure report | not executed | Poll.MaxLengthErrorFrame | Poll.ShortErrorFrameFails |

The rest of the model uses the corrected read. `Poll.Scan` reads the
payload through `Wire.DecodeFrame`, which never writes past what the length
field covers, and `Poll.ShortErrorFrameFails` proves the intended report for
every length.
