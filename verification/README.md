# MQTT tunnel: a Dafny model

The program tunnels TCP connections, shells and commands through an MQTT broker. Each direction of a
session is a small sliding-window transport protocol: a writer cuts a byte stream into numbered frames
under a credit window, the broker may duplicate and reorder them (QoS 1), a reorder buffer puts them
back in order into a bounded channel, and the consumer acknowledges running totals, which frees credit.

The model has two layers. Classes mirror the objects that change state (`ReorderBuffer`, `FlowControl`,
`SequenceWriter`, `SessionAckState`, `SessionManager`, `Session`, `Device`, `Client`, `Reporter`), each
proved against specification functions. State machines interleave the atomic actions of goroutines and
network, use the same specification functions, and carry the theorems about whole runs.

| file | what it holds |
|---|---|
| `Bytes.dfy`, `Frames.dfy` | byte streams, fixed-width counters, the data frame |
| `Reorder.dfy`, `Ordering.dfy`, `Epochs.dfy` | one `Insert` step by step; whole arrival orders; the 32-bit numbers and their wraps |
| `Credit.dfy` | the credit window; several writers racing for it |
| `Writer.dfy`, `Acks.dfy` | cutting and publishing; when acks are sent |
| `Stream.dfy`, `Delivery.dfy` | the composition: safety, conservation, deadlock freedom, delivery |
| `LargePayloads.dfy`, `ExecDelivery.dfy` | delivery without an assumption on order; sessions that get no credit back |
| `Ending.dfy` | the end of a session: the close message behind the last frame, and what it cuts off |
| `Sessions.dfy`, `Device.dfy`, `Client.dfy`, `Closing.dfy` | session table, handlers, reject throttle, close exchange |
| `Topics.dfy`, `Forward.dfy`, `Shadow.dfy` | topics and filters, forward specifications, shadow drift |

## What the proofs say

- While the buffer is open, whatever the network duplicates, reorders or loses, the consumer has a prefix
  of the bytes given to `Write` (`Stream.OutputIsPrefix`); after `Close` order and at-most-once survive
  (`Stream.OrderSurvivesClose`), and contiguity lasts until a frame is inserted after it
  (`Stream.PrefixUntilInsertAfterClose`), no longer (`Reorder.CloseCanSkipPayload`).
- If no frame is lost or arrives 64 or more places early, then until an end closes no schedule deadlocks, every
  run is finite, and every run that cannot go on has delivered everything (`Delivery.SessionDelivers`).
- If all payloads but the last have at least 4096 bytes, the credit window alone keeps every frame in flight
  inside the 64 slots, and until an end closes everything is delivered in whatever order the network likes
  (`LargePayloads.LargePayloadsDeliver`).
- When the writer's application ends, a close message follows the last frame, and where it is heard the consumer
  stops. On a network that loses nothing every such run is finite and ends with the consumer stopped; everything
  given was delivered if and only if the consumer had taken every frame by then (`Ending.SessionEnds`, and
  `Ending.StoppedDeliversExactly` for any network).
- A goroutine inside `Insert` can go on after a receive or a close and works a finite time
  (`Reorder.BlockedInsertIsFreed`, `Reorder.DrainTerminates`); after a recorded reject the throttle's map is small
  or holds nothing old (`Throttle.MapBounded`); the race for the window computes what `FlowControl` does
  (`WindowRace.StepsAreFlowControl`).
- `ErrBufferFull` never occurs if and only if no frame arrives 64 or more places early (`Ordering.NeverFullExactly`);
  a frame all of whose copies came too early is never taken, and the output stays before it
  (`Ordering.AcceptedExactly`).
- Past 2^32 frames, with copies less than about a round of the numbers late, such orders drop no frame if and only
  if each comes after all frames of the earlier rounds (`Epochs.NoneDroppedExactly`); then they deliver everything
  (`Epochs.AllFramesInOrderForever`).

Facts that limit what the code achieves, each with an exact condition or a concrete run:

- The end of a session can cut off what was written: on a network that loses and displaces nothing, the last
  chunk, also if it is the only one, can wait in the channel when the consumer stops (`Ending.EndCanLose`), and
  the writer cannot tell this from a complete delivery (`Ending.WriterCannotTell`). For a TCP session the consumer
  stops at once (session_tcp.go:130-147), for exec and shell after draining for 500 or 100 milliseconds
  (client.go:410-415, client_shell.go:149-164).
- The device drops acks for exec sessions, so that, until an end closes, an exec session delivers its output if and
  only if that is at most 256 KiB; up to there every schedule does (`ExecDelivery.ExecDeliversExactly`).
- No wakeup is ever lost if and only if one goroutine calls `Write` (`WindowRace.WakeupsAreSafeExactly`), and
  with k of them the window is overrun by up to (k-1) * 64 KiB, exactly. Each session of the program writes
  from one goroutine only (session_tcp.go:84, session_shell.go:117, session_exec.go:125, client_shell.go:120).
- `seq < nextSeq` is a plain unsigned test: a frame that arrives early across a multiple of 2^32 is dropped
  as a duplicate; no other early frame inside the window is (`Ordering.EarlyFrameHeldExactly`).
- A session added between the two locked parts of `CloseAll` is dropped without being closed
  (`SessionRace.ResetLeaksExactly`). A session that is created but refused by the table, or whose `Start` fails
  (only a shell's can), is dropped without `Close` (`Device.Device.HandleOpen`).
- A closed session can stay in the table: the hook runs last, and the client's exec and shell sessions have
  none (`SessionRace.ClosedCanBeInTable`).
- A lost close message leaves the other end open (`Closing.LostCloseLeavesHalfOpen`); the keepalive and the
  stale cleanup exist for that case.
- A forward with a bracket inside a colon-free host is accepted but does not survive printing
  (`Forward.ReparsesExactly`). The duplicate check compares text, so that it misses one address in two spellings, of
  the port (`8080`, `+8080`, `08080`: `Forward.OtherSpellingPasses`) or of the bind address (`[::1]`, `[0::1]`:
  `Forward.RespelledBindPasses`), and refuses two entries with port 0, each of which asks for a port of its own
  (`Forward.EphemeralPortsAreRefused`). `Forward.DuplicateCheckExactly` says for every list when it is right, for
  any notion of which bind texts name one host; with canonical ports other than 0 and one spelling per host it is
  (`Forward.CanonicalPortsExact`).
- A device without a version or public IPs whose shadow still has them publishes on every check
  (`Shadow.UpdatesOverTime`).

Where code and documentation disagree the model follows the code: docs/protocol.md:158 promises to tear a
session down when a gap persists, but `ErrBufferFull` is only logged; docs/protocol.md:176 gives five minutes
as the stale timeout, the code 60 seconds; docs/protocol.md:166 lets the sender pause once the window is
exceeded, the code tests before each chunk so that one writer never exceeds it; the comment on `Parse`
requires a colon before the target host, but in front of a bracketed host it is optional
(`Forward.ColonBeforeBracketOptional`).

## Model

| member | source | states |
|---|---|---|
| Stream.OutputIsPrefix | internal/tunnel/session.go:175-212 | In every run of writer, network, buffer and consumer with fewer than 2^32 frames and the buffer open, the bytes consumed are a prefix of the bytes given to `Write`. |
| Stream.OrderSurvivesClose | internal/tunnel/session.go:195-222 | Also after `Close`, delivered payloads are written ones in strictly increasing frame order, none twice. |
| Stream.PrefixUntilInsertAfterClose | internal/tunnel/session.go:195-222 | The output stays a prefix of the bytes written also after `Close`, as long as no frame is inserted after it. |
| Stream.Conservation | internal/tunnel/session.go:239-274 | At every step acked <= last ack <= bytes consumed <= sent; every ack in flight is honest, so the clamp changes none; at most 256 KiB are unacked; the consumer's counters are the tally of what it took. |
| Stream.StepKeepsInv | internal/tunnel/session.go:313-343 | Every step of the sender, the network and the receiver keeps the invariant behind these facts. |
| Stream.AckChain | internal/tunnel/session.go:258-274 | The order acked <= last ack <= consumed <= sent follows from the invariant, as do honest acks. |
| Stream.TxKeepsCredit | internal/tunnel/session.go:320-329 | The bytes that passed the window test but are not counted yet still fit the window, through every sender step. |
| Stream.ConsumeKeepsTally | internal/tunnel/session_tcp.go:121-125 | Each consumed payload keeps the wrapping counters equal to the exact totals, and sends an ack exactly when the last-ack mark moves. |
| Stream.RunFollowsPlan | internal/tunnel/session.go:313-343 | Over every run the frames numbered so far and the chunks still to come are exactly the chunks of the data written, so the steps cut as `Write` does. |
| Delivery.SessionDelivers | internal/tunnel/session.go:175-288 | Until an end closes, without loss and with displacement below the buffer size: delivery of everything is possible, every run is finite, and every stuck run has delivered everything. |
| Delivery.EveryRunDelivers | internal/tunnel/session_tcp.go:100-128 | However it is scheduled, a run in which no end closes has at most `Work(s)` steps, and where it cannot go on all that was written is delivered. |
| Delivery.DeliveryPossible | internal/tunnel/session.go:313-343 | From every such state some run completes. |
| Delivery.NoDeadlock | internal/tunnel/session.go:239-288 | With nothing in flight and everything consumed fewer than 64 KiB are unacked, any chunk fits, and a parked writer has a token. |
| Delivery.Progress | internal/tunnel/session.go:195-212 | In every incomplete state some step of the program or of the faultless network can be taken. |
| Delivery.WorkFalls | internal/tunnel/session.go:195-343 | Every such step lowers one measure over unsent bytes, frames, acks and buffered payloads. |
| Delivery.StepKeepsLive | internal/tunnel/session.go:175-343 | Every faultless step keeps: no frame lost, no wakeup lost, the last ack arrived or in flight, nothing ready left behind. |
| Delivery.OrderlyIsAccepted | internal/tunnel/session.go:179-193 | A frame that arrives after all frames 64 or more places before it is never refused. |
| LargePayloads.LargePayloadsNeverRefused | internal/tunnel/session.go:183-185 | If every payload but the last has at least window / size bytes, no frame in flight is ever too far ahead, in any order of arrival. |
| LargePayloads.LargePayloadsDeliver | internal/tunnel/session.go:175-288 | Then, until an end closes, on every lossless network delivery is possible, every run is finite, and every stuck run has delivered everything. |
| LargePayloads.UnackedBetween | internal/tunnel/session.go:239-249 | The frames between the expected one and any published one hold less than one window of bytes. |
| ExecDelivery.ExecDeliversExactly | internal/device/device.go:319-324 | Until an end closes, an exec session on a faultless network can deliver its output if and only if that is at most 256 KiB; and then every run is finite and every stuck run has delivered all of it. |
| ExecDelivery.EveryExecRunDelivers | internal/tunnel/session_exec.go:14-239 | Until an end closes and up to one window, a run without returned credit has at most `Work(s)` steps and ends with everything delivered. |
| ExecDelivery.ExecOutputIsCapped | internal/device/device.go:319-324 | Whatever the network does, since acks never reach an exec session's window, its whole output is at most 256 KiB. |
| Ending.SessionEnds | internal/tunnel/session_tcp.go:76-147 | On a network that loses and displaces nothing every run from start to end is finite; where it cannot go on the consumer has stopped, and everything given was delivered if and only if it had taken every published frame by then; and some schedule delivers. |
| Ending.StoppedDeliversExactly | internal/tunnel/session_tcp.go:111-147 | On any network, with failed writes too: once the consumer has stopped, everything given was delivered if and only if it had taken every frame and the writer had nothing left. |
| Ending.EveryCleanRunEnds | internal/client/client.go:410-415 | From every state before or during the end, a run has at most `EndWork(e)` steps, and where it cannot go on the consumer has stopped. |
| Ending.EndCanLose | internal/tunnel/session_tcp.go:108-114 | For every chunk some run without any fault of the network ends with that chunk written and nothing delivered. |
| Ending.WriterCannotTell | internal/tunnel/session_tcp.go:121-125 | For every chunk under 64 KiB two such runs end with the same sender, acks and network, one delivered and one not. |
| Stream.DeliveredExactly | internal/tunnel/session.go:175-222 | In every state, closed or not, the consumer has all that was given if and only if it has taken every frame and nothing is left to write. |
| Ordering.FeedKeepsInv | internal/tunnel/session.go:175-212 | Whatever arrives in whatever order, the output is a prefix of the frames and the buffer holds only copies of later ones. |
| Ordering.NeverFullExactly | internal/tunnel/session.go:183-185 | `ErrBufferFull` never occurs if and only if each frame arrives after all frames `size` or more places before it. |
| Ordering.AllFramesInOrder | internal/tunnel/session.go:175-212 | Such an order, with any duplicates, delivers exactly all frames in order. |
| Ordering.AcceptedExactly | internal/tunnel/session.go:179-193 | A frame is buffered or delivered if and only if some copy came inside the window; otherwise the output never passes it. |
| Ordering.InOrderForever | internal/tunnel/session.go:179-202 | In-order arrival with repetitions of recent frames is delivered exactly past every wrap of the 32-bit numbers. |
| Ordering.LateCopyNotHeld | internal/tunnel/session.go:179-185 | A copy up to 2^32 minus `size` places old is never taken for a new frame. |
| Ordering.EarlyFrameHeldExactly | internal/tunnel/session.go:179-185 | An early frame inside the window is held if and only if no multiple of 2^32 lies between it and the expected one; otherwise it is dropped as a duplicate. |
| Epochs.AllFramesInOrderForever | internal/tunnel/session.go:175-212 | For any number of frames displaced by less than `size`, each after all frames of earlier epochs of 2^32, none almost an epoch late: the output is a prefix, and once all have arrived it is all of them in order. |
| Epochs.NoneDroppedExactly | internal/tunnel/session.go:179-189 | For such displacement and lateness, every frame is buffered or delivered as it arrives if and only if each arrives after all frames of earlier epochs. |
| Epochs.TakenIsArrived | internal/tunnel/session.go:179-202 | Over such an arrival list what is buffered or delivered is exactly what has arrived, at every moment and past every wrap. |
| Epochs.DrainAcross | internal/tunnel/session.go:195-209 | One drain delivers consecutive frames also where the numbers start again at zero. |
| Ordering.DrainDelivers | internal/tunnel/session.go:195-209 | The payloads that leave in one drain are consecutive frames from the expected one on. |
| Ordering.DrainKeeps | internal/tunnel/session.go:195-209 | What stays in the buffer is exactly what lies behind them, and the expected frame is not among it. |
| Reorder.ReorderBuffer.Insert | internal/tunnel/session.go:175-212 | The error is reported exactly for frames `size` or more ahead, and with an old, refused or already buffered frame nothing changes; otherwise the ready payloads leave in order, all of them unless another goroutine closes the buffer; nothing else closes it. |
| Reorder.ReorderBuffer.Drain | internal/tunnel/session.go:195-209 | The loop takes out and delivers exactly the ready payloads in order; only from the offer on at which another goroutine closes the buffer may one be dropped, and then the loop ends; the buffer is closed afterwards exactly if it was before or another goroutine closed it. |
| Reorder.FirstCopyWins | internal/tunnel/session.go:187-193 | Once a frame is buffered, another copy of it, also with other content, changes nothing. |
| Reorder.ReorderBuffer.Receive | internal/tunnel/session.go:214-216 | A receive takes the oldest payload and changes nothing that was delivered. |
| Reorder.RunStaysBounded | internal/tunnel/session.go:183-202 | In every interleaving, past every wrap, buffered numbers stay in the window, at most `size` of them, and the channel within its capacity. |
| Reorder.PopKeepsWindow | internal/tunnel/session.go:201-202 | Taking the expected frame out keeps the window, also where the counter wraps. |
| Reorder.PopOneMore | internal/tunnel/session.go:195-202 | After k payloads have left, the loop goes on exactly if more are ready, with the next one. |
| Reorder.InterleavingIrrelevant | internal/tunnel/session.go:195-212 | Whatever the consumer does meanwhile, an `Insert` delivers the same payloads in the same order and leaves the same buffer as an uninterrupted one. |
| Reorder.RunKeepsComing | internal/tunnel/session.go:195-209 | What was received plus what is on its way is the same at every moment of a run. |
| Reorder.CloseCanSkipPayload | internal/tunnel/session.go:201-208 | A run in which, after `Close`, a popped payload is dropped and the one behind it is still delivered. |
| Credit.FlowControl.CanSend | internal/tunnel/session.go:239-249 | Admits exactly when outstanding plus n is within the window, without wrap when the counters are in order. |
| Credit.FlowControl.UpdateAck | internal/tunnel/session.go:258-274 | Never lowers the acked count, never lifts it above the sent count, and always leaves a token. |
| Credit.FlowControl.WaitForWindow | internal/tunnel/session.go:276-288 | Returns success exactly when the window admits the bytes, after the fewest acks for which it does, and fails only when no ack is left. |
| Credit.AckedMonotone | internal/tunnel/session.go:262-268 | The acked count after any prefix of events is at most the one after all of them, whatever the acks claim. |
| Credit.HonestAcksGiveMaximum | internal/tunnel/session.go:262-268 | Honest acks leave exactly their maximum. |
| Credit.AckOrderIrrelevant | internal/tunnel/session.go:258-274 | Two runs with the same set of honest acks, in any order and with any repeats, end with the same acked count. |
| Credit.EarlyAckIsLost | internal/tunnel/session.go:262-264 | Without honesty order matters: an ack that comes before the bytes it names is clamped away. |
| WindowRace.OutstandingBound | internal/tunnel/session.go:320-329 | With k concurrent writers at most 256 KiB + (k-1) * 64 KiB are ever unacked. |
| WindowRace.OutstandingBoundReached | internal/tunnel/session.go:320-329 | For every k some run reaches that bound. |
| WindowRace.OneWaiterIsAlwaysWoken | internal/tunnel/session.go:270-287 | A lone parked writer that fits the window always has a token in `blockedNotify`. |
| WindowRace.TwoWaitersCanLoseWakeup | internal/tunnel/session.go:270-287 | For every k of two and more, a run in which one stays parked although it fits and no token is left. |
| WindowRace.WakeupsAreSafeExactly | internal/tunnel/session.go:270-287 | Every reachable state keeps a token for each parked writer that fits if and only if there is one writer. |
| Writer.SequenceWriter.Write | internal/tunnel/session.go:313-343 | What was published are the frames of the first `count` chunks of the data, consecutively numbered; counters match, or are exactly one chunk ahead after a failed publish; cancelled only when all acks are used up and the next chunk does not fit, so never if all the data fits at the start; the window is kept. |
| Writer.SequenceWriter.WriteChunk | internal/tunnel/session.go:320-337 | One turn: cancelled if and only if none of the arriving acks makes room, using no more of them than needed; a failed publish happens exactly when the transport fails, and has used the number and the bytes. |
| Writer.ChunksPartition | internal/tunnel/session.go:314-318 | The chunks concatenate to the data; none is empty or over 64 KiB, and only the last may be short. |
| Writer.ChunkCount | internal/tunnel/session.go:314-318 | The number of chunks is the length over 64 KiB, rounded up. |
| Writer.FramedDecodes | internal/tunnel/session.go:324-327 | Decoding the published frames gives back each payload and its consecutive number. |
| Frames.EncodeDataFrame | internal/tunnel/protocol.go:155-161 | The buffer filled in place decodes to the number and the payload. |
| Frames.DecodeEncode | internal/tunnel/protocol.go:155-171 | Decoding an encoded frame gives back number and payload. |
| Frames.DecodeExact | internal/tunnel/protocol.go:163-171 | A byte string decodes to a number and payload if and only if it is their encoding. |
| Frames.WireFormat | internal/tunnel/protocol.go:163-171 | Frames under four bytes are refused; otherwise the number is read most significant byte first and the rest is the payload. |
| Acks.WriteToConn | internal/tunnel/session_tcp.go:100-128 | The consumer loop writes up to the first failing write and sends exactly the ack trace of what it wrote. |
| Acks.WriteSessionData | internal/client/client.go:919-938 | The client's loop, which skips empty payloads, sends the same trace; it stops at the first failing write or the first ack that cannot be sent. |
| Acks.SessionAckState.Record | internal/client/client.go:50-59 | The wrapping counters decide and report as exact ones would. |
| Acks.RemainderBelowInterval | internal/tunnel/session_tcp.go:121-125 | After every payload fewer than 64 KiB are unacknowledged, and the last ack is the last-ack mark. |
| Acks.AcksAreTotals | internal/tunnel/session_shell.go:151-155 | Each ack is the exact number of bytes after some payload. |
| Acks.AckCadence | internal/tunnel/session_tcp.go:103-125 | Acks rise by at least 64 KiB from one to the next. |
| Acks.AckCount | internal/tunnel/session_tcp.go:103-125 | There are at most total / 64 KiB acks. |
| Acks.OnWireIsTrue | internal/tunnel/session_tcp.go:159-163 | Below 2^64 bytes the acks on the wire are the exact totals. |
| Acks.WrappedTally | internal/tunnel/session_tcp.go:121-123 | The uint64 difference decides as the true one, also past 2^64 bytes. |
| Sessions.SessionManager.Add | internal/tunnel/session.go:42-54 | Refuses exactly a known id and then changes nothing; otherwise both maps gain it. |
| Sessions.SessionManager.Remove | internal/tunnel/session.go:68-74 | Both maps lose the id and nothing else. |
| Sessions.SessionManager.Touch | internal/tunnel/session.go:76-83 | Renews a present id and never revives a removed one. |
| Sessions.SessionManager.CloseAll | internal/tunnel/session.go:85-103 | Every session is closed and both maps are empty, with close hooks that re-enter `Remove`. |
| Sessions.SessionManager.StaleIds | internal/tunnel/session.go:129-136 | Finds exactly the ids not seen for longer than the timeout. |
| Sessions.SessionManager.TakeStale | internal/tunnel/session.go:126-145 | Takes exactly those out of both maps. |
| Sessions.SessionManager.CleanupStale | internal/tunnel/session.go:126-154 | What stays is exactly what was seen recently enough, unchanged; every other session is closed. |
| Sessions.Session.Close | internal/tunnel/session_tcp.go:130-147 | Runs once: the buffer is closed, TCP publishes one close message, the hook removes the id. |
| SessionRace.TableAccounts | internal/tunnel/session.go:42-154 | In every interleaving the two maps have the same keys, and every session ever added is in the table, closed, about to be closed by the sweep, or was taken out unclosed; what was swept or leaked never returns to the table. |
| SessionRace.ClosedCanBeInTable | internal/tunnel/session_tcp.go:130-147 | A run in which a closed session is still in the table. |
| SessionRace.ResetLeaksExactly | internal/tunnel/session.go:99-102 | Also with several calls in progress, the reset at the end of a `CloseAll` drops exactly the sessions added since its copy that nothing closed or took out. |
| SessionRace.CloseAllCloses | internal/tunnel/session.go:85-103 | With no `Add` between the two locked parts nothing is leaked: everything is closed, about to be by the sweep, or was taken out unclosed before. |
| SessionRace.AddDuringCloseAllLeaks | internal/tunnel/session.go:85-103 | A run in which an `Add` between them leaves a session neither in the table nor closed. |
| Device.Device.HandleData | internal/device/device.go:161-184 | A frame for a known session renews it and is inserted in its buffer alone; for an unknown one a throttled reject is sent; a bad topic changes nothing. |
| Device.Device.HandleAck | internal/device/device.go:310-325 | Credits the named TCP or shell session and wakes its writer, and never an exec session; no other session; for an unknown one a throttled reject is sent. |
| Device.Device.HandleClose | internal/device/device.go:262-272 | Closes and removes the named session and no other; for an unknown one nothing happens and nothing is sent. |
| Device.Device.HandleOpen | internal/device/device.go:186-260 | The session is in the table afterwards exactly when the client is told of success; otherwise the table is unchanged, and a session created by then is dropped unclosed. |
| Device.Device.SendUnknownSessionReject | internal/device/device.go:352-385 | Publishes exactly when no reject was recorded for the same session in the last five seconds, and leaves the recorded and swept map. |
| Device.Device.GcRejectMapLocked | internal/device/device.go:333-344 | The deleting loop keeps exactly the entries at most five seconds old, and deletes only above 256 entries. |
| Throttle.SweepingUnseen | internal/device/device.go:333-363 | For every run with a monotone clock the rejects published equal those with a map that is never swept. |
| Throttle.RejectsExactly | internal/device/device.go:352-363 | Over every run with a monotone clock a message for an unknown session is answered if and only if no reject of the same session was recorded in the last five seconds. |
| Throttle.FirstIsRejected | internal/device/device.go:355-360 | The first message of every unknown session is answered. |
| Throttle.RejectsApart | internal/device/device.go:355-360 | Two rejects for one session are at least five seconds apart. |
| Closing.ExchangeEnds | internal/tunnel/session_tcp.go:130-147 | A run without new application bytes has at most `Work(s)` steps, and each end publishes its own close message at most once. |
| Closing.WorkFalls | internal/device/device.go:161-173 | Every delivery, close, send, receive and loss lowers the measure over ends and traffic, rejects included. |
| Closing.EndsAgree | internal/client/client.go:728-744 | From two open ends with anything in flight, copies of close messages included: when nothing is in flight any more and no close message was lost, both ends are open or both are closed. |
| Closing.RejectClosesClient | internal/device/device.go:168-173 | Data or an ack for a session the device has forgotten brings a reject, which closes the client's end. |
| Closing.UnknownIsSilent | internal/device/device.go:262-266 | The client answers nothing it does not know, and neither end answers a close for an unknown session. |
| Closing.LostCloseLeavesHalfOpen | internal/client/client.go:628-630 | A run in which a lost close message leaves one end open with nothing left to happen. |
| Closing.StepKeepsInv | internal/device/device.go:262-272 | Every step keeps: an end has sent its close message exactly when it has closed, and a half-open state has a close message on its way unless one was lost. |
| Client.RunSessionKeepalive | internal/client/client.go:631-662 | Closes at the first ping that is the third miss in a row, and only then. |
| Client.Client.HandleClose | internal/client/client.go:728-744 | A close goes to the waiting caller if there is one, into its slot if that is empty; otherwise that session alone is closed and removed. |
| Client.Client.HandleReply | internal/client/client.go:715-726 | A reply fills the empty slot of whoever waits under its id, and no other; it is dropped when the slot is full or nobody waits. |
| Client.Client.HandleAck | internal/client/client.go:746-756 | Credits only the named session, of every kind the client has; for an unknown one nothing changes. |
| Topics.ParseInvertsBuilders | internal/tunnel/protocol.go:72-90 | Parsing a built control or data topic gives back its device, kind and session. |
| Topics.ParseAcceptsOnlyBuilt | internal/tunnel/protocol.go:112-153 | Every accepted topic is one the builders make for the parsed ids. |
| Topics.DataFilterExact | internal/tunnel/protocol.go:97-110 | A data filter matches a topic if and only if it is that device's and direction's data topic for some session. |
| Topics.ControlFilterExact | internal/tunnel/protocol.go:92-105 | A control filter matches exactly its own topic. |
| Topics.AllOutControlFilterExact | internal/tunnel/protocol.go:42-45 | The status filter matches exactly the outgoing control topics of all devices. |
| Topics.FiltersDisjoint | internal/tunnel/protocol.go:37-110 | No topic matches filters of two devices, two directions or both kinds; the shared ping topic matches none. |
| Topics.SplitJoin | internal/tunnel/protocol.go:112-113 | Splitting joined slash-free segments gives them back. |
| Topics.JoinSplit | internal/tunnel/protocol.go:112-113 | Joining the segments of any topic gives it back. |
| Topics.BuiltTexts | internal/tunnel/protocol.go:37-110 | The texts of all topics and filters, `in` to the device and `out` from it. |
| Forward.PrintedFieldsParse | internal/forward/forward.go:39-51 | Any bracket-free hosts with valid ports, printed with brackets exactly around hosts with a colon, parse to the same fields. |
| Forward.OmittedBindParses | internal/forward/forward.go:112-122 | Without a bind address the fields are the default bind and the port, host and port given. |
| Forward.OmittedBindIsLocal | internal/forward/forward.go:104-138 | Without a bind address, or with an empty one, every accepted forward listens on `localhost:` and its port, and dials its target. |
| Forward.PrintedSpecParses | internal/forward/forward.go:39-51 | With a bind address the parsed forward listens there and dials the target, with brackets exactly around hosts with a colon. |
| Forward.ValidPortExactly | internal/forward/forward.go:211-234 | A port is accepted if and only if it is an optional sign and decimal digits with a value from 1, or 0 for the local port, to 65535. |
| Text.DigitsExactly | internal/forward/forward.go:219-222 | Exactly the non-empty digit strings are numbers, with their place value in base ten. |
| Forward.ReparsesExactly | internal/forward/forward.go:39-209 | An accepted forward printed as `Listen:Target` parses to the same forward if and only if its hosts survive the join: a colon, or no bracket that misleads the parser. |
| Forward.BracketedHostAccepted | internal/forward/forward.go:183-196 | Any target host without an opening bracket is accepted in brackets; with a closing bracket and no colon it does not reparse. |
| Forward.BracketedBindAccepted | internal/forward/forward.go:143-162 | Any bind address is accepted in brackets; with a bracket and no colon it does not reparse. |
| Forward.ColonBeforeBracketOptional | internal/forward/forward.go:98-101 | In front of a bracketed target the separating colon may be missing. |
| Forward.ParseAll | internal/forward/forward.go:55-78 | Accepts exactly the non-empty lists of valid entries with different listen addresses; otherwise names the first entry at fault and why. |
| Forward.ListenInjective | internal/forward/forward.go:138-138 | Two listen addresses are equal if and only if bind addresses and port texts are. |
| Forward.DuplicateExactly | internal/forward/forward.go:69-73 | Of two accepted entries with one bind text and one port number, the second is reported as a duplicate if and only if the port texts are equal. |
| Forward.AcceptedExactly | internal/forward/forward.go:63-75 | A list of valid entries is accepted exactly when no two are spelled alike. |
| Forward.DuplicateCheckExactly | internal/forward/forward.go:63-75 | For any notion of which bind texts name one host: acceptance decides whether no two entries want one address if and only if an entry with a port other than 0 is repeated as spelled, or one with port 0 is repeated exactly when an address is respelled. |
| Forward.CanonicalPortsExact | internal/forward/forward.go:63-75 | With canonical ports other than 0 and one spelling per host the list is accepted if and only if no two entries want one address. |
| Forward.RespelledBindPasses | internal/forward/forward.go:148-155 | Any two different bracketed bind texts pass together with one port, also if they name one host. |
| Forward.EphemeralPortsAreRefused | internal/forward/forward.go:211-213 | Two forwards with port 0 and no bind address are refused, although each asks for a port of its own. |
| Forward.OtherSpellingPasses | internal/forward/forward.go:69-73 | Any two spellings of one port pass the check together, and only equal ones do not. |
| Forward.SignedPortIsNotADuplicate | internal/forward/forward.go:219-222 | A plus sign in front of the port is such a spelling. |
| Forward.PaddedPortIsNotADuplicate | internal/forward/forward.go:219-222 | A zero in front of the port is another. |
| Shadow.EqualStringSet | internal/shadow/shadow.go:121-139 | True if and only if the two lists are equal as multisets. |
| Shadow.EqualInterfacesExact | internal/shadow/shadow.go:75-104 | True if and only if both decode, to the same map. |
| Shadow.EmptyInterfaces | internal/shadow/shadow.go:106-109 | An empty text stands for no interfaces. |
| Shadow.EqualIsEquivalence | internal/shadow/shadow.go:59-69 | Symmetric and transitive, and reflexive exactly on states whose interfaces decode. |
| Shadow.EchoIrrelevant | internal/shadow/shadow.go:53-58 | However the broker re-serializes its document, the check decides the same. |
| Shadow.OneUpdateSettlesExactly | internal/shadow/shadow.go:195-212 | After one check and update the state matches if and only if no empty field leaves a stale value. |
| Shadow.UpdatesOverTime | internal/shadow/shadow.go:195-212 | Then at most the first check publishes; otherwise every check does, for ever. |
| Shadow.Reporter.HandleGetAccepted | internal/shadow/shadow.go:195-212 | Publishes nothing if and only if versions are equal, public IPs are equal as multisets, and the interfaces decode to equal maps; otherwise it publishes the current state. |

## Left out

- The MQTT client and the transport's router: the network is a multiset of messages with duplicate, reorder and drop steps.
- Sockets, PTYs, child processes, signals and terminal handling: arbitrary sources and sinks; a failing write is a parameter of `Acks.WriteToConn`.
- JSON: control messages are datatypes, and decoding the shadow's interfaces is a parameter.
- Clocks and tickers: times are integers passed to each step; timeouts are nondeterministic steps or parameters.
- SOCKS5, ping statistics, route merging, resolver, configuration, health server, logging, resize: nothing that spans operations.
- The client's data handler: it is the device's without the reject.
- Reuse of a session id: ids are unique over a run, as fresh UUIDs are.
- Stream.OutputIsPrefix: bounded to fewer than 2^32 frames in a run; past that bound `Epochs.AllFramesInOrderForever` and `Ordering.EarlyFrameHeldExactly` say what still holds.
- `Stream` has one writer, as every session has; concurrent writers are in `WindowRace`, on counters that have not wrapped.
- The consumer's write and its ack are one step in `Stream`; an ack whose publish fails is one the network drops.
- Delivery.SessionDelivers: until an end closes, because from then on it is false; `Ending` has the exact condition.
- `Ending` follows the end of the writer's side. An end that closes first for reasons of its own (its own connection, the keepalive, the stale cleanup) cuts off the other direction too; for that `Stream.DeliveredExactly` says what was delivered.
- Delivery.DeliveryPossible: for sessions whose acks are taken (TCP, shell and the client's end of exec); for the device's exec session see `ExecDelivery.ExecDeliversExactly`.
- Reorder.ReorderBuffer.Insert: which offer another goroutine closes the buffer at is a parameter, and what the consumer receives meanwhile is left open; `Reorder.InterleavingIrrelevant` says that it does not matter.
- Writer.SequenceWriter.Write: which publishes fail is a field of the transport.
- Credit.FlowControl.WaitForWindow: the acks that arrive while the caller waits are given as a list; interleavings with other callers are in `WindowRace`.
- Sessions.Session.Close: killing the process group and its timer are not modelled, and neither are the close messages that `ShellSession` and `ExecSession` send on exit.
- Sessions.SessionManager.CloseAll: the class runs it alone; other goroutines in between are in `SessionRace`.
- SessionRace.TableAccounts: does not say that a closed session is out of the table, because it need not be: `SessionRace.ClosedCanBeInTable`.
- `Closing` counts messages; a duplicate made by the broker counts as one more message in flight at the start.
- `Forward` reads ports as unbounded integers; numbers outside Go's `int` are rejected by both, with a different message.
