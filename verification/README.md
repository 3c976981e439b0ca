# Verified models of the AIC8800 Wi-Fi driver core

This project models the self-contained state machines, rings, tables and parsers of the
AIC8800 Linux Wi-Fi driver and proves what they keep over whole runs. `dafny verify
dfyconfig.toml` checks everything.

Every module has the same shape. The state that the driver guards with a lock is a value
(`Manager`, `Pool`, `Table`, ...) with one function per critical section; a class holds the
same fields and updates them in place, each method being proved equal to the function; and
an `Event` or `Op` type lets the critical sections of concurrent callers interleave in any
order, so that the main lemmas speak of every run.

| module | what it models |
|---|---|
| `CommandManager` | firmware commands: direct callers, the worker, confirmations and timeouts meeting on one list |
| `TcpAckFilter` | coalescing of outgoing TCP ACKs over 32 slots, with ownership of the message buffers |
| `TcpAckFlow` | the ACKs of one flow over time: their order and how many are held back |
| `TcpAckTimers` | the timers that release held ACKs |
| `IpcTxRing` | IPC transmit rings with free-running 32-bit indices |
| `Md5` | streaming MD5 against section 3 of RFC 1321, for any block transform |
| `UsbTxPool` | the USB transmit buffer pool, watermark flow control and per-station counters |
| `RxReassembly` | reassembly of USB packets from 2048-byte fragments |
| `Nat25Table` | the NAT2.5 bridge table as a map with ageing |
| `Nat25Chains` | its hash chains in memory, with next and back pointers |
| `PppoeRelay` | insertion and removal of PPPoE relay-session tags (RFC 2516, Appendix A) |
| `DhcpChecksum` | the DHCP broadcast rewrite with its incremental checksum (compare section 3 of RFC 1624) |
| `FrameQueue` | the priority frame queue with eviction |
| `PatchTable` | the Bluetooth patch-table parser and loader |
| `Machine` | bytes, 32-bit words and absent values |

## What the proofs found

Some properties one would expect of the code do not hold in general. In each case the model
keeps the code as it is, and the project gives a concrete failing input, or the whole failing
family, together with the exact condition under which the property holds:

- A command manager wake-up can be lost, and stays lost (`LostStaysLost`), because `cmd_mgr_queue` reads `queue_sz` for its wake
  test after dropping the lock (`WakeupCanBeLost`). Exactly the appends described by
  `Overtakes` lose one (`StepKeepsCovered`); when append and test are serialised none is lost
  (`QuietHeadIsPushed`).
- A refused USB submission returns its buffer without the wake check, so the network queues can
  stay stopped with all fifty buffers free (`QueuesCanStayStopped`). Exactly the steps described
  by `Strands` do that (`StepKeepsFlow`).
- A caller can be told to push its command itself while the command before it is still unsent,
  and then send it first, so that commands reach the bus out of token order (`TokenOrderCanFail`).
  The log is in order exactly when no send does so (`OrderKeptIff`), and it is put at stake exactly
  by such an enqueue (`StepExposesIff`), which needs a confirmation of a command not yet sent
  (`PromptFirmwareKeepsOrder`).
- Two coalesced ACKs can advance so far that the next transmitted one compares as before the
  previous one (`CoalescedCanWrap`). Whether that happens is decided when the ACK is submitted
  (`OrderDecidedAtSubmission`).
- An ACK timer that fires while an earlier ACK of the flow is in transmission is not armed again,
  so the held ACK can be left with nothing to release it (`HeldCanStall`). Exactly such expiries,
  and those after a slot was aged out, do that (`StepKeepsArmed`, `HeldAreArmedIff`).
- The DHCP rewrite folds the whole flags word into the checksum, so the datagram verifies
  afterwards exactly when the flags were zero or already had the bit (`RewriteCanFail`, `RewriteVerifiesIff`).
- The 32-bit test of the MD5 block loop wraps for chunks near 4 GiB (`LongestChunkOverruns`,
  `WrappedTestOverruns`).
- The PPPoE tag length is read without byte-order conversion (`HostReadIff`), and an empty relay
  tag is not restored (`EmptyRelayIsLost`, `RoundTripIff`).
- A data-less patch-table entry loses its length field, so re-serialising restores the file
  exactly when those fields were zero (`StrayLengthIsLost`, `ReserialiseIff`). A BTMODE entry with
  fewer than nine pairs is overwritten past its end (`EmptyBtmodeOverruns`, `Load`).

## Model

| member | source | states |
|---|---|---|
| `CommandManager.CommandQueue.constructor` | drivers/aic8800/aic8800_fdrv/rwnx_cmds.c:523-543 | a new manager is empty, with token 0 and not crashed |
| `CommandManager.CommandQueue.Enqueue` | drivers/aic8800/aic8800_fdrv/rwnx_cmds.c:158-224 | with or without forced deferral: refuses when crashed or when 16 are queued, defers behind an unfinished last command, and appends with the next token |
| `CommandManager.EnqueueMeaning` | drivers/aic8800/aic8800_fdrv/rwnx_cmds.c:158-224 | an enqueue changes nothing after a crash or with 16 listed; otherwise it lists one more command, last, which its caller pushes if and only if it is not forced to wait and no listed command waits |
| `CommandManager.UnlinkMeaning` | drivers/aic8800/aic8800_fdrv/rwnx_cmds.c:275-281 | removing a command from the ordered list forgets that command and leaves every other one listed and unchanged |
| `CommandManager.CommandQueue.TimeOut` | drivers/aic8800/aic8800_fdrv/rwnx_cmds.c:264-272 | marks the manager crashed and completes the command, still listed, unless it was done |
| `CommandManager.TimeoutMeaning` | drivers/aic8800/aic8800_fdrv/rwnx_cmds.c:264-272 | the command that timed out stays listed, done and not waited on, failed if it still awaited its confirmation, and no other command changes |
| `CommandManager.CrashedIff` | drivers/aic8800/aic8800_fdrv/rwnx_cmds.c:266 | a time-out, and nothing else, crashes the manager |
| `CommandManager.TimeoutRefusesLater` | drivers/aic8800/aic8800_fdrv/rwnx_cmds.c:162-167 | after a time-out every later enqueue of any run is refused with a broken pipe, and nothing more is accepted |
| `CommandManager.CommandQueue.MessageIndication` | drivers/aic8800/aic8800_fdrv/rwnx_cmds.c:451-476 | confirms the first listed command that takes the message, and reports whether there was one |
| `CommandManager.MessageMeaning` | drivers/aic8800/aic8800_fdrv/rwnx_cmds.c:451-476 | a message changes exactly the first command that expects its id, awaits confirmation and accepts it, and finishes it successfully |
| `CommandManager.StepKeepsInv` | drivers/aic8800/aic8800_fdrv/rwnx_cmds.c:162-403 | every critical section keeps: a pushed command has only finished ones before it, counter equals length and is at most 16, tokens ascend, the worker's command is the head |
| `CommandManager.RunKeepsInv` | drivers/aic8800/aic8800_fdrv/rwnx_cmds.c:162-403 | so does every interleaved run, whatever messages the firmware sends |
| `CommandManager.OneInFlight` | drivers/aic8800/aic8800_fdrv/rwnx_cmds.c:162-241 | in every reachable state at most one listed command is pushed and unconfirmed; all before are finished, all after wait to be pushed |
| `CommandManager.ConfirmationHitsInFlight` | drivers/aic8800/aic8800_fdrv/rwnx_cmds.c:451-476 | a confirmation for the in-flight command completes that command and changes no other, even if deferred ones have the same request id |
| `CommandManager.StepKeepsCovered` | drivers/aic8800/aic8800_fdrv/rwnx_cmds.c:208-241 | a step leaves a waiting head without any wake to come if and only if it is an overtaking append |
| `CommandManager.NoLostWakeup` | drivers/aic8800/aic8800_fdrv/rwnx_cmds.c:274-285 | over every run without an overtaking append, a waiting head always has the worker, queued work or a pending wake |
| `CommandManager.SerialisedNeverOvertakes` | drivers/aic8800/aic8800_fdrv/rwnx_cmds.c:208-239 | if nobody enqueues between an append and its wake test, no append overtakes |
| `CommandManager.QuietHeadIsPushed` | drivers/aic8800/aic8800_fdrv/rwnx_cmds.c:208-241 | then a quiet system never has a head waiting to be pushed |
| `CommandManager.WakeupCanBeLost` | drivers/aic8800/aic8800_fdrv/rwnx_cmds.c:224-239 | at the code's own granularity a run of two appends and two tests leaves a waiting head and a sleeping worker |
| `CommandManager.LostStaysLost` | drivers/aic8800/aic8800_fdrv/rwnx_cmds.c:208-241 | once a wake-up is lost, every run without a forced enqueue hands nothing more to the bus and leaves the head waiting |
| `CommandManager.StepKeepsOrder` | drivers/aic8800/aic8800_fdrv/rwnx_cmds.c:226-236 | a step breaks "the bus log is 0, 1, 2, ... and the unsent commands are the tail of the list", and breaks it in the log, if and only if a caller sends its command while the one before it in the list is unsent |
| `CommandManager.OrderKeptIff` | drivers/aic8800/aic8800_fdrv/rwnx_cmds.c:347-403 | over any run the log is 0, 1, 2, ... at the end if and only if no send in the run does that |
| `CommandManager.StepExposesIff` | drivers/aic8800/aic8800_fdrv/rwnx_cmds.c:170-224 | a step first puts a command that its caller may send right behind an unsent one if and only if it is an enqueue with the verdict to push now while the last listed command is unsent |
| `CommandManager.ExposureIff` | drivers/aic8800/aic8800_fdrv/rwnx_cmds.c:170-224 | the same over any run, and without such an enqueue no send breaks the order |
| `CommandManager.PushedInTokenOrder` | drivers/aic8800/aic8800_fdrv/rwnx_cmds.c:162-403 | without such an enqueue commands reach the bus in token order, without gap or repetition, pushed directly or by the worker |
| `CommandManager.StepKeepsAwaited` | drivers/aic8800/aic8800_fdrv/rwnx_cmds.c:451-476 | a step leaves an unsent command that no longer awaits its confirmation if and only if it is a confirmation taken by an unsent command |
| `CommandManager.PromptFirmwareKeepsOrder` | drivers/aic8800/aic8800_fdrv/rwnx_cmds.c:451-476 | firmware that never confirms an unsent command never leads to such an enqueue |
| `CommandManager.TokenOrderCanFail` | drivers/aic8800/aic8800_fdrv/rwnx_cmds.c:162-241 | a run in which the first command is confirmed before it is sent, the second is told to push past it, and the log is 1, 0 |
| `CommandManager.Driver.Perform` | drivers/aic8800/aic8800_fdrv/rwnx_cmds.c:123-403 | performing an event with the methods of the command queue is the step of the interleaved system |
| `CommandManager.Driver.PerformAll` | drivers/aic8800/aic8800_fdrv/rwnx_cmds.c:123-403 | so any run can be performed on the object, and keeps its invariant |
| `TcpAckFilter.BeforeIsForward` | drivers/aic8800/aic8800_fdrv/aicwf_tcp_ack.h:18 | the signed comparison holds exactly when the forward distance modulo 2^32 is at most 2^31 |
| `TcpAckFilter.AckFilter.constructor` | drivers/aic8800/aic8800_fdrv/aicwf_tcp_ack.c:63-94 | 32 free slots, enabled |
| `TcpAckFilter.AckFilter.Update` | drivers/aic8800/aic8800_fdrv/aicwf_tcp_ack.c:288-310 | ageing frees exactly the old busy slots and remembers the lowest |
| `TcpAckFilter.AckFilter.Match` | drivers/aic8800/aic8800_fdrv/aicwf_tcp_ack.c:260-285 | first busy slot with the flow's addresses and ports |
| `TcpAckFilter.AckFilter.TakeIndex` | drivers/aic8800/aic8800_fdrv/aicwf_tcp_ack.c:313-348 | the cached or first free slot, counted as taken |
| `TcpAckFilter.AckFilter.HandleNew` | drivers/aic8800/aic8800_fdrv/aicwf_tcp_ack.c:447-527 | passes, absorbs or drops the ACK, and frees exactly the superseded buffer |
| `TcpAckFilter.AckFilter.Send` | drivers/aic8800/aic8800_fdrv/aicwf_tcp_ack.c:555-623 | ageing, match, allocation and handling composed: new table, whether the buffer is kept, which buffer is freed |
| `TcpAckFilter.AckFilter.Receive` | drivers/aic8800/aic8800_fdrv/aicwf_tcp_ack.c:529-552 | records the PSH sequence number in the flow's slot only |
| `TcpAckFilter.AckFilter.Timeout` | drivers/aic8800/aic8800_fdrv/aicwf_tcp_ack.c:28-61 | sends the held buffer exactly when the slot is busy and nothing is in transmission |
| `TcpAckFilter.AckFilter.MoveMsg` | drivers/aic8800/aic8800_fdrv/aicwf_tcp_ack.c:625-645 | clears the transmission mark of that buffer in every slot |
| `TcpAckFilter.AckFilter.Deinit` | drivers/aic8800/aic8800_fdrv/aicwf_tcp_ack.c:96-121 | disables the filter and frees exactly the held buffers |
| `TcpAckFilter.AllocIff` | drivers/aic8800/aic8800_fdrv/aicwf_tcp_ack.c:313-348 | allocation fails if and only if all 32 slots are busy, and otherwise names a free one |
| `TcpAckFilter.SubmittedOk` | drivers/aic8800/aic8800_fdrv/aicwf_tcp_ack.c:568-618 | a submission keeps the busy count, the free hint and the uniqueness of flows |
| `TcpAckFilter.StepTableOk` | drivers/aic8800/aic8800_fdrv/aicwf_tcp_ack.c:260-348 | so does every step |
| `TcpAckFilter.StepAccounts` | drivers/aic8800/aic8800_fdrv/aicwf_tcp_ack.c:447-527 | each step conserves every buffer: submitted = passed + sent + freed + held |
| `TcpAckFilter.RunInv` | drivers/aic8800/aic8800_fdrv/aicwf_tcp_ack.c:555-623 | over every run the slot table is consistent, each submitted buffer has exactly one fate, and after shutdown nothing is held |
| `TcpAckFilter.FreedIsFinal` | drivers/aic8800/aic8800_fdrv/aicwf_tcp_ack.c:47-60 | a freed buffer is at no later point sent, passed, held or freed again |
| `TcpAckFlow.KeptSlotStep` | drivers/aic8800/aic8800_fdrv/aicwf_tcp_ack.c:555-645 | a step of the filter changes a kept slot exactly by that slot's own event |
| `TcpAckFlow.SlotOutIs` | drivers/aic8800/aic8800_fdrv/aicwf_tcp_ack.c:447-527 | what a step of the filter adds to the transmitted buffers for a slot is what the slot's own event sends |
| `TcpAckFlow.RecordedAdvances` | drivers/aic8800/aic8800_fdrv/aicwf_tcp_ack.c:464-481 | no event moves a slot's recorded number back: each moves it forward by at most 2^31, to the number of the ACK taken if one is |
| `TcpAckFlow.TravelIsRecorded` | drivers/aic8800/aic8800_fdrv/aicwf_tcp_ack.c:464-481 | the sum of those forward moves is, modulo 2^32, the recorded number |
| `TcpAckFlow.SentIsTaken` | drivers/aic8800/aic8800_fdrv/aicwf_tcp_ack.c:484-506 | every ACK transmitted, directly or by the timer, was taken in order at its own submission, carries the recorded number, and nothing was transmitted in between |
| `TcpAckFlow.OrderDecidedAtSubmission` | drivers/aic8800/aic8800_fdrv/aicwf_tcp_ack.c:464-506 | all transmissions of a slot are in modulo-2^32 order if and only if none is of an ACK that, when submitted, compared as before the one last transmitted |
| `TcpAckFlow.OrderByTravel` | drivers/aic8800/aic8800_fdrv/aicwf_tcp_ack.c:464-506 | two transmissions less than a whole turn apart are in order if and only if the recorded number travelled at most 2^31 between them |
| `TcpAckFlow.FlowTransmitsInOrder` | drivers/aic8800/aic8800_fdrv/aicwf_tcp_ack.c:555-645 | both results for every run of the filter and every slot that a flow keeps, from a state without a pending timer on |
| `TcpAckFlow.CoalescingIsBounded` | drivers/aic8800/aic8800_fdrv/aicwf_tcp_ack.c:484-506 | in every run, while nothing is in transmission, at most nine ACKs of a kept slot are taken in order and held back |
| `TcpAckFlow.PshReleases` | drivers/aic8800/aic8800_fdrv/aicwf_tcp_ack.c:471-491 | after received data with PSH, the next ACK that covers them passes at once, also while another is in transmission |
| `TcpAckFlow.NoSecondRelease` | drivers/aic8800/aic8800_fdrv/aicwf_tcp_ack.c:471-498 | the ACK after that one, without new such data, is held |
| `TcpAckFlow.WithoutPshHeldIff` | drivers/aic8800/aic8800_fdrv/aicwf_tcp_ack.c:475-498 | an in-order ACK with no PSH recorded is held, in place of the one held before, if and only if another is in transmission or fewer than ten have come since the last transmission; otherwise it passes |
| `TcpAckFlow.HeldWithoutPsh` | drivers/aic8800/aic8800_fdrv/aicwf_tcp_ack.c:471-498 | in every run, while no data with PSH come for the flow, its ACKs are so held |
| `TcpAckFlow.SecondAckPasses` | drivers/aic8800/aic8800_fdrv/aicwf_tcp_ack.c:599-618 | the first ACK after the claim passes too, when nothing is in transmission |
| `TcpAckFlow.AgeMeaning` | drivers/aic8800/aic8800_fdrv/aicwf_tcp_ack.c:288-310 | ageing frees a slot if and only if neither the table nor the slot was touched for 4000 milliseconds |
| `TcpAckFlow.SubmissionRestartsAge` | drivers/aic8800/aic8800_fdrv/aicwf_tcp_ack.c:461 | every ACK of a flow, in order or not, keeps its slot for another 4000 milliseconds |
| `TcpAckFlow.MoveMeaning` | drivers/aic8800/aic8800_fdrv/aicwf_tcp_ack.c:625-645 | reporting a buffer as on its way ends its transmission in the slots that name it and changes nothing else |
| `TcpAckTimers.StepTimers` | drivers/aic8800/aic8800_fdrv/aicwf_tcp_ack.c:288-310 | in timely steps a timer is pending only for a held ACK of the flow that has the slot, so a slot is aged out only after its timer fired |
| `TcpAckTimers.TimerSendsOwnFlow` | drivers/aic8800/aic8800_fdrv/aicwf_tcp_ack.c:47-60 | in every timely run a timer sends only ACKs of the flow that has the slot, never one left by an earlier flow |
| `TcpAckTimers.FreeSlotHasNoTimer` | drivers/aic8800/aic8800_fdrv/aicwf_tcp_ack.c:599-618 | in every timely run a free slot has no timer pending, so the order result holds from every claim on |
| `TcpAckTimers.ClaimedFlowInOrder` | drivers/aic8800/aic8800_fdrv/aicwf_tcp_ack.c:555-645 | in every timely run, from the claim of a slot on and while the flow keeps it: the claiming ACK passes, later transmissions are in order if and only if none leaps at its submission, and two less than a turn apart are in order if and only if the flow moved on by at most 2^31 |
| `TcpAckTimers.StepKeepsArmed` | drivers/aic8800/aic8800_fdrv/aicwf_tcp_ack.c:47-60 | a step leaves a held ACK without a pending timer if and only if a timer fires while an ACK of its slot is in transmission or after the slot was aged out |
| `TcpAckTimers.HeldAreArmedIff` | drivers/aic8800/aic8800_fdrv/aicwf_tcp_ack.c:47-60 | over any run every held ACK always has its timer pending if and only if no timer fires so |
| `TcpAckTimers.TimelyStall` | drivers/aic8800/aic8800_fdrv/aicwf_tcp_ack.c:288-310 | in a timely run a timer never fires for a slot that was aged out |
| `TcpAckTimers.HeldCanStall` | drivers/aic8800/aic8800_fdrv/aicwf_tcp_ack.c:484-498 | a run that ends with an ACK held, nothing in transmission and no timer to release it |
| `TcpAckTimers.CoalescedCanWrap` | drivers/aic8800/aic8800_fdrv/aicwf_tcp_ack.c:464-506 | a run in which two coalesced ACKs carry the next transmission to where it compares as before the previous one |
| `IpcTxRing.MaskIsRemainder` | drivers/aic8800/aic8800_fdrv/ipc_host.c:48-57 | masking with 2^k - 1 is the remainder modulo 2^k |
| `IpcTxRing.IncMovesSlot` | drivers/aic8800/aic8800_fdrv/ipc_host.c:226-266 | incrementing a 32-bit index moves to the next slot, also when the index wraps |
| `IpcTxRing.TxRing.TxDescGet` | drivers/aic8800/aic8800_fdrv/ipc_host.c:565-586 | NULL exactly when the ring is full, otherwise the empty slot after the newest id |
| `IpcTxRing.TxRing.TxDescPush` | drivers/aic8800/aic8800_fdrv/ipc_host.c:591-611 | the ring stays a FIFO, with the id appended, if and only if there was room and the id is not NULL; the code tests neither |
| `IpcTxRing.TxRing.TxFlush` | drivers/aic8800/aic8800_fdrv/ipc_host.c:299-315 | removes and returns the oldest id, or returns 0 when empty |
| `IpcTxRing.TxRing.ConfirmOne` | drivers/aic8800/aic8800_fdrv/ipc_host.c:232-259 | one turn delivers the oldest id; rolls back to an empty ring; or keeps a refused id in front of what the callback pushed, which is right if and only if that left room |
| `IpcTxRing.TxRing.PutBack` | drivers/aic8800/aic8800_fdrv/ipc_host.c:250-257 | rolling the used index back by one restores the id at the front if and only if the ring has room |
| `IpcTxRing.TxRing.TxConfirm` | drivers/aic8800/aic8800_fdrv/ipc_host.c:226-266 | the loop delivers the front of the FIFO up to the first refusal, frames pushed by re-entering callbacks are appended, and the ring stays a FIFO if and only if a refusing callback left room; always if refusals push nothing |
| `IpcTxRing.PlainFits` | drivers/aic8800/aic8800_fdrv/rwnx_tx.c:2347-2351 | a callback that refuses before it does anything, as the driver's does, always leaves room |
| `IpcTxRing.ConfirmStops` | drivers/aic8800/aic8800_fdrv/ipc_host.c:226-266 | the loop delivers one id for each answer up to the first refusal and stops earlier only when the FIFO is empty |
| `IpcTxRing.DeliversFront` | drivers/aic8800/aic8800_fdrv/ipc_host.c:226-266 | and delivers the ids that were outstanding oldest first |
| `IpcTxRing.OfferTakes` | drivers/aic8800/aic8800_fdrv/ipc_host.c:565-611 | frames pushed from a callback are taken in order while there is room |
| `IpcTxRing.RefusalCanOverfill` | drivers/aic8800/aic8800_fdrv/ipc_host.c:250-257 | in a full ring of any size a callback that pushes one frame and then refuses leaves no room |
| `IpcTxRing.TxRing.Reenter` | drivers/aic8800/aic8800_fdrv/ipc_host.c:565-611 | get and push from inside a callback append while there is room |
| `IpcTxRing.TxFramesPending` | drivers/aic8800/aic8800_fdrv/ipc_host.c:271-294 | true if and only if some ring is non-empty |
| `IpcTxRing.ConfirmConserves` | drivers/aic8800/aic8800_fdrv/ipc_host.c:226-266 | delivered ids followed by the remaining ones are the old contents followed by those accepted meanwhile |
| `IpcTxRing.RunConserves` | drivers/aic8800/aic8800_fdrv/ipc_host.c:226-315 | over any run the ids accepted are those returned followed by those outstanding: push order, exactly once, never more than the size |
| `IpcTxRing.TxRing.RunOps` | drivers/aic8800/aic8800_fdrv/ipc_host.c:226-315 | any run of pushes, flushes and confirmations on the ring leaves the contents and returns the ids of that FIFO run |
| `IpcTxRing.PlainRunFits` | drivers/aic8800/aic8800_fdrv/rwnx_tx.c:2347-2351 | any run whose refusals push nothing meets the condition of `RunOps` |
| `Md5.Encode` | drivers/aic8800/aic8800_fdrv/md5.c:53-65 | words to bytes, low-order first |
| `Md5.Decode` | drivers/aic8800/aic8800_fdrv/md5.c:66-78 | the words whose encoding is the input |
| `Md5.WordsInjective` | drivers/aic8800/aic8800_fdrv/md5.c:53-78 | encodings are unique, so decoding inverts encoding |
| `Md5.WordsAt` | drivers/aic8800/aic8800_fdrv/md5.c:53-65 | word k of an encoding stands at offset 4 k, low-order byte first |
| `Md5.InitialBytes` | drivers/aic8800/aic8800_fdrv/md5.c:9-17 | the initial state in the byte order of section 3.3 of RFC 1321 |
| `Md5.Context.Init` | drivers/aic8800/aic8800_fdrv/md5.c:9-17 | the state of the empty message |
| `Md5.Context.AddLength` | drivers/aic8800/aic8800_fdrv/md5.c:23-26 | the two-word count grows by 8 times the length as one 64-bit number |
| `Md5.Context.CompleteBlock` | drivers/aic8800/aic8800_fdrv/md5.c:28-31 | the buffered bytes and the head of the input are absorbed as the next block of the message |
| `Md5.Context.AbsorbBlocks` | drivers/aic8800/aic8800_fdrv/md5.c:32-33 | the loop absorbs every whole block of the input and stops less than a block before its end |
| `Md5.Context.Update` | drivers/aic8800/aic8800_fdrv/md5.c:18-41 | after any chunk: state is the fold of complete blocks, buffer is the tail, count is 8 times the length modulo 2^64 |
| `Md5.Context.Finish` | drivers/aic8800/aic8800_fdrv/md5.c:42-52 | the digest is the padded one-shot hash of everything absorbed |
| `Md5.Context.Pad` | drivers/aic8800/aic8800_fdrv/md5.c:45-50 | the two final updates append exactly the padding and length of RFC 1321 |
| `Md5.PaddedMeaning` | drivers/aic8800/aic8800_fdrv/md5.c:46-50 | what is hashed is the message, 0x80, zeros up to a block less 8 bytes, and the bit count modulo 2^64 with its low-order byte first |
| `Md5.HashChunks` | drivers/aic8800/aic8800_fdrv/md5.c:9-52 | however a message is cut, the digest is its one-shot hash |
| `Md5.PaddingFillsBlocks` | drivers/aic8800/aic8800_fdrv/md5.c:46-47 | 1 to 64 padding bytes plus the length end on a block boundary |
| `Md5.WrappedTestOverruns` | drivers/aic8800/aic8800_fdrv/md5.c:32 | the 32-bit loop test is wrong at the end of a chunk if and only if the chunk does not fit |
| `Md5.LongestChunkOverruns` | drivers/aic8800/aic8800_fdrv/md5.c:32 | the chunk of 2^32 - 1 bytes on an empty buffer does not fit: the last test compares zero |
| `UsbTxPool.UsbTx.constructor` | drivers/aic8800/aic8800_fdrv/aicwf_usb.c:1573-1612 | fifty free buffers, nothing posted or counted |
| `UsbTxPool.UsbTx.StationSend` | drivers/aic8800/aic8800_fdrv/aicwf_usb.c:1659-1687 | counts the frame against its station, with the stop threshold |
| `UsbTxPool.UsbTx.StationDone` | drivers/aic8800/aic8800_fdrv/aicwf_usb.c:178-210 | uncounts it, with the wake threshold |
| `UsbTxPool.UsbTx.TxData` | drivers/aic8800/aic8800_fdrv/aicwf_usb.c:1722-1893 | a send moves one buffer from free to posted, fails exactly when the bus is down or none is free, and applies the low watermark |
| `UsbTxPool.UsbTx.TxComplete` | drivers/aic8800/aic8800_fdrv/aicwf_usb.c:212-257 | a completion returns its buffer, uncounts it and applies the high watermark |
| `UsbTxPool.UsbTx.TxProcess` | drivers/aic8800/aic8800_fdrv/aicwf_usb.c:1182-1221 | drains the post list in order until empty, bus down or device gone, returning refused buffers |
| `UsbTxPool.DrainedMeaning` | drivers/aic8800/aic8800_fdrv/aicwf_usb.c:1182-1221 | a drain ends only with the list empty, the bus down or the device gone; the buffers taken are submitted or, in order, free again, and no other buffer changes |
| `UsbTxPool.StepConserves` | drivers/aic8800/aic8800_fdrv/aicwf_usb.c:75-104 | every step keeps each buffer with exactly one holder and the counters equal to the list lengths |
| `UsbTxPool.StepAccounts` | drivers/aic8800/aic8800_fdrv/aicwf_usb.c:178-210 | every step keeps each station's counter equal to its counted buffers and its stop flag clear |
| `UsbTxPool.StepKeepsFlow` | drivers/aic8800/aic8800_fdrv/aicwf_usb.c:249-256 | a step breaks "stopped queues above the high watermark have a check to come" if and only if it is a stranding refusal |
| `UsbTxPool.PoolTheorem` | drivers/aic8800/aic8800_fdrv/aicwf_usb.c:1659-1687 | over every run buffers are conserved, a station's counter is its frames in flight, at most 50, so the threshold of 64 is never reached |
| `UsbTxPool.QueuesAreWoken` | drivers/aic8800/aic8800_fdrv/aicwf_usb.c:212-257 | over every run without a stranding refusal, once no check is outstanding, stopped queues mean at most 36 free buffers |
| `UsbTxPool.QueuesCanStayStopped` | drivers/aic8800/aic8800_fdrv/aicwf_usb.c:1211-1220 | a run of refused submissions ends with all buffers free and the queues stopped |
| `RxReassembly.Reassembler.RxComplete` | drivers/aic8800/aic8800_fdrv/aicwf_usb.c:419-542 | one completion continues, finishes, abandons or starts a packet, and keeps the invariant |
| `RxReassembly.Reassembler.Check` | drivers/aic8800/aic8800_fdrv/aicwf_usb.c:471-541 | a first transfer is accepted whole, starts a packet, or is dropped, by type and length |
| `RxReassembly.FragsCountSplit` | drivers/aic8800/aic8800_fdrv/aicwf_usb.c:486 | the fragment count computed by alignment is the number of maximal fragments of the packet |
| `RxReassembly.StepKeepsOk` | drivers/aic8800/aic8800_fdrv/aicwf_usb.c:419-466 | while active the length is a whole number of transfers short of the total, and no copy leaves the allocation |
| `RxReassembly.PacketCompletes` | drivers/aic8800/aic8800_fdrv/aicwf_usb.c:616-717 | the maximal fragments of a well-formed packet yield exactly that packet |
| `RxReassembly.StreamIsRestored` | drivers/aic8800/aic8800_fdrv/aicwf_usb.c:419-542 | any stream of well-formed packets, so cut, is queued as exactly those packets in order |
| `RxReassembly.TruncationLosesOnlyItself` | drivers/aic8800/aic8800_fdrv/aicwf_usb.c:455-470 | after a packet cut short, a stream whose first transfer does not fit it is queued completely |
| `RxReassembly.OnlyWellFormedQueued` | drivers/aic8800/aic8800_fdrv/aicwf_usb.c:419-542 | whatever arrives, only packets as long as their header announces are queued |
| `RxReassembly.AnnouncedMeaning` | drivers/aic8800/aic8800_fdrv/aicwf_usb.c:471-528 | the announced length by type, in numbers: length plus 60, length plus 4 rounded up to a multiple of 4, or exactly 12 |
| `Nat25Table.InsertMeaning` | drivers/aic8800/aic8800_fdrv/aic_br_ext.c:469-504 | as a map: adds the address with one use or refreshes its MAC and stamp; every other address unchanged; chains stay well formed |
| `Nat25Table.LookupMeaning` | drivers/aic8800/aic8800_fdrv/aic_br_ext.c:396-466 | as a map: a mapped unexpired address gains a use; nothing else changes |
| `Nat25Table.TouchMeaning` | drivers/aic8800/aic8800_fdrv/rwnx_tx.c:1084-1122 | the shortcut holder refreshes its own entry's stamp only |
| `Nat25Table.ExpireMeaning` | drivers/aic8800/aic8800_fdrv/aic_br_ext.c:621-705 | as a map: each expired address loses a use, and is removed with its last one |
| `Nat25Table.ExpireCases` | drivers/aic8800/aic8800_fdrv/aic_br_ext.c:636-638 | an expire pass leaves an unexpired entry alone, takes a use off an expired one, and removes it with its last |
| `Nat25Table.FreshEntriesStay` | drivers/aic8800/aic8800_fdrv/aic_br_ext.c:636-638 | in every run an entry younger than every deadline is present at every point and never loses a use |
| `Nat25Table.ShortcutThenTouch` | drivers/aic8800/aic8800_fdrv/rwnx_tx.c:1084-1122 | a shortcut set for a mapped address refreshes that address and no other |
| `Nat25Table.CleanupMeaning` | drivers/aic8800/aic8800_fdrv/aic_br_ext.c:593-618 | after a cleanup no address is mapped |
| `Nat25Table.DoKeepsOk` | drivers/aic8800/aic8800_fdrv/aic_br_ext.c:396-705 | every operation keeps each entry in its key's bucket, keys unique, and the shortcut on a live entry |
| `Nat25Table.RunExists` | drivers/aic8800/aic8800_fdrv/aic_br_ext.c:396-705 | every sequence of operations runs through well-formed tables only |
| `Nat25Table.ExpiresAfterItsUses` | drivers/aic8800/aic8800_fdrv/aic_br_ext.c:621-705 | in every run an expired, never refreshed entry is present exactly until as many expire passes as it had uses |
| `Nat25Chains.Nat25.Link` | drivers/aic8800/aic8800_fdrv/aic_br_ext.c:363-377 | linking through next and back pointers puts the entry at the front of its chain and leaves every other chain and every entry's contents as they were |
| `Nat25Chains.Nat25.Unlink` | drivers/aic8800/aic8800_fdrv/aic_br_ext.c:380-393 | unlinking through the back pointer removes just that entry from its chain and leaves every other chain and every entry's contents as they were |
| `Nat25Chains.Nat25.Walk` | drivers/aic8800/aic8800_fdrv/aic_br_ext.c:402-463 | following next pointers from the bucket head finds the entry of the address in the chain, if there is one |
| `Nat25Chains.Nat25.NetworkInsert` | drivers/aic8800/aic8800_fdrv/aic_br_ext.c:469-504 | insert on the chains; unchanged when a needed allocation fails |
| `Nat25Chains.Nat25.LookupAndReplace` | drivers/aic8800/aic8800_fdrv/aic_br_ext.c:396-466 | rewrites the destination exactly for mapped unexpired addresses |
| `Nat25Chains.Nat25.DbCleanup` | drivers/aic8800/aic8800_fdrv/aic_br_ext.c:593-618 | empties every chain and drops the shortcut |
| `Nat25Chains.Nat25.FindShortcut` | drivers/aic8800/aic8800_fdrv/aic_br_ext.c:1543-1567 | the shortcut becomes the entry of the address, or none |
| `Nat25Chains.Nat25.AgeChain` | drivers/aic8800/aic8800_fdrv/aic_br_ext.c:629-702 | one chain's pass in place: uses are taken off expired entries, spent ones are unlinked, and a shortcut to one is dropped |
| `Nat25Chains.Nat25.TouchShortcut` | drivers/aic8800/aic8800_fdrv/rwnx_tx.c:1084-1122 | the transmit path refreshes the entry that the shortcut points at |
| `Nat25Chains.Nat25.DbExpire` | drivers/aic8800/aic8800_fdrv/aic_br_ext.c:621-705 | the pass over all chains is the expire operation, and the shortcut survives exactly with its entry |
| `PppoeRelay.Packet.FindTag` | drivers/aic8800/aic8800_fdrv/aic_br_ext.c:70-85 | on any packet: the walk along the length fields finds a tag, finds none, or reads past the packet |
| `PppoeRelay.ScanFinds` | drivers/aic8800/aic8800_fdrv/aic_br_ext.c:70-85 | on a well-formed list that walk stays inside the packet and ends at the first tag of the type |
| `PppoeRelay.Packet.AddTag` | drivers/aic8800/aic8800_fdrv/aic_br_ext.c:88-105 | the packet holds the tag followed by the old list, exactly when the host is big-endian and there is room |
| `PppoeRelay.Packet.PullAndMerge` | drivers/aic8800/aic8800_fdrv/aic_br_ext.c:107-126 | cuts the bytes out, or refuses a cut past the end |
| `PppoeRelay.Packet.DetachOld` | drivers/aic8800/aic8800_fdrv/aic_br_ext.c:1118-1134 | the old relay tag's value is returned and the tag removed, exactly when it has at most 28 bytes |
| `PppoeRelay.Packet.InsertRelay` | drivers/aic8800/aic8800_fdrv/aic_br_ext.c:1110-1149 | the packet holds the relayed tag list exactly when the stated room and length conditions hold, and what it holds otherwise |
| `PppoeRelay.Packet.RemoveRelay` | drivers/aic8800/aic8800_fdrv/aic_br_ext.c:1181-1224 | exactly for our own tags: destination becomes the client and the packet holds the unwrapped list |
| `PppoeRelay.Packet.ThereAndBack` | drivers/aic8800/aic8800_fdrv/aic_br_ext.c:1110-1224 | a packet relayed and answered unchanged is addressed to its sender and holds its tags again, behind a non-empty old relay tag, exactly when the insertion succeeds |
| `PppoeRelay.RelayTagBytes` | drivers/aic8800/aic8800_fdrv/aic_br_ext.c:1137-1143 | the relay tag on the wire, byte by byte |
| `PppoeRelay.RelayedMeaning` | drivers/aic8800/aic8800_fdrv/aic_br_ext.c:1117-1146 | the other tags of a relayed packet are those it had less its first relay tag |
| `PppoeRelay.IsOursIff` | drivers/aic8800/aic8800_fdrv/aic_br_ext.c:1189-1206 | an answer is unwrapped if and only if its first relay tag has at least 8 bytes and starts with 0x81 0x86 |
| `PppoeRelay.EchoRestores` | drivers/aic8800/aic8800_fdrv/aic_br_ext.c:1181-1224 | whatever tags surround the echoed relay tag, the answer goes to the client with its own relay tag back in place |
| `PppoeRelay.RoundTrip` | drivers/aic8800/aic8800_fdrv/aic_br_ext.c:1110-1224 | insertion then removal gives back the other tags behind a non-empty old relay tag, and the client's MAC |
| `PppoeRelay.RoundTripIff` | drivers/aic8800/aic8800_fdrv/aic_br_ext.c:1110-1224 | all tags come back, an old relay tag moved to the front, if and only if that tag is absent or non-empty |
| `PppoeRelay.EmptyRelayIsLost` | drivers/aic8800/aic8800_fdrv/aic_br_ext.c:1211-1219 | a list of one empty relay tag comes back empty |
| `PppoeRelay.HostReadIff` | drivers/aic8800/aic8800_fdrv/aic_br_ext.c:93 | the unconverted length is right if and only if the host is big-endian, and elsewhere asks for at least 2052 bytes |
| `DhcpChecksum.DhcpFlagBcast` | drivers/aic8800/aic8800_fdrv/aic_br_ext.c:1518-1533 | sets the flag and the folded checksum, changes no other word, and the folding loop terminates |
| `DhcpChecksum.RewriteMeaning` | drivers/aic8800/aic8800_fdrv/aic_br_ext.c:1518-1526 | the broadcast bit is set, the other fifteen flag bits and every other word but the checksum are kept, and a request with the bit is left alone |
| `DhcpChecksum.FoldCongruent` | drivers/aic8800/aic8800_fdrv/aic_br_ext.c:1527-1530 | folding keeps a sum modulo 65535 and is zero only for zero |
| `DhcpChecksum.NewCheckCongruent` | drivers/aic8800/aic8800_fdrv/aic_br_ext.c:1524-1531 | modulo 65535 the new checksum is the old one less the whole flags word |
| `DhcpChecksum.RewriteVerifiesIff` | drivers/aic8800/aic8800_fdrv/aic_br_ext.c:1518-1533 | a valid datagram of any length still verifies if and only if its flags were zero or already had the bit |
| `DhcpChecksum.RewriteCanFail` | drivers/aic8800/aic8800_fdrv/aic_br_ext.c:1518-1533 | every request with its right checksum and flags 1 verifies before the rewrite and not after it |
| `FrameQueue.Queue.constructor` | drivers/aic8800/aic8800_fdrv/aicwf_txrxif.c:1183-1194 | an empty queue with a balanced ledger |
| `FrameQueue.Queue.PEnq` | drivers/aic8800/aic8800_fdrv/aicwf_txrxif.c:1150-1164 | appends to its class unless that class alone holds the maximum, and keeps counter and hint right |
| `FrameQueue.Queue.PeekTail` | drivers/aic8800/aic8800_fdrv/aicwf_txrxif.c:1196-1211 | the newest frame of the lowest non-empty class, or none exactly when the queue is empty |
| `FrameQueue.Queue.IsEmpty` | drivers/aic8800/aic8800_fdrv/aicwf_txrxif.c:1213-1224 | true if and only if no frame is queued, although only classes up to the hint are read |
| `FrameQueue.Queue.Dequeue` | drivers/aic8800/aic8800_fdrv/aicwf_txrxif.c:1226-1246 | the oldest frame of the highest non-empty class whenever there is one |
| `FrameQueue.Queue.Enqueue` | drivers/aic8800/aic8800_fdrv/aicwf_txrxif.c:1261-1291 | a full queue admits a frame if and only if a strictly lower class is non-empty, and then replaces the newest frame of the lowest non-empty class, in that class |
| `FrameQueue.Queue.Flush` | drivers/aic8800/aic8800_fdrv/aicwf_txrxif.c:1166-1181 | frees every frame |
| `FrameQueue.OnlyClass` | drivers/aic8800/aic8800_fdrv/aicwf_txrxif.c:1270-1275 | if one class holds every frame, the early refusal agrees with the eviction rule |
| `FrameQueue.AdmitsIff` | drivers/aic8800/aic8800_fdrv/aicwf_txrxif.c:1261-1280 | a frame is admitted if and only if there is room or some lower class has a frame |
| `FrameQueue.EvictionMeaning` | drivers/aic8800/aic8800_fdrv/aicwf_txrxif.c:1274-1287 | in a full queue it takes the place of the newest frame of the lowest non-empty class, which is freed, and nothing else changes |
| `FrameQueue.DequeueMeaning` | drivers/aic8800/aic8800_fdrv/aicwf_txrxif.c:1226-1246 | dequeuing hands out the oldest frame of the highest non-empty class and changes nothing else |
| `FrameQueue.StepBalances` | drivers/aic8800/aic8800_fdrv/aicwf_txrxif.c:1226-1291 | every call keeps admitted = handed out + freed + queued, frame by frame |
| `FrameQueue.RunBalances` | drivers/aic8800/aic8800_fdrv/aicwf_txrxif.c:1150-1291 | so does every run, with at most `qmax` frames queued |
| `PatchTable.ParseEntry` | drivers/aic8800/aic8800_fdrv/aicwf_compat_8800dc.c:2524-2575 | one turn of the loop reads one whole entry within bounds, or reports truncation |
| `PatchTable.Parse` | drivers/aic8800/aic8800_fdrv/aicwf_compat_8800dc.c:2506-2583 | accepts exactly a tag header followed by whole entries, and keeps them in order, for every byte string |
| `PatchTable.AcceptedIsWhole` | drivers/aic8800/aic8800_fdrv/aicwf_compat_8800dc.c:2522-2577 | everything accepted is the concatenation of the entries found |
| `PatchTable.WholeIsAccepted` | drivers/aic8800/aic8800_fdrv/aicwf_compat_8800dc.c:2522-2577 | every concatenation of well-formed entries is accepted and recovered |
| `PatchTable.ReserialiseIff` | drivers/aic8800/aic8800_fdrv/aicwf_compat_8800dc.c:2558-2560 | re-serialising the kept entries restores the file if and only if every data-less entry had length 0 |
| `PatchTable.StrayLengthIsLost` | drivers/aic8800/aic8800_fdrv/aicwf_compat_8800dc.c:2558-2560 | a file of one entry of type 1000 with length 1 is not restored |
| `PatchTable.LoadPairs` | drivers/aic8800/aic8800_fdrv/aicwf_compat_8800dc.c:2470-2479 | issues the pairs of one entry in order up to the first failure |
| `PatchTable.Load` | drivers/aic8800/aic8800_fdrv/aicwf_compat_8800dc.c:2434-2483 | for any entries: the writes are the pairs of the loadable ones in file order with the BTMODE overrides, up to the first failed write or the first BTMODE entry too short for its nine overrides |
| `PatchTable.EmptyBtmodeOverruns` | drivers/aic8800/aic8800_fdrv/aicwf_compat_8800dc.c:2443-2455 | a well-formed BTMODE entry without data is too short for its overrides |
| `PatchTable.Download` | drivers/aic8800/aic8800_fdrv/aicwf_compat_8800dc.c:2506-2583 | for any file: nothing is written unless it parses, and then what its entries say |
| `PatchTable.StopsAtFailure` | drivers/aic8800/aic8800_fdrv/aicwf_compat_8800dc.c:2470-2479 | the writes end with the first failure |
| `PatchTable.TagIsText` | drivers/aic8800/aic8800_fdrv/aicwf_compat_8800dc.c:2514-2519 | the tag is its text with the closing NUL |
| `PatchTable.EntryLayout` | drivers/aic8800/aic8800_fdrv/aicwf_compat_8800dc.c:2544-2575 | name, type, length and data stand at offsets 0, 16, 20 and 24, numbers low-order byte first |
| `PatchTable.PairMeaning` | drivers/aic8800/aic8800_fdrv/aicwf_compat_8800dc.c:2474-2479 | the first word of a pair is the address, the second the value unless it is one of the first nine of a BTMODE entry |
| `PatchTable.BtmodeValues` | drivers/aic8800/aic8800_fdrv/aicwf_compat_8800dc.c:2443-2455 | which setting stands for which of those nine |
| `PatchTable.LoadedTypes` | drivers/aic8800/aic8800_fdrv/aicwf_compat_8800dc.c:2456-2472 | entries of types 0, 4 and 6 write nothing, all others every pair in order |

## Left out

- SDIO transport (`aicwf_sdio.c`), USB transmit aggregation and receive de-aggregation.
- `cmd_mgr_drain`, `cmd_mgr_llind`, non-blocking commands and killed waits: list and counter deliberately diverge there. Every command modelled is blocking and asks for a confirmation, as rwnx_msg_tx.c arranges.
- The bus is up whenever a direct caller tests it before waking the worker in a run (`CommandQueue.WakeIfMore` has it as a parameter).
- `MD5Transform`: the block transform is a parameter, so its rounds and constants are not modelled.
- Md5.Context.Update: requires a chunk for which the 32-bit loop test does not wrap; `WrappedTestOverruns` shows that this excludes exactly the chunks for which the code reads past its input.
- Md5.Context.AbsorbBlocks: the same, stated as the loop test being right from the given offset on.
- Md5.HashChunks: the same for every chunk at the place where it comes; chunks of fewer than 2^32 - 64 bytes always fit.
- TCP header and option parsing in the ACK filter: which frames are pure ACKs or carry PSH is an input. Times are unbounded milliseconds, so jiffies do not wrap. Sending and shutting down are one step each: interleavings inside them are not modelled.
- TcpAckTimers.TimerSendsOwnFlow: assumes that the clock does not go back and that no timer is later than the ageing time of 4 seconds; the driver arms timers for 5 milliseconds.
- TcpAckTimers.StepTimers: the same for the step.
- TcpAckTimers.FreeSlotHasNoTimer: the same.
- TcpAckTimers.ClaimedFlowInOrder: the same.
- IpcTxRing.TxRing.ConfirmOne: frames pushed by callbacks have non-NULL host ids, as `TxDescPush` shows the ring needs; what operations do to a ring that is no longer a FIFO is not modelled.
- IpcTxRing.TxRing.TxConfirm: the same.
- IpcTxRing.TxRing.RunOps: the same, for the whole run.
- DMA addresses, descriptors and the message, receive and debug rings of the IPC.
- The bus restart that reinitialises the USB lists, and the per-station `netif` calls. A refused submission is one step.
- The 12288-byte transfer size, for which the kernel's alignment macro is not meaningful, and overflow of the receive queue after reassembly.
- NAT2.5 handlers of single protocols, IPv6 neighbour discovery, and the print routine. `use_count` is unbounded and time does not wrap.
- PppoeRelay.Packet.AddTag: on a little-endian host with 2052 or more bytes of tailroom the code copies past the tag buffer, which is excluded by its precondition; overflow of the 16-bit PPPoE length is not modelled.
- PppoeRelay.Packet.InsertRelay: excludes the same little-endian case, the same overflow, and lists that are not well formed.
- PppoeRelay.Packet.DetachOld: tag lists are well formed; what it copies from a tag whose length leads outside the packet is not modelled.
- PppoeRelay.Packet.RemoveRelay: the same.
- Allocation failures of the patch-table parser, and what follows an overrun of a BTMODE entry.
- Kernel services (allocation of packets, URBs, timers, locks, netlink, cfg80211), RF tables, vendor and wext handlers, configuration search: thin wrappers or data tables.
