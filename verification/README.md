# Verified model of the Bilbycast gateway SDK

This project models two parts of the gateway SDK in Dafny and proves what they promise:

* the **manager link** (`src/ws_client.rs`, with the backoff of `src/config.rs`): dialling the
  manager, the session that follows, the command worker that outlives it, reconnecting, and the
  drain at shutdown;
* the **upgrade lifecycle** (`src/upgrade/`): staging a version, counting boots, rolling back,
  beats and finalising, over the install root and its `state.json`.

`dafny verify dfyconfig.toml` checks all of it.

## How it is laid out

| file | what it holds |
|---|---|
| `Limits.dfy` | the size, count and time limits |
| `Link.dfy`, `LinkProofs.dfy` | one session's reader and session loop as a step system, and its invariant |
| `Commands.dfy`, `CommandProofs.dfy` | routing a command, the bounded queue and the worker, and their accounting |
| `Manager.dfy`, `ManagerProofs.dfy` | any number of sessions, the one command turn, the outbound channel and shutdown; its invariant |
| `Promises.dfy`, `Progress.dfy`, `Ends.dfy` | what holds of every run of the whole link: safety and waiting, that it gets on, and how sessions end and what the budgets are charged |
| `Reconnect.dfy` | the reconnect loop, its backoff and its credentials |
| `Cadence.dfy`, `Reader.dfy` | how the manager's pings teach the silence limit, and when the verdict falls |
| `Dial.dfy`, `Race.dfy` | the order of the addresses and the staggered connect |
| `Versions.dfy`, `Install.dfy` | collecting old versions, and the install root one file-system call at a time |
| `Upgrade.dfy`, `Outcomes.dfy`, `Lifecycle.dfy`, `Histories.dfy` | the operations on the install root and `state.json`, what each comes to, and what holds over runs of them |

The manager link is a labelled step system: `Enabled` says when a step can be taken and `Apply`
what it does. One poll of a `biased` select is one step. A session's end and the cancelling of its
`session_over` are two steps, as in the source, so a worker can take a command in between:
`Promises.StartsAfterEnd` is a run in which one starts there. A run is any sequence of such steps from the
start, over any number of sessions. The handler's return, its panic and its never returning are all
steps the vendor may or may not take. A write goes through, stalls, fails, or is refused because the
reader has read a Close.

What the source does by changing fields is done so here: `InboundCadence`, the disk, `state.json`
and the upgrader are classes, and the reader, the reconnect loop, the interleaving, the staggered
connect and the garbage collection are loops, each proved against a function that the theorems are
about. The environment of a loop (what is read, which attempt finishes, how a session ends) is a
sequence it is given. Every file-system call draws its fate from an arbitrary function, so a contract
covers every combination of failures, and a theorem over runs names those it excludes; and every
state the disk passes through is logged, so what holds of the log holds wherever the process is cut
off.

## What the proofs found

Where the code and its comments disagree the model follows the code.

* **A refusal keeps its bytes while it is written.** A command refused because 64 wait still holds
  its share of the command budget until its `gateway_busy` ack is written, since the permit lives as
  long as the match arm (`src/ws_client.rs:1168-1170`). The budget proofs count it.
* **The closed-queue error cannot happen while the runtime runs.** A live session's worker still has
  its queue, so "the command worker has stopped" (`src/ws_client.rs:1173-1175`) is not returned, but
  for a command's task cancelled by the runtime's own shutdown (`src/ws_client.rs:1305-1310`), which is
  not modelled.
* **A panic's ack can delay letting a queue go.** A worker that is sending a `handler_panicked` ack
  when its session ends lets its queue go only after that send, which waits while the outbound
  channel is full (`src/ws_client.rs:1305-1321`). A running or hung handler never delays it.
* **A steady manager's margin is exact.** Gaps between `lo` and `hi` are safe exactly when
  `hi <= max(90 s, 4 * min(lo, 300 s))`.
* **A long wait can drop a steady manager.** The gaps the cadence learns are those between reads, not
  arrivals. Pings that arrive during one long handover wait are read all at once and teach it gaps of
  nothing, so the limit falls to its 90 s floor: a manager that pings every 100 s can then be dropped
  between two of its pings. Judged by arrivals, a manager is safe whatever the waits exactly when its
  pings arrive at most 90 s apart.
* **Staging is crash-safe exactly when it spares what `current` points at.** A `current` that points
  at the new version by a relative path, or at its `.partial` directory, is broken on the way by a
  run in which every call works (`src/upgrade/apply.rs:39-45`). Links this code writes are absolute.
* **A rollback target can be collected.** Garbage collection pins only the new version
  (`src/upgrade/apply.rs:137`). Collected, the rollback changes nothing, and the boot after it
  records the failed version as stable.
* **A second stage forgets the good version.** A version can be staged before the one staged last has
  been seen healthy, and the pending version is then recorded as the one to go back to
  (`src/upgrade/mod.rs:380-387`). Failed boots end, stable, on a version never seen healthy; staging one
  version twice makes it its own way back. A failed stage leaves things as if it had never been made
  exactly when the version recorded at it was not itself pending (with another to go back to).
* **A rollback that cannot move the link is recorded all the same.** If making or renaming the new link
  fails the status still becomes rolled back (`src/upgrade/watchdog.rs:82-86`), and the next boot settles,
  stable, on the failed version, with the version before still there. Only a rollback whose save fails is
  tried again.
* **A rollback trusts a directory.** It asks only that the previous version's directory be there, not
  that it be complete (`src/upgrade/watchdog.rs:166-169`): a version being staged again whose removal fails
  part-way is gone back to as it is left. And it leaves the `previous` link alone, so
  that link is not the recorded `previous_version` the comment at `src/upgrade/state.rs:57` says it is.
* **The swap comes before the record.** `current` moves before `state.json` is saved
  (`src/upgrade/mod.rs:370-396`), so a stage cut off in between, over a stable version or a record that
  cannot be read, is counted by no boot and undone by none.
* **The largest limit never rolls back.** With `max_boot_attempts` the largest u32 the counter
  saturates without passing it.
* **A torn record forgets its sequence.** The boot counter is rewritten in place
  (`src/upgrade/state.rs:215-217`); cut off, it leaves nothing readable, and the sequence check is
  skipped for a state that cannot be read (`src/upgrade/mod.rs:329`), although
  `src/upgrade/state.rs:80-83` calls the sequence strictly monotonic.
* **`manual_only` stages nothing.** Its error says "staged successfully" (`src/upgrade/mod.rs:363-368`)
  but nothing is unpacked or recorded, so no state ever has the status a manual apply asks for.

## Model

| member | source | states |
|---|---|---|
| Promises.NeverOverlap | src/ws_client.rs:1222-1311 | in every state of every run, over any number of sessions, at most one command is taken, in its handler, or panicked and not yet acked |
| Promises.StartsInOrder | src/ws_client.rs:1269-1307 | the log of starts only grows, holds exactly the commands started, has every start of an earlier session before every start of a later one, and within a session starts a prefix of the accepted commands in order |
| Promises.NothingStartsAfterOver | src/ws_client.rs:1240-1254 | from the moment a session's `session_over` is set it stays set and no command of that session starts that had not |
| Promises.StartsAfterEnd | src/ws_client.rs:1240-1246 | a run in which a command starts after its session has ended and before it is over |
| Progress.WorkerGetsOn | src/ws_client.rs:1255-1311 | the worker of a live session has a next step wherever it is, the vendor's handler running aside or waiting for room; an idle one takes whatever heads its queue; and every step but that one brings the next taking strictly nearer |
| Progress.LiveQueueIsServed | src/ws_client.rs:1269-1288 | in every reachable state with a command queued in the live session, the turn's holder has a step of its own unless the handler runs or it waits on a full channel, and a free turn is asked for, granted, or a place in the line given up |
| Progress.CommandIsReached | src/ws_client.rs:1275-1308 | over any stretch of a run with its session alive, a command stays queued for at most six steps of its worker for each command up to it in the queue and five for the one running |
| Progress.AnythingCanBeRead | src/ws_client.rs:976-1031 | a reading reader can read any ping, any text up to the cap, any other frame and every end of the stream, and its waits end as soon as there is budget or room |
| Progress.AnythingCanComeOut | src/ws_client.rs:1121-1139 | a write may come out in each of its ways, and a session sees shutdown as soon as it is asked for |
| Progress.RunGoesOn | src/ws_client.rs:379-454 | `run` has a next step in every phase: it dials, sees an ended session out, and once shutdown is asked for leaves, closes the channel and waits for the turn no longer than it has to |
| Promises.Accounted | src/ws_client.rs:1144-1210 | every routed command stays routed; queued means in the queue; refused, finished and dropped ones never change again. (Its count of acks follows the place by definition: that the acks are really made is EveryFrameAnswered for the refused and EachFinishedAckedOnce for the finished) |
| Promises.EveryFrameAnswered | src/ws_client.rs:1062-1108 | the commands routed are those received, each ping got the pong of its kind in order, each refused command and no other got one refusal, and a session closed by the manager has routed every command read |
| Promises.EachFinishedAckedOnce | src/ws_client.rs:1316-1330 | an ack enters the outbound channel at most once and only for a finished command, a panicked one included; until shutdown closes the channel each finished command's ack is there or that command's own sender still waits for room |
| Promises.AckBeforeResponse | src/ws_client.rs:1358-1374 | a config response is always behind the ack of its own command |
| Ends.EachConfigAnsweredOnce | src/ws_client.rs:1371-1374 | a config response enters the outbound channel at most once and only for a command whose handler answered a `get_config`, and until shutdown closes the channel it is there once its sender is past it |
| Ends.ConfigIsHowItReturned | src/ws_client.rs:1371-1379 | and whether it did is how its handler returned |
| Promises.BudgetsConserved | src/ws_client.rs:145-188 | in every reachable state free permits and the bytes held add up to the budget, for the inbound and the command budget of every session; an ended session whose worker has let its queue go has all but a just-taken command's bytes back |
| Ends.LengthsConserved | src/ws_client.rs:1164-1168 | in every reachable state the free command bytes and the lengths of the command frames received that wait, or are being refused for a full queue, make up the budget, so those waiting never pass it |
| Ends.RefusedByLength | src/ws_client.rs:1164-1176 | over every run a command is refused exactly when 64 wait or its frame's length and those waiting pass 20 MiB, and otherwise joins the queue with its frame's length |
| Promises.BlockedReaderIsServed | src/ws_client.rs:998-1021 | while the reader waits for budget or room the loop has a step to take, and any it takes strictly lowers the work left without ending the session |
| Promises.BlockedReaderIsLetGo | src/ws_client.rs:995-1021 | over any stretch of a run in which the reader stays blocked, the loop takes fewer steps than there was work in front of the reader when its wait began |
| Promises.LoopNeverStuck | src/ws_client.rs:1046-1049 | the loop of a live session waits for a heartbeat only when there is nothing to take from either channel, and the stall bound can always end a write it is in |
| Promises.BlockedWorkerIsServed | src/ws_client.rs:1090-1093 | a worker of any session that waits for room in the outbound channel waits only for the loop, whose next step makes room or lowers the work before it does: reader, loop and worker are never all blocked |
| Promises.BlockedWorkerIsLetGo | src/ws_client.rs:1046-1049 | over any stretch of a run in which the outbound channel stays full, the loop takes no more steps than there was work in front of it at the start and three for each item the reader hands over meanwhile |
| Promises.ShutdownDrains | src/ws_client.rs:439-454 | once `run` has left its loop no command ever starts, and once it is granted the turn none is running, ever |
| Promises.DrainNeverStuck | src/ws_client.rs:439-454 | while `run` waits for the turn, its holder has a step of its own unless the vendor's handler runs, and with no holder `run` or a worker giving up its place can go on: a full outbound channel delays neither |
| Promises.EveryWorkerStepSeesOut | src/ws_client.rs:1298-1303 | every step of a worker whose session is over brings its return strictly nearer |
| Promises.AtMostOneWorkerLingers | src/ws_client.rs:1262-1273 | however many sessions have ended, at most one of their workers is more than one enabled step from having returned, and it holds the turn |
| Promises.CloseResetsBackoff | src/ws_client.rs:395-417 | a session whose reader has read a Close, or the end of the stream, ends as closed by the manager, and the backoff starts over, unless shutdown, a stalled write or a failed write ended it |
| Ends.EndsAsRead | src/ws_client.rs:1076-1087 | in every reachable state a session has ended as closed exactly if the last item taken is a Close or the end of the stream, as lost on a read error exactly if it is a failed read, and for shutdown only if that was asked for |
| Ends.SessionOutcome | src/ws_client.rs:395-417 | after a Close or the end of the stream `run` goes on with the backoff starting over, after any loss with it one further, and it leaves its loop only on a session ended for a shutdown that was asked for |
| Ends.LeavesOnlyForShutdown | src/ws_client.rs:379-437 | no session's end and no failed dial stops the gateway: `run` leaves its loop only once shutdown was asked for |
| Ends.EndHasItsCause | src/ws_client.rs:600-622 | each way a session ends comes of the one step that gives it its name |
| Ends.AttemptIsOfPasses | src/ws_client.rs:395-417 | over every run the attempt counter is the number of failed dials and sessions since the last clean close, saturated |
| Promises.HandedOverInOrder | src/ws_client.rs:951-953 | what the loop has received, has waiting and is being handed is what was read, in order, short of pings only; on a close, all of it |
| Ends.NothingLostWithRoom | src/ws_client.rs:986-992 | a session whose channel had room at each ping loses none of what was read |
| ManagerProofs.InvKept | src/ws_client.rs:576-635 | every step of the link keeps the whole invariant: sessions, shares of the budget, turn, line, log of starts, acks, responses, shutdown |
| ManagerProofs.Reachable | src/ws_client.rs:375-458 | the invariant holds in every state of every run |
| ManagerProofs.LineStep | src/ws_client.rs:1269-1273 | those waiting for the turn wait in session order with `run` last, and exactly those that asked and have neither got it nor given up are in line |
| ManagerProofs.RouteFindsWorker | src/ws_client.rs:1171-1175 | a live session's loop never finds the worker's queue closed, short of the runtime cancelling a command's task |
| ManagerProofs.AckSentOnce | src/ws_client.rs:1371-1379 | no step puts an ack into the channel twice |
| LinkProofs.InvKept | src/ws_client.rs:963-1109 | every step of reader and loop keeps the byte budget, the bounds, the order and the terminal item last; a Close or the end of the stream once taken has ended the session as closed, a failed read as lost |
| LinkProofs.TakenInReadOrder | src/ws_client.rs:951-953 | the loop has received a prefix of the non-ping items read, with nothing after a terminal one |
| LinkProofs.EverythingReadWasTaken | src/ws_client.rs:1076-1087 | a session ended on a terminal item has received everything read before it, and nothing is left behind |
| LinkProofs.CloseIsNotLoss | src/ws_client.rs:1113-1132 | once a Close or the end of the stream has been read the session cannot end as silent or on a read error |
| LinkProofs.CloseDrains | src/ws_client.rs:1113-1132 | after a Close is read every step that is not a failure ends the session as closed or strictly lowers what is left to do, but for an outbound frame or heartbeat begun while the reader can hand the Close over |
| LinkProofs.CloseNeverStuck | src/ws_client.rs:1113-1132 | and until it has ended there is a step that gets on with it |
| LinkProofs.ReaderBlockedMeansLoopHasWork | src/ws_client.rs:995-1021 | a blocked reader means the loop has an item, a route or a write in hand, and every loop step lowers that work |
| CommandProofs.InvKept | src/ws_client.rs:1255-1383 | every worker step keeps one place per command, acks matching places, at most one in flight, started ones first, and the budget |
| CommandProofs.RouteKeepsInv | src/ws_client.rs:1156-1176 | so does routing, whichever way it goes |
| CommandProofs.RefusedExactlyWhenFull | src/ws_client.rs:1164-1176 | a command is refused exactly when 64 wait or too few bytes are free, never while at most three hold budget, and a refusal leaves the budget as it was once written |
| CommandProofs.StepGrows | src/ws_client.rs:1255-1311 | a command only moves forward through its places and its acks never fall |
| CommandProofs.FinalStays | src/ws_client.rs:1233-1238 | refused, finished and dropped are final |
| CommandProofs.StartsOnlyByTaking | src/ws_client.rs:1276-1288 | a command starts only by being taken from the queue, oldest first |
| CommandProofs.AcksDoneBySending | src/ws_client.rs:1316-1329 | a command's ack is done with exactly when its task, or after a panic the worker, sends it |
| CommandProofs.WorkerSeesOut | src/ws_client.rs:1298-1310 | a worker whose session is over only moves towards its return, can always move unless it waits on the handler or on room in the channel, and its handler may still return or panic |
| CommandProofs.QueueLetGoPromptly | src/ws_client.rs:1292-1303 | an ended session's queue goes at the worker's next step, a running handler notwithstanding, or at the one after if its command has just returned; only a panic's ack comes first, and once that is sent the next step lets the queue go |
| CommandProofs.QueueGoneFreesBudget | src/ws_client.rs:1233-1238 | with the queue gone nothing is queued and all of the budget is free but for a just-taken command and a refusal being written |
| Reconnect.Run | src/ws_client.rs:375-437 | which URL each pass dials, by a cursor that wraps, how long it waits after each, and when it stops, for every history of outcomes |
| Reconnect.MadeExactly | src/ws_client.rs:379-437 | a pass is made exactly if none before it ended in a shutdown or was followed by one |
| Reconnect.UrlsInTurn | src/ws_client.rs:385-416 | the URLs are dialled in their order, from the first, round and round |
| Reconnect.EveryUrlIsDialled | src/ws_client.rs:385-416 | each within any as many passes in a row as there are, up to the wrap of the cursor |
| Reconnect.AttemptIsStreak | src/ws_client.rs:395-417 | the attempt counter is the number of passes since the last clean close, saturated at u32 |
| Reconnect.DelayByStreak | src/config.rs:236-242 | the wait depends only on that streak: the first step right after a clean close, the last step for good, 5 s with no steps; a lost session resets nothing |
| Reconnect.CanAlwaysAuthenticate | src/ws_client.rs:484-556 | a validated client can authenticate after any replies, and once registered always with the identity it was last given rather than its token |
| Reconnect.OffersWhatItHas | src/ws_client.rs:493-501 | until it is given an identity a client offers the one configured, or else its token |
| Reconnect.RegisteringSpendsToken | src/ws_client.rs:541-548 | once it has registered no token is left |
| Cadence.InboundCadence.constructor | src/ws_client.rs:883-890 | a cadence with no gaps, stamped with the session's start |
| Cadence.InboundCadence.OnFrame | src/ws_client.rs:893-895 | the new state, and that only the frame stamp changes |
| Cadence.InboundCadence.OnPing | src/ws_client.rs:898-907 | the new state: one more capped gap, the oldest gone if eight were held |
| Cadence.InboundCadence.SilenceLimit | src/ws_client.rs:911-918 | the limit of the state, and none before the first ping |
| Cadence.InboundCadence.DeadFor | src/ws_client.rs:922-926 | the silence and its limit exactly when past it |
| Cadence.SortSorts | src/ws_client.rs:912-913 | the sort orders the gaps and keeps each of them |
| Cadence.MedianByCounting | src/ws_client.rs:914-916 | the upper median is above a bound exactly when at least k - k/2 of the k gaps are |
| Cadence.LimitIsRobust | src/ws_client.rs:870-873 | a minority of long gaps cannot raise the limit past four times a bound, half of short ones cannot lower it, and it is always within 90 s and 1200 s |
| Cadence.WindowOnHistory | src/ws_client.rs:898-907 | the deque is exactly the last eight capped gaps of the whole ping history |
| Reader.ReadManager | src/ws_client.rs:963-1039 | the loop over the cadence gives exactly the verdict, or the waiting or parked reader, that the events call for |
| Reader.ParkedForGood | src/ws_client.rs:1020-1022 | once a Close or the end of the stream is read with no verdict before, the reader is parked after everything that follows and gives none |
| Reader.ParkedExactly | src/ws_client.rs:1020-1022 | and it is parked only then |
| Reader.GapsAreOfItsPings | src/ws_client.rs:983-1029 | the gaps a reader holds are the last eight, capped, between all the pings it has read |
| Reader.VerdictIsSound | src/ws_client.rs:1024-1035 | the verdict is given exactly when a check finds a ping has come and nothing has been read and nothing has waited on the loop for longer than the limit |
| Reader.VerdictIsTimely | src/ws_client.rs:973-974 | a check in the limit changes nothing and one past it gives the verdict, and a check is at most 5 s, and the poll's lateness, past the limit |
| Reader.VerdictComes | src/ws_client.rs:972-1037 | once armed, with nothing read and no wait since, the verdict has been given, against the limit there was, by any time past the limit by more than 5 s and the poll's lateness |
| Reader.IdleChecksRunOut | src/ws_client.rs:973-974 | checks with nothing heard in between and no verdict are on a 5 s grid, and no more of them fit in the limit than its length allows |
| Reader.SteadyNeverDropped | src/ws_client.rs:862-873 | with the gaps between the pings as read all in [lo, hi] and hi at most max(90 s, 4 min(lo, 300 s)) no verdict is ever given, whatever else is read and whatever waits come in between |
| Reader.SteadyExactly | src/ws_client.rs:862-873 | and that bound is exact: with any larger hi some steady manager is dropped, by a reader whose checks are on their grid and at most one spacing late |
| Reader.ArrivalsNeverDropped | src/ws_client.rs:972-1037 | pings that arrive at most 90 s apart keep the session whatever the reader waits for and for however long |
| Reader.ArrivalsExactly | src/ws_client.rs:1024-1029 | and no more than that is safe by arrivals: with any larger gap allowed some manager is dropped, after no wait or one no longer than twenty slow writes, in a run whose pings are read as soon as they can be |
| Dial.InterleaveFamilies | src/ws_client.rs:766-781 | the loop produces the alternating order |
| Dial.InterleavingKeeps | src/ws_client.rs:761-765 | no address is lost or made up and each family keeps the resolver's order |
| Dial.InterleavingAlternates | src/ws_client.rs:761-765 | the families alternate while both last, the first address leads, and the other family's first is second |
| Race.ConnectStaggered | src/ws_client.rs:804-858 | the loop comes to what the events of the attempts and the timer call for, however late it is polled |
| Race.RacingIs | src/ws_client.rs:822-856 | one address is started per pass, in order and each once; in flight are exactly those started and not failed |
| Race.RacingRemembers | src/ws_client.rs:849-852 | the last error kept is the last failure seen, and the stagger is timed from the last pass |
| Race.NextIsExactly | src/ws_client.rs:836-856 | while the loop waits any attempt started and not failed may connect or fail at any time, the stagger runs out when it is over if an address is left, and nothing else can happen |
| Race.WaitsUntil | src/ws_client.rs:830-846 | the loop waits exactly until an attempt connects or every address has failed |
| Race.ConnectedTo | src/ws_client.rs:840-846 | the winner was started and had not failed, and `abandoned` is exactly, in start order, those before it neither connected nor failed |
| Race.FailsOnlyWhenAllHave | src/ws_client.rs:830-834 | the dial errs exactly when every address has failed, with the last failure, or NotFound for none |
| Race.RaceEnds | src/ws_client.rs:822-857 | every event lowers a measure below twice the number of addresses |
| Race.StartedInTime | src/ws_client.rs:794-798 | while nothing has connected the k-th address is started within k staggers, each as late as the dial is polled |
| Race.OtherFamilyIsTried | src/ws_client.rs:761-765 | over the interleaved order the first address of the other family is started within one stagger (and the poll's lateness), however many silent ones share the first family |
| Versions.CollectionKeepsNewest | src/upgrade/apply.rs:130-152 | what is left is the pinned version and the `keep` newest others, all if fewer; no other partial directory is left, and nothing removed is newer than one kept |
| Versions.NewestFirstIsStable | src/upgrade/apply.rs:147 | versions as new as each other keep the order they were listed in |
| Versions.SurvivesIfRecent | src/upgrade/apply.rs:146-150 | a version survives if at most `keep` candidates, itself included, are as new, and only if fewer than `keep` are newer |
| Install.Disk.StageNewVersion | src/upgrade/apply.rs:19-71 | whatever calls fail and wherever it is cut off, `current` points at a complete version if staging spares it, and a faultless run passes through a broken state if not; the disk after success |
| Install.Disk.MakeRoom | src/upgrade/apply.rs:39-49 | which directories go, when the version is already in place, and that this is where an unspared `current` breaks |
| Install.Disk.Unpack | src/upgrade/apply.rs:50-67 | success leaves the whole version in place, and no intermediate state touches what `current` points at |
| Install.Disk.SwapCurrentSymlink | src/upgrade/apply.rs:113-128 | `current` moves exactly on success, `previous` gets the old target, and `current` never dangles on the way if it does not at either end |
| Install.Disk.GcVersions | src/upgrade/apply.rs:130-152 | without faults the result is the collection; with any faults the pinned version is untouched and `current` stays sound |
| Upgrade.StateFile.Save | src/upgrade/state.rs:128-169 | over a readable file every moment holds the old state or the new one, and it holds the new one exactly on success |
| Upgrade.StateFile.BumpBootAttempts | src/upgrade/state.rs:202-222 | counts one boot, saturating; on the way the file cannot be read |
| Upgrade.Upgrader.StageVersion | src/upgrade/mod.rs:244-421 | the checks in order, a stage already under way first; what is staged and recorded, for every failure; crash safety of the disk |
| Outcomes.StagedExactly | src/upgrade/mod.rs:255-421 | a version is staged exactly if no stage is under way, upgrades are enabled, the channel is allowed, the manifest was got and is newer than a readable record, the tarball was got, `manual_only` is off, the unpack worked and the record was saved |
| Outcomes.FirstRefusal | src/upgrade/mod.rs:244-401 | the first check to fail gives the code, and until all have passed neither disk nor record is touched |
| Outcomes.StagedLinks | src/upgrade/apply.rs:113-123 | staging leaves `previous` where `current` was, unless the version was current already, and `current` at the new version |
| Upgrade.Upgrader.RunBootWatchdog | src/upgrade/watchdog.rs:30-104 | what each boot does to the record and to `current`, for every failure, and that `current` is sound at every moment if it is before and after |
| Outcomes.BootLeavesAlone | src/upgrade/watchdog.rs:34-50 | a boot touches nothing and goes on when upgrades are off or the record is unreadable, stable or staged for manual apply |
| Outcomes.BootActsOnlyThen | src/upgrade/watchdog.rs:51-101 | when exactly a boot moves the link, exits, reports or fails |
| Upgrade.Upgrader.RevertToPrevious | src/upgrade/watchdog.rs:161-178 | succeeds only if the previous version's directory is there, moves only `current`, and keeps it sound on the way |
| Upgrade.Upgrader.RecordHealthyBeat | src/upgrade/watchdog.rs:106-114 | the record after a beat |
| Outcomes.BeatShows | src/upgrade/watchdog.rs:106-114 | a saved beat shows in a pending record and nowhere else |
| Upgrade.Upgrader.FinalizeIfStable | src/upgrade/watchdog.rs:116-131 | the record becomes stable exactly when pending, old enough by its age cut to a u32, and with a beat in the last minute |
| Upgrade.Upgrader.ManualApplyPending | src/upgrade/apply.rs:154-169 | when it refuses, that `current` moves to the staged version exactly when the swap succeeds, that no directory changes, what it records, and that `current` is sound on the way |
| Outcomes.ManualApplyExactly | src/upgrade/apply.rs:154-169 | a manual apply succeeds exactly over a version staged for it whose directory is there, if the swap and the save work, and leaves it pending with no boot counted |
| Lifecycle.BootsAreCounted | src/upgrade/watchdog.rs:76-101 | up to the limit every boot of a pending version whose count is written is let go on and only counted, from whatever count it has |
| Lifecycle.PastTheLimit | src/upgrade/watchdog.rs:78-99 | with every boot counted and every save made, the boot past the limit rolls back, exactly if the previous directory is there and the link moves, and the next settles to stable on whatever is then recorded |
| Lifecycle.StillPending | src/upgrade/watchdog.rs:76-86 | until a boot past the limit saves its rollback, whatever fails, the record stays pending but for its count, so the rollback is tried again |
| Lifecycle.Decided | src/upgrade/watchdog.rs:51-86 | from then on the record names the version before exactly if that boot found it and moved the link, and settles to stable at the first save |
| Lifecycle.TornCountIsNeverUndone | src/upgrade/state.rs:215-217 | a count torn before that leaves nothing to read, and no boots after it roll anything back |
| Lifecycle.NeverPastTheLargestLimit | src/upgrade/state.rs:212-213 | with the largest u32 as limit no number of failed boots rolls back, whatever else fails short of a torn count |
| Lifecycle.StageThenFailedBootsUndo | src/upgrade/mod.rs:370-401 | stage, then fail every boot, each counted and saved: exactly the boot past the limit rolls back, and `current` and the recorded version are as before the stage exactly when the old version survived collection and that boot could move the link (or they were the same version), else both are left at the new one; on a first upgrade, with nothing recorded, the old version is the one running |
| Lifecycle.StageThenAnyBoots | src/upgrade/watchdog.rs:76-99 | the same over boots in which anything may fail short of a torn count: the first boot past the limit that saves its rollback decides, and what it left is recorded from then on; `current` may have moved before |
| Lifecycle.FailedBootsSettle | src/upgrade/watchdog.rs:48-103 | from any readable record, two boots past the limit, each counted and saved, everything has settled on the version before if a pending one's rollback finds it and moves the link, else on the one recorded |
| Lifecycle.FailedStageUndoneExactly | src/upgrade/mod.rs:379-395 | a stage whose boots all fail, their own calls working, ends where failed boots would have ended without it exactly when the version recorded at it was not itself pending with another to go back to (and survived collection) |
| Lifecycle.StagedTwiceForgets | src/upgrade/mod.rs:379-395 | after two stages in a row, failed boots whose own calls work settle as stable on the first of the two, or on the second if the first was collected, and the version before both is recorded nowhere |
| Lifecycle.UnsavedStageIsNeverUndone | src/upgrade/mod.rs:370-401 | a stage over a stable version, or over no readable record, whose save is not written leaves the new version current, and no boots undo it, whatever becomes of them |
| Lifecycle.UnsavedStageUndoneExactly | src/upgrade/mod.rs:370-401 | over a readable record failed boots undo such a stage exactly when the record was pending and its rollback finds another version and moves the link |
| Lifecycle.RollbackTargetSurvives | src/upgrade/apply.rs:69 | the version before survives its successor's collection if at most two other old versions are as new, and only if at most two are newer |
| Lifecycle.RevertSafeExactly | src/upgrade/watchdog.rs:166-174 | a rollback leaves `current` at a complete version exactly when the one it goes back to is complete |
| Lifecycle.SequenceNeverFalls | src/upgrade/mod.rs:328-336 | over any run of the operations from a readable record in which no boot's count is torn, the recorded sequence never falls and rises exactly at accepted stages |
| Lifecycle.TornStateAcceptsOlder | src/upgrade/mod.rs:329-336 | after a torn boot count any sequence is accepted, where before it only a higher one was |
| Lifecycle.ManualApplyNeverSucceeds | src/upgrade/mod.rs:363-368 | from any state not staged for manual apply, no run of the operations makes a manual apply succeed |
| Lifecycle.BeatsOnRecordWereRecorded | src/upgrade/watchdog.rs:106-114 | a beat on record for a pending version was recorded while that version was pending, with no stage since |
| Lifecycle.FinalisedOnlyIfHealthy | src/upgrade/watchdog.rs:122-131 | a version becomes stable by finalising only if it was staged at least the health window ago and a healthy beat was recorded while it was pending, in the last minute and with no stage since |
| Outcomes.FinalisedExactly | src/upgrade/watchdog.rs:122-131 | over every run a finalise that is saved makes a version stable exactly if it is pending, old enough by its age as a u32, and a beat of the last minute was recorded while it was pending with no stage since |
| Histories.BeatsBetweenBoots | src/upgrade/watchdog.rs:106-114 | in any history of boots and beats, whatever fails, each boot comes out as it would without the beats |
| Histories.BeatsDoNotSave | src/upgrade/watchdog.rs:76-99 | a version that reports healthy between boots but keeps failing comes to what it would without the beats, whatever fails short of a torn count: back to the version before by the first boot past the limit that saves its rollback, exactly if that survived and the link moves |
| Histories.RecordStaysCurrent | src/upgrade/state.rs:55-56 | over every run in which calls work the recorded version is the one `current` points at |
| Histories.Play | src/upgrade/watchdog.rs:161-178 | any sequence of calls of the five operations on the upgrader, any of whose file-system calls may fail, is a run of them; and if each stage spares what `current` points at and each rollback or manual apply has a complete version to go to, `current` points at a complete version at every moment the disk passes through |
| Histories.RollBackToIncomplete | src/upgrade/watchdog.rs:166-174 | without that care it does not: over a pending version, staging the one before it again fails part-way in removing it, and the boot past the limit then puts `current` at what is left |
| Histories.ReachIncomplete | src/upgrade/apply.rs:42-45 | and such a state is reached from a fresh install |
| Histories.TidyStaysSound | src/upgrade/watchdog.rs:161-178 | over every run in which calls work that holds of itself: from complete version directories no rollback ever meets an incomplete one |

## Left out

Of the manager link:

* Sockets, TLS, DNS, the HTTP upgrade and the WebSocket library: a write goes through, stalls, fails or
  is refused after a Close; a read yields a text frame of at most 5 MiB, a ping, another frame, or an end.
* JSON, envelopes, timestamps and logging: a frame is its length and its kind, a command its number.
* The session system is on values rather than on classes of channels and tasks: what is shared between
  the tasks is in one state, and each label is one atomic step on it. Aliasing of those objects is not
  captured.
* The silence verdict may come at any moment the reader reads in the session system; when it comes is
  proved of the timed reader in `Reader.dfy`.
* Time in the session system: the 300 s write bound, the 2 s Close and the 30 s drain appear as steps that
  may be taken, not as clocks; heartbeats may be sent whenever the loop waits.
* Fairness: the biased select lets an unending flood of inbound frames hold outbound frames back, so
  progress is stated as a step that is there and a measure that falls, not as an event that comes.
* Partial assignment of semaphore permits to a waiting reader: it gets all it asks for in one step.
* `run` being dropped part-way.
* Authentication exchanges but for which credentials are offered, `DIAL_TIMEOUT` and the other overall
  deadlines, `ConnectionState`, and `validate` but for its facts about credentials and a non-empty list of URLs.

- Promises.LoopNeverStuck: does not model when the socket takes a write or a heartbeat falls due: a write may
  end, and a heartbeat come, at any time.
- ManagerProofs.RouteFindsWorker: does not model the worker's return when the runtime cancels its command's
  task (`src/ws_client.rs:1308-1310`).

Of the upgrade lifecycle:

* Fetching, signature and certificate checks, the manifest and the tarball's checksum: they are oracles, and
  the version window and everything else up to a validated manifest is one of them, so of the errors before
  the sequence check only their order as a group is modelled.
* Tar and gzip: extracting fills a directory or fails part-way; so does placing the binary, with its mode and
  the move within the directory.
* How the in-flight guard is held, file locks and races between processes: operations come one after
  another, and that another stage is under way is a fact of the request.
* Channel, variant and architecture labels in the record, the events sent, and the 5 s tick that finalises.
* A `state.json.tmp` left over from a failed save, which makes later saves of the same process fail.
* Directory entries whose metadata cannot be read, which collection passes over.
* The unstable and stable library sorts are functions with the same result, not their algorithms.

Not modelled at all: the emitters, events, wizards, TLS configuration, auth frames and error types, which are
builders and plumbing.
