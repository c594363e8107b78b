/** One session's commands: what `route_inbound` does with each, its bounded queue, and the
    worker (`run_commands`, `run_command`, `finish_command`) that runs them. A state machine, as
    in `Link`: `Enabled` and `Apply` per label. */
module Commands {
  import opened Limits

  datatype Status =
    | Refused
    | Queued
    | Taken      // its task is spawned, its bytes still held
    | Running    // in the vendor's handler
    | Panicked   // the handler panicked, and no ack has been tried yet
    | Finished   // its one ack has been tried
    | Dropped

  /** A command the loop has routed, how many acks have been tried for it, and whether its handler
      has answered a `get_config`. */
  datatype Command = Command(status: Status, acks: nat, config: bool := false)

  /** A command in the queue, with its share of the command budget. */
  datatype QueuedCommand = QueuedCommand(id: nat, held: nat)

  /** The task running one command. */
  datatype Task =
    | NotBegun(held: nat)
    | Handling
    | Acking(config: bool)  // sending the ack; a get_config has a response to send after it
    | Responding            // sending the config response
    | Done
    | Unwound               // the handler panicked

  /** Where the worker is. `released` is set once it has let its queue go with a command running. */
  datatype Worker =
    | Spawned
    | InLine
    | Idle
    | Seeing(id: nat, task: Task, released: bool)
    | AckingPanic(id: nat, released: bool)
    | Returned

  /** `commands` has every command routed, in that order. `refusal` is the share of the budget a
      command refused for a full queue keeps while its refusal is written. */
  datatype Work = Work(
    worker: Worker,
    queue: seq<QueuedCommand>,
    free: int,
    refusal: nat,
    commands: seq<Command>)

  const FRESH := Work(Spawned, [], COMMAND_QUEUE_BYTES, 0, [])

  /** What a worker sees of the rest: whether `session_over` is set, whether the loop has dropped
      the sending half of the queue, and whether a send on the outbound channel returns at once. */
  datatype View = View(over: bool, ended: bool, canSend: bool)

  datatype Label =
    | Ask
    | Grant
    | GiveUp
    | Stop
    | QueueClosed
    | TakeCommand
    | Begin
    | HandlerReturns(config: bool)
    | HandlerPanics
    | TaskAcks
    | TaskResponds
    | NoticeOver
    | Join
    | PanicAcked

  predicate HoldsTurn(w: Worker) {
    w.Idle? || w.Seeing? || w.AckingPanic?
  }

  predicate QueueGone(w: Worker) {
    w.Returned? || (w.Seeing? && w.released) || (w.AckingPanic? && w.released)
  }

  // ── Routing ────────────────────────────────────────────────────────

  datatype Routed = Accepted | Busy(id: nat) | WorkerGone

  function Route(w: Work, cost: nat): (r: (Routed, Work)) {
    var id := |w.commands|;
    if w.free < cost then
      (Busy(id), w.(commands := w.commands + [Command(Refused, 1)]))
    else if QueueGone(w.worker) then
      (WorkerGone, w)
    else if |w.queue| >= COMMAND_QUEUE_SIZE then
      (Busy(id), w.(commands := w.commands + [Command(Refused, 1)], free := w.free - cost, refusal := cost))
    else
      (Accepted, w.(commands := w.commands + [Command(Queued, 0)], free := w.free - cost,
                    queue := w.queue + [QueuedCommand(id, cost)]))
  }

  /** The loop lets go of what a refusal held: it has been written, or the session has ended. */
  function EndRefusal(w: Work): Work {
    w.(free := w.free + w.refusal, refusal := 0)
  }

  // ── The worker ─────────────────────────────────────────────────────

  predicate Enabled(w: Work, step: Label, v: View) {
    match step
    case Ask => w.worker.Spawned? && !v.over
    case Grant => w.worker.InLine? && !v.over
    case GiveUp => (w.worker.Spawned? || w.worker.InLine?) && v.over
    case Stop => w.worker.Idle? && v.over
    case QueueClosed => w.worker.Idle? && !v.over && v.ended && w.queue == []
    case TakeCommand => w.worker.Idle? && !v.over && w.queue != []
    case Begin => w.worker.Seeing? && w.worker.task.NotBegun?
    case HandlerReturns(_) | HandlerPanics => w.worker.Seeing? && w.worker.task.Handling?
    case TaskAcks => w.worker.Seeing? && w.worker.task.Acking? && v.canSend
    case TaskResponds => w.worker.Seeing? && w.worker.task.Responding? && v.canSend
    // the select is biased: a finished task is joined first
    case NoticeOver => w.worker.Seeing? && !w.worker.released && v.over && !Joinable(w.worker.task)
    case Join => w.worker.Seeing? && Joinable(w.worker.task)
    case PanicAcked => w.worker.AckingPanic? && v.canSend
  }

  predicate Joinable(t: Task) {
    t.Done? || t.Unwound?
  }

  function SetStatus(cs: seq<Command>, id: nat, c: Command): (r: seq<Command>)
    ensures |r| == |cs|
  {
    if id < |cs| then cs[id := c] else cs
  }

  predicate InQueue(q: seq<QueuedCommand>, id: nat) {
    exists k | 0 <= k < |q| :: q[k].id == id
  }

  function Dropping(cs: seq<Command>, q: seq<QueuedCommand>): (r: seq<Command>)
    ensures |r| == |cs|
  {
    seq(|cs|, i requires 0 <= i < |cs| => if InQueue(q, i) then cs[i].(status := Dropped) else cs[i])
  }

  function Bytes(q: seq<QueuedCommand>): nat {
    if q == [] then 0 else q[0].held + Bytes(q[1..])
  }

  /** The queue is let go of: nothing left in it will start, and its bytes are free again. */
  function LetQueueGo(w: Work): Work {
    w.(queue := [], free := w.free + Bytes(w.queue), commands := Dropping(w.commands, w.queue))
  }

  function AfterCommand(released: bool): Worker {
    if released then Returned else Idle
  }

  function Apply(w: Work, step: Label, v: View): Work
    requires Enabled(w, step, v)
  {
    match step
    case Ask => w.(worker := InLine)
    case Grant => w.(worker := Idle)
    case GiveUp | Stop | QueueClosed => LetQueueGo(w).(worker := Returned)
    case TakeCommand =>
      var c := w.queue[0];
      w.(queue := w.queue[1..], worker := Seeing(c.id, NotBegun(c.held), false),
         commands := SetStatus(w.commands, c.id, Command(Taken, 0)))
    case Begin =>
      w.(free := w.free + w.worker.task.held, worker := Seeing(w.worker.id, Handling, w.worker.released),
         commands := SetStatus(w.commands, w.worker.id, Command(Running, 0)))
    case HandlerReturns(config) =>
      w.(worker := Seeing(w.worker.id, Acking(config), w.worker.released),
         commands := SetStatus(w.commands, w.worker.id, Command(Finished, 1, config)))
    case HandlerPanics =>
      w.(worker := Seeing(w.worker.id, Unwound, w.worker.released),
         commands := SetStatus(w.commands, w.worker.id, Command(Panicked, 0)))
    case TaskAcks =>
      w.(worker := Seeing(w.worker.id, if w.worker.task.config then Responding else Done, w.worker.released))
    case TaskResponds => w.(worker := Seeing(w.worker.id, Done, w.worker.released))
    case NoticeOver => LetQueueGo(w).(worker := Seeing(w.worker.id, w.worker.task, true))
    case Join =>
      if w.worker.task.Done? then w.(worker := AfterCommand(w.worker.released))
      else
        w.(worker := AckingPanic(w.worker.id, w.worker.released),
           commands := SetStatus(w.commands, w.worker.id, Command(Finished, 1)))
    case PanicAcked => w.(worker := AfterCommand(w.worker.released))
  }

  // ── The invariant ──────────────────────────────────────────────────

  predicate Started(s: Status) {
    s.Taken? || s.Running? || s.Panicked? || s.Finished?
  }

  function TaskStatus(t: Task): Status {
    match t
    case NotBegun(_) => Taken
    case Handling => Running
    case Unwound => Panicked
    case _ => Finished
  }

  function WorkerBytes(w: Worker): nat {
    if w.Seeing? && w.task.NotBegun? then w.task.held else 0
  }

  /** Every byte of the command budget is free, queued, taken but not begun, or kept by a refusal
      being written. */
  predicate BudgetKept(w: Work) {
    w.free + Bytes(w.queue) + WorkerBytes(w.worker) + w.refusal == COMMAND_QUEUE_BYTES
  }

  predicate Bounded(w: Work) {
    && |w.queue| <= COMMAND_QUEUE_SIZE
    && w.free >= 0
    && (forall k | 0 <= k < |w.queue| :: w.queue[k].held <= MAX_INBOUND_WS_BYTES)
    && WorkerBytes(w.worker) <= MAX_INBOUND_WS_BYTES
    && w.refusal <= MAX_INBOUND_WS_BYTES
    && (QueueGone(w.worker) ==> w.queue == [])
  }

  /** The queue holds exactly the commands marked as queued, oldest first. */
  predicate QueueMatches(w: Work) {
    && (forall k | 0 <= k < |w.queue| :: w.queue[k].id < |w.commands|)
    && (forall j, k | 0 <= j < k < |w.queue| :: w.queue[j].id < w.queue[k].id)
    && (forall c | 0 <= c < |w.commands| :: w.commands[c].status.Queued? <==> InQueue(w.queue, c))
  }

  /** One ack for a command that was refused or has finished, none for any other. */
  predicate AcksMatch(w: Work) {
    forall c | 0 <= c < |w.commands| ::
      w.commands[c].acks == if w.commands[c].status.Refused? || w.commands[c].status.Finished? then 1 else 0
  }

  predicate InFlight(s: Status) {
    s.Taken? || s.Running? || s.Panicked?
  }

  /** At most one command is taken, running or unacked after a panic: the one the worker sees to. */
  predicate WorkerMatches(w: Work) {
    && (w.worker.Seeing? ==>
          w.worker.id < |w.commands| && w.commands[w.worker.id].status == TaskStatus(w.worker.task))
    && (w.worker.AckingPanic? ==>
          w.worker.id < |w.commands| && w.commands[w.worker.id].status == Finished
          && !w.commands[w.worker.id].config)
    && (w.worker.Seeing? && w.worker.task.Acking? ==> w.commands[w.worker.id].config == w.worker.task.config)
    && (w.worker.Seeing? && w.worker.task.Responding? ==> w.commands[w.worker.id].config)
    && (forall c | 0 <= c < |w.commands| && w.commands[c].config :: w.commands[c].status.Finished?)
    && (forall c | 0 <= c < |w.commands| && InFlight(w.commands[c].status) ::
          w.worker.Seeing? && w.worker.id == c)
  }

  /** The started commands are a prefix of the accepted ones. */
  predicate StartedFirst(w: Work) {
    forall i, j | 0 <= i < j < |w.commands| && Started(w.commands[j].status) ::
      w.commands[i].status.Refused? || Started(w.commands[i].status)
  }

  /** Whether a command's task or worker is still sending the ack of a finished command. */
  predicate StillAcking(w: Worker, c: nat) {
    (w.Seeing? && w.id == c && w.task.Acking?) || (w.AckingPanic? && w.id == c)
  }

  predicate AckDone(w: Work, c: nat) {
    c < |w.commands| && w.commands[c].status.Finished? && !StillAcking(w.worker, c)
  }

  /** Whether the response of a `get_config` is done with. */
  predicate ResponseDone(w: Work, c: nat) {
    AckDone(w, c) && w.commands[c].config && !(w.worker.Seeing? && w.worker.id == c && w.worker.task.Responding?)
  }

  /** Only a queue that is let go of drops anything. */
  predicate DropsAtEnd(w: Work) {
    !QueueGone(w.worker) ==> forall c | 0 <= c < |w.commands| :: !w.commands[c].status.Dropped?
  }

  predicate Inv(w: Work) {
    && Bounded(w)
    && BudgetKept(w)
    && QueueMatches(w)
    && AcksMatch(w)
    && WorkerMatches(w)
    && StartedFirst(w)
    && DropsAtEnd(w)
  }
}
