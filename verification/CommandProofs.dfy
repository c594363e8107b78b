/** Accounting for one session's commands: every routed command is in exactly one place, with the
    acks that place calls for, and its bytes are accounted for. */
module CommandProofs {
  import opened Limits
  import opened Commands

  lemma {:induction false} BytesAppend(q: seq<QueuedCommand>, c: QueuedCommand)
    ensures Bytes(q + [c]) == Bytes(q) + c.held
  {
    if q == [] {
      assert q + [c] == [c];
    } else {
      assert (q + [c])[1..] == q[1..] + [c];
      BytesAppend(q[1..], c);
    }
  }

  lemma FreshInv()
    ensures Inv(FRESH)
  {
  }

  // ── Routing ────────────────────────────────────────────────────────

  lemma RouteKeepsBounds(w: Work, cost: nat)
    requires Bounded(w) && BudgetKept(w) && cost <= MAX_INBOUND_WS_BYTES && w.refusal == 0
    ensures Bounded(Route(w, cost).1) && BudgetKept(Route(w, cost).1)
  {
    BytesAppend(w.queue, QueuedCommand(|w.commands|, cost));
  }

  lemma RouteKeepsQueue(w: Work, cost: nat)
    requires QueueMatches(w)
    ensures QueueMatches(Route(w, cost).1)
  {
    var (r, w') := Route(w, cost);
    if r.Accepted? {
      assert w'.queue[|w.queue|].id == |w.commands|;
      assert forall k | 0 <= k < |w.queue| :: w'.queue[k] == w.queue[k];
    }
    forall c | 0 <= c < |w'.commands|
      ensures w'.commands[c].status.Queued? <==> InQueue(w'.queue, c)
    {
      if c < |w.commands| {
        assert w'.commands[c] == w.commands[c];
        assert InQueue(w'.queue, c) <==> InQueue(w.queue, c);
      }
    }
  }

  lemma RouteKeepsStatuses(w: Work, w': Work, c: Command)
    requires AcksMatch(w) && WorkerMatches(w) && StartedFirst(w) && DropsAtEnd(w)
    requires w'.commands == w.commands + [c] && w'.worker == w.worker
    requires c == Command(Refused, 1) || c == Command(Queued, 0)
    ensures AcksMatch(w') && WorkerMatches(w') && StartedFirst(w') && DropsAtEnd(w')
  {
  }

  lemma RouteKeepsInv(w: Work, cost: nat)
    requires Inv(w) && cost <= MAX_INBOUND_WS_BYTES && w.refusal == 0
    ensures Inv(Route(w, cost).1)
  {
    RouteKeepsBounds(w, cost);
    RouteKeepsQueue(w, cost);
    var (r, w') := Route(w, cost);
    if !r.WorkerGone? {
      RouteKeepsStatuses(w, w', if r.Accepted? then Command(Queued, 0) else Command(Refused, 1));
    }
  }

  // ── Letting the queue go ───────────────────────────────────────────

  lemma DroppingIs(w: Work)
    requires QueueMatches(w)
    ensures forall c | 0 <= c < |w.commands| ::
              Dropping(w.commands, w.queue)[c] ==
              if w.commands[c].status.Queued? then w.commands[c].(status := Dropped) else w.commands[c]
  {
  }

  /** The rest of a worker's return, or of its letting the queue go with a command running. */
  lemma LetQueueGoKeepsInv(w: Work, worker: Worker)
    requires Inv(w) && QueueGone(worker)
    requires worker.Seeing? ==> w.worker.Seeing? && worker == Seeing(w.worker.id, w.worker.task, true)
    requires worker.Returned? ==> !w.worker.Seeing?
    requires !worker.AckingPanic?
    ensures Inv(LetQueueGo(w).(worker := worker))
  {
    DroppingIs(w);
    var w' := LetQueueGo(w).(worker := worker);
    assert forall c | 0 <= c < |w.commands| :: !InQueue(w'.queue, c);
  }

  // ── Taking a command ───────────────────────────────────────────────

  /** Everything accepted before the head of the queue has started, and nothing after it has. */
  lemma HeadIsNext(w: Work, i: nat)
    requires QueueMatches(w) && StartedFirst(w) && DropsAtEnd(w) && WorkerMatches(w)
    requires w.worker.Idle? && w.queue != [] && i < |w.commands|
    ensures i < w.queue[0].id ==> w.commands[i].status.Refused? || Started(w.commands[i].status)
    ensures Started(w.commands[i].status) ==> i < w.queue[0].id
  {
    assert InQueue(w.queue, w.queue[0].id);
    assert w.commands[w.queue[0].id].status.Queued?;
  }

  lemma TakeKeepsQueue(w: Work, w': Work)
    requires QueueMatches(w) && w.queue != []
    requires w'.queue == w.queue[1..]
    requires w'.commands == SetStatus(w.commands, w.queue[0].id, Command(Taken, 0))
    ensures QueueMatches(w')
  {
    assert forall k | 0 <= k < |w'.queue| :: w'.queue[k] == w.queue[k + 1];
    assert forall k | 0 < k < |w.queue| :: w.queue[k] == w'.queue[k - 1];
    assert InQueue(w.queue, w.queue[0].id);
    forall i | 0 <= i < |w'.commands| && i != w.queue[0].id
      ensures InQueue(w'.queue, i) <==> InQueue(w.queue, i)
    {
      if InQueue(w.queue, i) {
        var k :| 0 <= k < |w.queue| && w.queue[k].id == i;
        assert w'.queue[k - 1].id == i;
      }
    }
  }

  lemma TakeKeepsInv(w: Work, v: View)
    requires Inv(w) && Enabled(w, TakeCommand, v)
    ensures Inv(Apply(w, TakeCommand, v))
  {
    var w' := Apply(w, TakeCommand, v);
    TakeKeepsQueue(w, w');
    forall i | 0 <= i < |w.commands| ensures
      && (i < w.queue[0].id ==> w.commands[i].status.Refused? || Started(w.commands[i].status))
      && (Started(w.commands[i].status) ==> i < w.queue[0].id)
    {
      HeadIsNext(w, i);
    }
  }

  // ── Every worker step keeps the invariant ──────────────────────────

  /** A step that only moves the command the worker sees to on. */
  predicate MovesCommand(step: Label) {
    step.Begin? || step.HandlerReturns? || step.HandlerPanics? || step.TaskAcks? || step.TaskResponds?
    || step.Join? || step.PanicAcked?
  }

  lemma MoveChanges(w: Work, step: Label, v: View)
    requires WorkerMatches(w) && Enabled(w, step, v) && MovesCommand(step)
    ensures
      var w' := Apply(w, step, v);
      && w'.queue == w.queue && |w'.commands| == |w.commands|
      && w.worker.id < |w.commands|
      && (forall c | 0 <= c < |w.commands| && c != w.worker.id :: w'.commands[c] == w.commands[c])
      && Started(w.commands[w.worker.id].status) && Started(w'.commands[w.worker.id].status)
  {
  }

  lemma MoveKeepsBounds(w: Work, step: Label, v: View)
    requires Bounded(w) && BudgetKept(w) && Enabled(w, step, v) && MovesCommand(step)
    ensures Bounded(Apply(w, step, v)) && BudgetKept(Apply(w, step, v))
  {
  }

  lemma MoveKeepsAcks(w: Work, step: Label, v: View)
    requires AcksMatch(w) && WorkerMatches(w) && Enabled(w, step, v) && MovesCommand(step)
    ensures AcksMatch(Apply(w, step, v)) && WorkerMatches(Apply(w, step, v))
  {
    MoveChanges(w, step, v);
  }

  lemma MoveKeepsOrder(w: Work, step: Label, v: View)
    requires QueueMatches(w) && StartedFirst(w) && DropsAtEnd(w) && WorkerMatches(w)
    requires Enabled(w, step, v) && MovesCommand(step)
    ensures QueueMatches(Apply(w, step, v)) && StartedFirst(Apply(w, step, v)) && DropsAtEnd(Apply(w, step, v))
  {
    MoveChanges(w, step, v);
  }

  lemma MoveKeepsInv(w: Work, step: Label, v: View)
    requires Inv(w) && Enabled(w, step, v) && MovesCommand(step)
    ensures Inv(Apply(w, step, v))
  {
    MoveKeepsBounds(w, step, v);
    MoveKeepsAcks(w, step, v);
    MoveKeepsOrder(w, step, v);
  }

  lemma InvKept(w: Work, step: Label, v: View)
    requires Inv(w) && Enabled(w, step, v)
    ensures Inv(Apply(w, step, v))
  {
    match step
    case Ask | Grant =>
    case GiveUp | Stop | QueueClosed => LetQueueGoKeepsInv(w, Returned);
    case NoticeOver => LetQueueGoKeepsInv(w, Seeing(w.worker.id, w.worker.task, true));
    case TakeCommand => TakeKeepsInv(w, v);
    case _ => MoveKeepsInv(w, step, v);
  }

  /** A worker lets its queue go only once its session is over or the loop has dropped the sending
      half, and what a refusal holds is not its business. */
  lemma QueueGoesAtEnd(w: Work, step: Label, v: View)
    requires Enabled(w, step, v)
    ensures QueueGone(Apply(w, step, v).worker) ==> QueueGone(w.worker) || v.over || v.ended
    ensures Apply(w, step, v).refusal == w.refusal
  {
  }

  // ── Refusals ───────────────────────────────────────────────────────

  lemma {:induction false} BytesBound(q: seq<QueuedCommand>)
    requires forall k | 0 <= k < |q| :: q[k].held <= MAX_INBOUND_WS_BYTES
    ensures Bytes(q) <= |q| * MAX_INBOUND_WS_BYTES
  {
    if q != [] {
      BytesBound(q[1..]);
    }
  }

  function Holders(w: Work): nat {
    |w.queue| + if w.worker.Seeing? && w.worker.task.NotBegun? then 1 else 0
  }

  /** A command is refused exactly when 64 wait or too few bytes are free, which cannot be while at
      most three commands hold any of the budget. Once the refusal is written the budget is as it
      was. */
  lemma RefusedExactlyWhenFull(w: Work, cost: nat)
    requires Inv(w) && !QueueGone(w.worker) && w.refusal == 0 && cost <= MAX_INBOUND_WS_BYTES
    ensures Route(w, cost).0.Busy? <==> |w.queue| == COMMAND_QUEUE_SIZE || w.free < cost
    ensures Route(w, cost).0.Busy? ==>
              EndRefusal(Route(w, cost).1) == w.(commands := w.commands + [Command(Refused, 1)])
    ensures Holders(w) <= 3 ==> Route(w, cost).0.Accepted?
  {
    BytesBound(w.queue);
  }

  // ── What becomes of a command ──────────────────────────────────────

  /** A command's life: which places can follow which. */
  predicate CanBecome(a: Status, b: Status) {
    || a == b
    || (a.Queued? && b != Refused)
    || (a.Taken? && (b.Running? || b.Panicked? || b.Finished?))
    || (a.Running? && (b.Panicked? || b.Finished?))
    || (a.Panicked? && b.Finished?)
  }

  predicate Grows(cs: seq<Command>, cs': seq<Command>) {
    && |cs| <= |cs'|
    && forall c | 0 <= c < |cs| ::
         && CanBecome(cs[c].status, cs'[c].status) && cs[c].acks <= cs'[c].acks
         && (cs[c].status in {Refused, Finished, Dropped} ==> cs'[c] == cs[c])
  }

  lemma StepGrows(w: Work, step: Label, v: View)
    requires Inv(w) && Enabled(w, step, v)
    ensures Grows(w.commands, Apply(w, step, v).commands)
  {
    InvKept(w, step, v);
    DroppingIs(w);
    if step.TakeCommand? {
      assert InQueue(w.queue, w.queue[0].id);
    }
  }

  lemma GrowsOn(a: seq<Command>, b: seq<Command>, c: seq<Command>)
    requires Grows(a, b) && Grows(b, c)
    ensures Grows(a, c)
  {
  }

  /** A command that was refused, has finished or was dropped stays as it is. */
  lemma FinalStays(w: Work, w': Work, c: nat)
    requires AcksMatch(w) && AcksMatch(w') && Grows(w.commands, w'.commands) && c < |w.commands|
    requires w.commands[c].status in {Refused, Finished, Dropped}
    ensures w'.commands[c] == w.commands[c]
  {
  }

  /** Taking a command from the queue is the only way one starts, and it takes the next. */
  lemma StartsOnlyByTaking(w: Work, step: Label, v: View)
    requires Inv(w) && Enabled(w, step, v)
    ensures |Apply(w, step, v).commands| == |w.commands|
    ensures step.TakeCommand? ==> w.queue[0].id < |w.commands|
    ensures forall c | 0 <= c < |w.commands| ::
              Started(Apply(w, step, v).commands[c].status) <==>
              Started(w.commands[c].status) || (step.TakeCommand? && c == w.queue[0].id)
    ensures step.TakeCommand? ==>
              forall c | 0 <= c < |w.commands| && Started(w.commands[c].status) :: c < w.queue[0].id
  {
    if step.TakeCommand? {
      forall c | 0 <= c < |w.commands| && Started(w.commands[c].status) ensures c < w.queue[0].id {
        HeadIsNext(w, c);
      }
    } else if MovesCommand(step) {
    } else {
      DroppingIs(w);
    }
  }

  /** An ack is done with only by sending it. */
  lemma AcksDoneBySending(w: Work, step: Label, v: View, c: nat)
    requires Inv(w) && Enabled(w, step, v)
    ensures AckDone(Apply(w, step, v), c) <==>
            AckDone(w, c) || ((step.TaskAcks? || step.PanicAcked?) && c == w.worker.id)
    ensures step.TaskAcks? || step.PanicAcked? ==> !AckDone(w, w.worker.id)
  {
    if MovesCommand(step) {
      MoveChanges(w, step, v);
    } else if step.TakeCommand? {
      assert InQueue(w.queue, w.queue[0].id);
    } else {
      DroppingIs(w);
    }
  }

  /** A response is done with only by sending it, and only a `get_config` has one. */
  lemma ResponsesDoneBySending(w: Work, step: Label, v: View, c: nat)
    requires Inv(w) && Enabled(w, step, v)
    ensures ResponseDone(Apply(w, step, v), c) <==> ResponseDone(w, c) || (step.TaskResponds? && c == w.worker.id)
    ensures step.TaskResponds? ==> !ResponseDone(w, w.worker.id)
  {
    AcksDoneBySending(w, step, v, c);
    if MovesCommand(step) {
      MoveChanges(w, step, v);
    } else if step.TakeCommand? {
      assert InQueue(w.queue, w.queue[0].id);
    } else {
      DroppingIs(w);
    }
  }

  lemma RespondingIsDone(w: Work)
    requires WorkerMatches(w) && w.worker.Seeing? && w.worker.task.Responding?
    ensures AckDone(w, w.worker.id)
  {
  }

  // ── Seeing a worker out ────────────────────────────────────────────

  predicate VendorStep(step: Label) {
    step.HandlerReturns? || step.HandlerPanics?
  }

  function Stages(w: Worker): nat {
    match w
    case Returned => 0
    case Spawned | InLine | Idle => 2
    case AckingPanic(_, _) => 4
    case Seeing(_, task, _) =>
      match task
      case NotBegun(_) => 14
      case Handling => 12
      case Acking(_) => 10
      case Responding => 8
      case Unwound => 6
      case Done => 6
  }

  /** The steps a worker of an ended session has left, its handler's return included. */
  function Remaining(w: Worker): nat {
    Stages(w) + if QueueGone(w) then 0 else 1
  }

  /** A worker whose session is over can only move towards its return, and unless it waits on the
      vendor's handler or on room in the outbound channel it can always move. */
  lemma WorkerSeesOut(w: Work, v: View)
    requires v.over
    ensures forall step :: Enabled(w, step, v) ==> Remaining(Apply(w, step, v).worker) < Remaining(w.worker)
    ensures !w.worker.Returned? && v.canSend && !(w.worker.Seeing? && w.worker.task.Handling?) ==>
              exists step :: Enabled(w, step, v) && !VendorStep(step)
    ensures w.worker.Seeing? && w.worker.task.Handling? ==>
              Enabled(w, HandlerPanics, v) && forall config :: Enabled(w, HandlerReturns(config), v)
  {
    match w.worker
    case Spawned | InLine => assert Enabled(w, GiveUp, v);
    case Idle => assert Enabled(w, Stop, v);
    case AckingPanic(_, _) => assert v.canSend ==> Enabled(w, PanicAcked, v);
    case Seeing(_, task, _) =>
      assert task.NotBegun? ==> Enabled(w, Begin, v);
      assert task.Acking? && v.canSend ==> Enabled(w, TaskAcks, v);
      assert task.Responding? && v.canSend ==> Enabled(w, TaskResponds, v);
      assert Joinable(task) ==> Enabled(w, Join, v);
    case Returned =>
  }

  /** An ended session's queue is let go of without waiting for a handler: whatever the running
      command does, the worker's next step of its own gets it there, or if its command has just
      returned the step after that. Only a panic's ack comes first, which may wait for room in the
      outbound channel, and after which the next step gets it there. */
  lemma QueueLetGoPromptly(w: Work, v: View)
    requires Inv(w) && v.over && !QueueGone(w.worker)
    ensures
      || LetsGo(w, GiveUp, v)
      || LetsGo(w, Stop, v)
      || LetsGo(w, NoticeOver, v)
      || (Enabled(w, Join, v) && w.worker.task.Done? && LetsGo(Apply(w, Join, v), Stop, v))
      || (Enabled(w, Join, v) && w.worker.task.Unwound? &&
           Apply(w, Join, v).worker == AckingPanic(w.worker.id, false))
      || w.worker == AckingPanic(w.worker.id, false)
    ensures w.worker.AckingPanic? && v.canSend ==>
              Enabled(w, PanicAcked, v) && LetsGo(Apply(w, PanicAcked, v), Stop, v)
    ensures w.worker.Seeing? && w.worker.task.Handling? ==> LetsGo(w, NoticeOver, v)
  {
  }

  predicate LetsGo(w: Work, step: Label, v: View) {
    Enabled(w, step, v) && QueueGone(Apply(w, step, v).worker)
  }

  /** And with the queue go its bytes: all of the budget is free again but for a command taken
      and not begun, and a refusal still being written. */
  lemma QueueGoneFreesBudget(w: Work)
    requires Inv(w) && QueueGone(w.worker)
    ensures w.free == COMMAND_QUEUE_BYTES - WorkerBytes(w.worker) - w.refusal
    ensures forall c | 0 <= c < |w.commands| :: !w.commands[c].status.Queued?
  {
    assert Bytes(w.queue) == 0;
    assert forall c | 0 <= c < |w.commands| :: !InQueue(w.queue, c);
  }
}
