/** That the link gets on: a live session's worker works through its queue, whatever the manager and
    the vendor may do can happen, and `run` always has a next step. */
module Progress {
  import opened Limits
  import opened Manager
  import opened ManagerProofs
  import Link
  import Commands
  import CommandProofs
  import Promises

  // ── A live session's worker ────────────────────────────────────────

  /** The steps a worker of a live session has left before it can take its next command. */
  function ToIdle(w: Commands.Worker): nat {
    match w
    case Spawned => 2
    case InLine => 1
    case Idle | Returned => 0
    case AckingPanic(_, _) => 1
    case Seeing(_, task, _) =>
      match task
      case NotBegun(_) => 5
      case Handling => 4
      case Acking(_) => 3
      case Responding | Unwound => 2
      case Done => 1
  }

  /** Wherever it is, a worker whose session lives has a next step; an idle one takes whatever heads
      its queue; and each step but taking a command brings the next taking nearer. */
  lemma WorkerGetsOn(w: Commands.Work, v: Commands.View)
    requires !v.over
    ensures w.worker.Spawned? ==> Commands.Enabled(w, Commands.Ask, v)
    ensures w.worker.InLine? ==> Commands.Enabled(w, Commands.Grant, v)
    ensures w.worker.Idle? && w.queue != [] ==>
              && Commands.Enabled(w, Commands.TakeCommand, v)
              && Commands.Apply(w, Commands.TakeCommand, v).queue == w.queue[1..]
              && Commands.Apply(w, Commands.TakeCommand, v).worker.Seeing?
              && Commands.Apply(w, Commands.TakeCommand, v).worker.id == w.queue[0].id
    ensures w.worker.Seeing? && w.worker.task.Handling? ==>
              && Commands.Enabled(w, Commands.HandlerPanics, v)
              && forall config :: Commands.Enabled(w, Commands.HandlerReturns(config), v)
    ensures (w.worker.Seeing? || w.worker.AckingPanic?) && !(w.worker.Seeing? && w.worker.task.Handling?)
            && (Promises.WaitsToSend(w.worker) ==> v.canSend) ==>
              exists step :: Commands.Enabled(w, step, v) && !CommandProofs.VendorStep(step)
    ensures forall step :: Commands.Enabled(w, step, v) && !step.TakeCommand? && !step.QueueClosed? ==>
              ToIdle(Commands.Apply(w, step, v).worker) < ToIdle(w.worker)
  {
    match w.worker
    case AckingPanic(_, _) => assert v.canSend ==> Commands.Enabled(w, Commands.PanicAcked, v);
    case Seeing(_, task, _) =>
      assert task.NotBegun? ==> Commands.Enabled(w, Commands.Begin, v);
      assert task.Acking? && v.canSend ==> Commands.Enabled(w, Commands.TaskAcks, v);
      assert task.Responding? && v.canSend ==> Commands.Enabled(w, Commands.TaskResponds, v);
      assert Commands.Joinable(task) ==> Commands.Enabled(w, Commands.Join, v);
    case Spawned | InLine | Idle | Returned =>
  }

  ghost predicate CanStep(s: System, i: nat) {
    exists step :: !CommandProofs.VendorStep(step) && Enabled(s, WorkerStep(i, step))
  }

  lemma HolderCanStep(s: System, i: nat)
    requires Inv(s) && HasLive(s) && Last(s).link.end.None? && Last(s).work.queue != []
    requires s.holder == Some(i)
    ensures i < |s.sessions|
    ensures
      var w := s.sessions[i].work.worker;
      (w.Seeing? && w.task.Handling?) || (Promises.WaitsToSend(w) && !CanSend(s)) || CanStep(s, i)
  {
    var w := s.sessions[i].work;
    assert Commands.HoldsTurn(w.worker);
    WorkerGetsOnOrSeesOut(w, ViewOf(s, i), s, i);
  }

  lemma WorkerGetsOnOrSeesOut(w: Commands.Work, v: Commands.View, s: System, i: nat)
    requires i < |s.sessions| && w == s.sessions[i].work && v == ViewOf(s, i) && Commands.HoldsTurn(w.worker)
    requires w.worker.Idle? ==> v.over || w.queue != []
    ensures (w.worker.Seeing? && w.worker.task.Handling?) || (Promises.WaitsToSend(w.worker) && !v.canSend) || CanStep(s, i)
  {
    if !(w.worker.Seeing? && w.worker.task.Handling?) && !(Promises.WaitsToSend(w.worker) && !v.canSend) {
      var step := OwnStep(w, v);
      assert Enabled(s, WorkerStep(i, step));
    }
  }

  lemma OwnStep(w: Commands.Work, v: Commands.View) returns (step: Commands.Label)
    requires Commands.HoldsTurn(w.worker) && (w.worker.Idle? ==> v.over || w.queue != [])
    requires !(w.worker.Seeing? && w.worker.task.Handling?) && (Promises.WaitsToSend(w.worker) ==> v.canSend)
    ensures Commands.Enabled(w, step, v) && !CommandProofs.VendorStep(step) && !step.Grant?
  {
    match w.worker
    case Idle => step := if v.over then Commands.Stop else Commands.TakeCommand;
    case AckingPanic(_, _) => step := Commands.PanicAcked;
    case Seeing(_, task, _) =>
      step := match task
        case NotBegun(_) => Commands.Begin
        case Acking(_) => Commands.TaskAcks
        case Responding => Commands.TaskResponds
        case _ => Commands.Join;
  }

  /** While a live session has a command queued: whoever holds the turn has a step of its own, unless
      the vendor's handler runs or it waits on a full outbound channel; if it is this session's worker
      and idle, that step takes the head of the queue; and with the turn free, this worker asks for
      it, or the head of the line is granted it or gives up its place. */
  lemma LiveQueueIsServed(s: System)
    requires Inv(s) && HasLive(s) && Last(s).link.end.None? && Last(s).work.queue != []
    ensures s.holder.Some? ==>
              && s.holder.value < |s.sessions|
              && var w := s.sessions[s.holder.value].work.worker;
                 (w.Seeing? && w.task.Handling?) || (Promises.WaitsToSend(w) && !CanSend(s)) || CanStep(s, s.holder.value)
    ensures s.holder == Some(|s.sessions| - 1) && Last(s).work.worker.Idle? ==>
              Enabled(s, WorkerStep(|s.sessions| - 1, Commands.TakeCommand))
    ensures s.holder.None? ==>
              if Last(s).work.worker.Spawned? then Enabled(s, WorkerStep(|s.sessions| - 1, Commands.Ask))
              else s.line != [] && s.line[0].WorkerOf? &&
                   (Enabled(s, WorkerStep(s.line[0].session, Commands.Grant))
                    || Enabled(s, WorkerStep(s.line[0].session, Commands.GiveUp)))
    ensures Last(s).work.worker.InLine? && s.holder.None? && s.line[0] == WorkerOf(|s.sessions| - 1) ==>
              Enabled(s, WorkerStep(|s.sessions| - 1, Commands.Grant))
  {
    LiveWorkerIsThere(s);
    if s.holder.Some? {
      HolderCanStep(s, s.holder.value);
    } else {
      assert !Commands.HoldsTurn(Last(s).work.worker);
      if Last(s).work.worker.InLine? {
        assert WorkerOf(|s.sessions| - 1) in s.line;
        assert s.line[0] in s.line;
        HeadOfLine(s);
      }
    }
  }

  lemma LiveWorkerIsThere(s: System)
    requires SessionsInv(s) && HasLive(s) && Last(s).link.end.None?
    ensures !Last(s).work.worker.Returned? && !Last(s).over
  {
    SessionSound(s, |s.sessions| - 1);
  }

  lemma HeadOfLine(s: System)
    requires LineMatches(s) && EarlierOver(s) && s.phase.Live? && s.line != [] && s.holder.None?
    ensures s.line[0].WorkerOf?
    ensures Enabled(s, WorkerStep(s.line[0].session, Commands.Grant))
            || Enabled(s, WorkerStep(s.line[0].session, Commands.GiveUp))
  {
    assert s.line[0] in s.line && RunTask !in s.line;
  }

  // ── Every command of a session that lives on is reached ────────────

  /** How many queued commands come no later than `c`. */
  function UpTo(q: seq<Commands.QueuedCommand>, c: nat): (n: nat)
    ensures n <= |q|
  {
    if q == [] then 0 else (if q[0].id <= c then 1 else 0) + UpTo(q[1..], c)
  }

  lemma {:induction false} UpToAppend(q: seq<Commands.QueuedCommand>, x: Commands.QueuedCommand, c: nat)
    requires x.id > c
    ensures UpTo(q + [x], c) == UpTo(q, c)
  {
    if q == [] {
      assert q + [x] == [x];
    } else {
      assert (q + [x])[1..] == q[1..] + [x];
      UpToAppend(q[1..], x, c);
    }
  }

  /** The most steps of its worker a queued command waits for. */
  function Waits(w: Commands.Work, c: nat): nat {
    6 * UpTo(w.queue, c) + ToIdle(w.worker)
  }

  predicate IsQueued(w: Commands.Work, c: nat) {
    c < |w.commands| && w.commands[c].status.Queued?
  }

  lemma WorkerStepNearsIt(w: Commands.Work, step: Commands.Label, v: Commands.View, c: nat)
    requires Commands.Inv(w) && Commands.Enabled(w, step, v) && !v.over && !v.ended
    requires IsQueued(w, c) && IsQueued(Commands.Apply(w, step, v), c)
    ensures Waits(Commands.Apply(w, step, v), c) < Waits(w, c)
  {
    WorkerGetsOn(w, v);
    if step.TakeCommand? {
      assert Commands.InQueue(w.queue, c);
      assert w.queue[0].id != c;
    } else {
      assert Commands.Apply(w, step, v).queue == w.queue;
    }
  }

  lemma RouteOnlyAppends(w: Commands.Work, cost: nat, c: nat)
    requires c < |w.commands|
    ensures Waits(Commands.Route(w, cost).1, c) == Waits(w, c)
  {
    UpToAppend(w.queue, Commands.QueuedCommand(|w.commands|, cost), c);
  }

  lemma LoopDoesNotDelay(s: System, l: Label, c: nat)
    requires Enabled(s, l) && Touched(s, l).Some? && !l.WorkerStep? && c < |Last(s).work.commands|
    ensures Waits(Touch(s, l).work, c) == Waits(Last(s).work, c)
  {
    if l.RouteText? {
      RouteOnlyAppends(Last(s).work, Last(s).link.loop.len, c);
    }
  }

  /** Command `c` of session `i`, which lives, is queued. */
  predicate WaitsLive(s: System, i: nat, c: nat) {
    && i < |s.sessions| && !s.sessions[i].over && s.sessions[i].link.end.None?
    && IsQueued(s.sessions[i].work, c)
  }

  function WaitsAt(s: System, i: nat, c: nat): nat {
    if i < |s.sessions| then Waits(s.sessions[i].work, c) else 0
  }

  predicate IsStepOf(l: Label, i: nat) {
    l.WorkerStep? && l.session == i
  }

  lemma QueuedStep(s: System, l: Label, i: nat, c: nat)
    requires SessionsInv(s) && s.attempt <= U32_MAX && Enabled(s, l)
    requires WaitsLive(s, i, c) && WaitsLive(Apply(s, l), i, c)
    ensures if IsStepOf(l, i) then WaitsAt(Apply(s, l), i, c) < WaitsAt(s, i, c)
            else WaitsAt(Apply(s, l), i, c) == WaitsAt(s, i, c)
  {
    SessionsAfter(s, l);
    if IsStepOf(l, i) {
      CommandsSound(s, i);
      WorkerStepNearsIt(s.sessions[i].work, l.step, ViewOf(s, i), c);
    } else if Touched(s, l) == Some(i) {
      LoopDoesNotDelay(s, l, c);
    }
  }

  function StepsOf(labels: seq<Label>, i: nat): nat {
    if labels == [] then 0
    else StepsOf(labels[..|labels| - 1], i) + if IsStepOf(labels[|labels| - 1], i) then 1 else 0
  }

  predicate NearsAt(states: seq<System>, labels: seq<Label>, j: nat, i: nat, c: nat)
    requires j < |labels| && |states| == |labels| + 1
  {
    if IsStepOf(labels[j], i) then WaitsAt(states[j + 1], i, c) < WaitsAt(states[j], i, c)
    else WaitsAt(states[j + 1], i, c) == WaitsAt(states[j], i, c)
  }

  lemma QueuedStepInRun(states: seq<System>, labels: seq<Label>, j: nat, i: nat, c: nat)
    requires Run(states, labels) && j < |labels| && WaitsLive(states[j], i, c) && WaitsLive(states[j + 1], i, c)
    ensures NearsAt(states, labels, j, i, c)
  {
    Reachable(states, labels, j);
    assert Next(states[j], labels[j], states[j + 1]);
    QueuedStep(states[j], labels[j], i, c);
  }

  lemma {:induction false} StepsAreCounted(states: seq<System>, labels: seq<Label>, k: nat, m: nat, i: nat, c: nat)
    requires |states| == |labels| + 1 && k <= m < |states|
    requires forall j | k <= j < m :: NearsAt(states, labels, j, i, c)
    ensures StepsOf(labels[k..m], i) + WaitsAt(states[m], i, c) <= WaitsAt(states[k], i, c)
  {
    if k < m {
      StepsAreCounted(states, labels, k, m - 1, i, c);
      assert labels[k..m][..m - 1 - k] == labels[k..m - 1];
      assert NearsAt(states, labels, m - 1, i, c);
    }
  }

  /** However long a run goes on with its session alive, a command stays queued for no more steps of
      its worker than six for each command up to it in the queue and five for the one running. */
  lemma CommandIsReached(states: seq<System>, labels: seq<Label>, k: nat, m: nat, i: nat, c: nat)
    requires Run(states, labels) && k <= m < |states|
    requires forall j | k <= j <= m :: WaitsLive(states[j], i, c)
    ensures i < |states[k].sessions|
    ensures StepsOf(labels[k..m], i) <= 6 * UpTo(states[k].sessions[i].work.queue, c) + 5
  {
    forall j | k <= j < m ensures NearsAt(states, labels, j, i, c) {
      QueuedStepInRun(states, labels, j, i, c);
    }
    StepsAreCounted(states, labels, k, m, i, c);
    assert WaitsLive(states[k], i, c);
  }

  // ── What can happen ────────────────────────────────────────────────

  /** Whatever the manager sends can be read: a ping, any text up to the cap, another frame, and each
      way the stream can end; and the reader's waits end as soon as there is budget or room. */
  lemma AnythingCanBeRead(s: System)
    requires HasLive(s) && Last(s).link.end.None?
    ensures Last(s).link.reader.Reading? ==>
              && Enabled(s, LinkStep(Link.ReadPing)) && Enabled(s, LinkStep(Link.ReadOther))
              && Enabled(s, LinkStep(Link.Verdict))
              && Enabled(s, LinkStep(Link.ReadTerminal(Link.Closed)))
              && Enabled(s, LinkStep(Link.ReadTerminal(Link.Failed)))
              && Enabled(s, LinkStep(Link.ReadTerminal(Link.Ended)))
    ensures Last(s).link.reader.Reading? ==>
              forall len: nat, kind | len <= MAX_INBOUND_WS_BYTES :: Enabled(s, LinkStep(Link.ReadText(len, kind)))
    ensures Last(s).link.reader.WaitBudget? && Last(s).link.reader.len <= Last(s).link.free ==>
              Enabled(s, LinkStep(Link.GetBudget))
    ensures Last(s).link.reader.WaitRoom? && |Last(s).link.inbound| < INBOUND_CHANNEL_SIZE ==>
              Enabled(s, LinkStep(Link.HandOver))
  {
  }

  /** A write can come out in each of its ways, the vendor can emit while there is room, and shutdown
      is seen as soon as it is asked for. */
  lemma AnythingCanComeOut(s: System)
    requires HasLive(s) && Last(s).link.end.None?
    ensures Last(s).link.loop.Writing? ==>
              && Enabled(s, LinkStep(Link.WriteOk)) && Enabled(s, LinkStep(Link.WriteStalls))
              && Enabled(s, LinkStep(Link.WriteFails))
              && (Link.Closed in Last(s).link.read ==> Enabled(s, LinkStep(Link.WriteRefusedAfterClose)))
    ensures s.shutdown ==>
              && Enabled(s, LinkStep(Link.ShutdownSeen))
              && Link.Apply(Last(s).link, Link.ShutdownSeen).end == Some(Link.ShutdownRequested)
    ensures !s.closed && |s.outbound| < OUTBOUND_CHANNEL_SIZE ==> Enabled(s, VendorEmits)
  {
  }

  /** `run` always has a next step: it dials while it is to, sees a session that has ended out, and
      once shutdown is asked for leaves its loop, closes the outbound channel and waits for the turn
      no longer than it has to. */
  lemma RunGoesOn(s: System)
    requires Inv(s)
    ensures s.phase.Between? ==>
              Enabled(s, Connect) && Enabled(s, ConnectFails) && (s.shutdown ==> Enabled(s, LeaveLoop))
    ensures s.phase.Between? ==> Apply(s, Connect).phase.Live? && Last(Apply(s, Connect)) == FRESH
    ensures s.phase.Live? && Last(s).link.end.Some? ==>
              if Last(s).over then Enabled(s, SessionReturns) else Enabled(s, CancelOver)
    ensures s.phase.Leaving? ==> Enabled(s, CloseOutbound)
    ensures s.phase.Shut? ==> Enabled(s, AskTurn)
    ensures s.phase.Draining? ==> Enabled(s, DrainTimesOut)
    ensures Enabled(s, RequestShutdown)
  {
  }
}
