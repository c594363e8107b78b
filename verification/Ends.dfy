/** How sessions end and what follows, and what the command budget is charged: over every run, told
    by what was read and asked for. */
module Ends {
  import opened Limits
  import opened Manager
  import opened ManagerProofs
  import Link
  import LinkProofs
  import Commands
  import Promises
  import Reconnect

  // ── How a session ends ─────────────────────────────────────────────

  function LastTaken(l: Link.Link): Option<Link.Inbound> {
    if l.taken == [] then None else Some(l.taken[|l.taken| - 1])
  }

  predicate ReadToTheEnd(l: Link.Link) {
    LastTaken(l) == Some(Link.Closed) || LastTaken(l) == Some(Link.Ended)
  }

  lemma LinkEndsAsRead(l: Link.Link)
    requires Link.Inv(l)
    ensures ReadToTheEnd(l) <==> l.end == Some(Link.AuthenticatedThenClosed)
    ensures LastTaken(l) == Some(Link.Failed) <==> l.end == Some(Link.AuthenticatedThenLost(Link.ReadError))
  {
  }

  /** In every reachable state a session has ended as closed by the manager exactly if the last item
      the loop took is a Close or the end of the stream, as lost on a read error exactly if it is a
      failed read, and for shutdown only if that was asked for. */
  lemma EndsAsRead(states: seq<System>, labels: seq<Label>, k: nat, i: nat)
    requires Run(states, labels) && k < |states| && i < |states[k].sessions|
    ensures
      var l := states[k].sessions[i].link;
      && (ReadToTheEnd(l) <==> l.end == Some(Link.AuthenticatedThenClosed))
      && (LastTaken(l) == Some(Link.Failed) <==> l.end == Some(Link.AuthenticatedThenLost(Link.ReadError)))
      && (l.end == Some(Link.ShutdownRequested) ==> exists j :: 0 <= j < k && labels[j] == RequestShutdown)
  {
    Reachable(states, labels, k);
    SessionSound(states[k], i);
    LinkEndsAsRead(states[k].sessions[i].link);
    ShutdownWasRequested(states, labels, k);
  }

  lemma ShutdownAfter(s: System, l: Label)
    requires s.attempt <= U32_MAX && Enabled(s, l)
    ensures Apply(s, l).shutdown <==> s.shutdown || l == RequestShutdown
  {
  }

  lemma {:induction false} ShutdownWasRequested(states: seq<System>, labels: seq<Label>, k: nat)
    requires Run(states, labels) && k < |states|
    ensures states[k].shutdown <==> exists j :: 0 <= j < k && labels[j] == RequestShutdown
  {
    if k > 0 {
      ShutdownWasRequested(states, labels, k - 1);
      assert Next(states[k - 1], labels[k - 1], states[k]);
      ShutdownAfter(states[k - 1], labels[k - 1]);
    }
  }

  /** `run` leaves its loop only if shutdown was asked for: no session's end, and no failed dial, stops
      the gateway. */
  lemma LeavesOnlyForShutdown(states: seq<System>, labels: seq<Label>, k: nat)
    requires Run(states, labels) && k < |states| && Promises.LeftLoop(states[k].phase)
    ensures exists j :: 0 <= j < k && labels[j] == RequestShutdown
  {
    Reachable(states, labels, k);
    ShutdownWasRequested(states, labels, k);
  }

  lemma ReturnsTo(s: System)
    requires s.attempt <= U32_MAX && Enabled(s, SessionReturns)
    ensures
      var s' := Apply(s, SessionReturns);
      match Last(s).link.end.value
      case AuthenticatedThenClosed => s'.phase.Between? && s'.attempt == 1
      case AuthenticatedThenLost(_) => s'.phase.Between? && s'.attempt == Min(s.attempt + 1, U32_MAX)
      case ShutdownRequested => s'.phase.Leaving?
  {
  }

  /** What `run` makes of a session's end: after a Close or the end of the stream it goes on with the
      backoff starting over, after a loss of any kind with the backoff one further, and it leaves its
      loop only on a session that ended for a shutdown that was asked for. */
  lemma SessionOutcome(states: seq<System>, labels: seq<Label>, k: nat)
    requires Run(states, labels) && k < |labels| && labels[k] == SessionReturns
    ensures states[k].sessions != [] && Last(states[k]).link.end.Some?
    ensures
      var l, s, s' := Last(states[k]).link, states[k], states[k + 1];
      && (ReadToTheEnd(l) ==> s'.phase.Between? && s'.attempt == 1)
      && (LastTaken(l) == Some(Link.Failed) ==> s'.phase.Between? && s'.attempt == Min(s.attempt + 1, U32_MAX))
      && (l.end.value.AuthenticatedThenLost? ==> s'.phase.Between? && s'.attempt == Min(s.attempt + 1, U32_MAX))
      && (s'.phase.Leaving? <==> l.end == Some(Link.ShutdownRequested))
      && (s'.phase.Leaving? ==> exists j :: 0 <= j < k && labels[j] == RequestShutdown)
  {
    assert Next(states[k], labels[k], states[k + 1]);
    ReturnsTo(states[k]);
    EndsAsRead(states, labels, k, |states[k].sessions| - 1);
  }

  /** The passes of the reconnect loop a run has made up to a point, and how each came out. */
  function PassesIn(states: seq<System>, labels: seq<Label>, k: nat): seq<Reconnect.Pass>
    requires |states| == |labels| + 1 && k <= |labels|
  {
    if k == 0 then []
    else
      var before, s := PassesIn(states, labels, k - 1), states[k - 1];
      if labels[k - 1] == ConnectFails then before + [Reconnect.Pass(Reconnect.ConnectFailed, false, false)]
      else if labels[k - 1] == SessionReturns && s.sessions != [] && Last(s).link.end.Some?
              && !Last(s).link.end.value.ShutdownRequested?
      then before + [Reconnect.Pass(Reconnect.Session(Last(s).link.end.value), false, false)]
      else before
  }

  lemma PassOne(passes: seq<Reconnect.Pass>, p: Reconnect.Pass)
    ensures Reconnect.AttemptAfter(passes + [p]) == Reconnect.NextAttempt(Reconnect.AttemptAfter(passes), p.outcome)
  {
    assert (passes + [p])[..|passes|] == passes;
  }

  lemma AttemptOneMore(s: System, l: Label)
    requires s.attempt <= U32_MAX && Enabled(s, l)
    ensures Apply(s, l).attempt ==
            if l == ConnectFails then Min(s.attempt + 1, U32_MAX)
            else if l == SessionReturns && !Last(s).link.end.value.ShutdownRequested?
            then (if Last(s).link.end.value.AuthenticatedThenClosed? then 1 else Min(s.attempt + 1, U32_MAX))
            else s.attempt
  {
  }

  /** Over every run the backoff counts the passes since the last clean close, as the reconnect loop
      says: failed dials and lost sessions alike. */
  lemma {:induction false} AttemptIsOfPasses(states: seq<System>, labels: seq<Label>, k: nat)
    requires Run(states, labels) && k < |states|
    ensures states[k].attempt == Reconnect.AttemptAfter(PassesIn(states, labels, k))
    ensures states[k].attempt == Min(Reconnect.Streak(PassesIn(states, labels, k)), U32_MAX)
  {
    if k > 0 {
      var s, l := states[k - 1], labels[k - 1];
      AttemptIsOfPasses(states, labels, k - 1);
      assert Next(s, l, states[k]);
      AttemptOneMore(s, l);
      PassOne(PassesIn(states, labels, k - 1), Reconnect.Pass(Reconnect.ConnectFailed, false, false));
      if l == SessionReturns {
        PassOne(PassesIn(states, labels, k - 1),
                Reconnect.Pass(Reconnect.Session(Last(s).link.end.value), false, false));
      }
    }
    Reconnect.AttemptIsStreak(PassesIn(states, labels, k));
  }

  lemma EndIsWhatHappened(l: Link.Link, step: Link.Label)
    requires Link.Enabled(l, step) && Link.Apply(l, step).end.Some? && !step.RouteGone?
    ensures
      match Link.Apply(l, step).end.value
      case AuthenticatedThenClosed => step.Take? && (l.inbound[0].Closed? || l.inbound[0].Ended?)
      case AuthenticatedThenLost(ReadError) => step.Take? && l.inbound[0].Failed?
      case AuthenticatedThenLost(Silence) => step.Verdict?
      case AuthenticatedThenLost(WriteStalled) => step.WriteStalls?
      case AuthenticatedThenLost(WriteError) => step.WriteFails?
      case AuthenticatedThenLost(WorkerStopped) => false
      case ShutdownRequested => step.ShutdownSeen?
  {
  }

  /** Every session that ends does so at the one step that gives that end its name. */
  lemma EndHasItsCause(states: seq<System>, labels: seq<Label>, k: nat, i: nat)
    requires Run(states, labels) && k < |labels|
    requires i < |states[k].sessions| && states[k].sessions[i].link.end.None?
    requires i < |states[k + 1].sessions| && states[k + 1].sessions[i].link.end.Some?
    ensures i == |states[k].sessions| - 1 && labels[k].LinkStep?
    ensures
      var before, step := states[k].sessions[i].link, labels[k].link;
      match states[k + 1].sessions[i].link.end.value
      case AuthenticatedThenClosed =>
        step.Take? && before.inbound != [] && (before.inbound[0].Closed? || before.inbound[0].Ended?)
      case AuthenticatedThenLost(ReadError) => step.Take? && before.inbound != [] && before.inbound[0].Failed?
      case AuthenticatedThenLost(Silence) => step.Verdict?
      case AuthenticatedThenLost(WriteStalled) => step.WriteStalls?
      case AuthenticatedThenLost(WriteError) => step.WriteFails?
      case AuthenticatedThenLost(WorkerStopped) => false
      case ShutdownRequested => step.ShutdownSeen?
  {
    Reachable(states, labels, k);
    assert Next(states[k], labels[k], states[k + 1]);
    SessionsAfter(states[k], labels[k]);
    if labels[k].RouteText? {
      RouteEndsNothing(states[k]);
    } else if labels[k].LinkStep? {
      LinkStepKeepsCommands(Last(states[k]), labels[k].link);
      EndIsWhatHappened(Last(states[k]).link, labels[k].link);
    }
  }

  // ── Pings are lost only for want of room ───────────────────────────

  /** A ping read with room in the channel goes into it. */
  lemma PingIsKeptIfThereIsRoom(l: Link.Link)
    requires Link.Enabled(l, Link.ReadPing)
    ensures Link.Delivered(Link.Apply(l, Link.ReadPing)) ==
            Link.Delivered(l) + if |l.inbound| < INBOUND_CHANNEL_SIZE then [Link.Ping] else []
  {
  }

  predicate RoomForPings(states: seq<System>, labels: seq<Label>, i: nat)
    requires |states| == |labels| + 1
  {
    forall k | 0 <= k < |labels| && labels[k] == LinkStep(Link.ReadPing) && |states[k].sessions| == i + 1 ::
      |Last(states[k]).link.inbound| < INBOUND_CHANNEL_SIZE
  }

  lemma RouteDeliversNothing(x: Session)
    requires x.link.end.None? && x.link.loop.Routing?
    ensures Link.Delivered(AfterRoute(x).link) == Link.Delivered(x.link) && AfterRoute(x).link.read == x.link.read
  {
  }

  lemma DeliveredAfter(s: System, l: Label, i: nat)
    requires s.attempt <= U32_MAX && Enabled(s, l) && i < |s.sessions|
    requires l == LinkStep(Link.ReadPing) && |s.sessions| == i + 1 ==> |Last(s).link.inbound| < INBOUND_CHANNEL_SIZE
    requires Link.Delivered(s.sessions[i].link) == s.sessions[i].link.read
    ensures i < |Apply(s, l).sessions|
    ensures Link.Delivered(Apply(s, l).sessions[i].link) == Apply(s, l).sessions[i].link.read
  {
    SessionsAfter(s, l);
    if Touched(s, l) == Some(i) {
      if l.LinkStep? {
        LinkStepKeepsCommands(Last(s), l.link);
        LinkProofs.DeliveredStep(Last(s).link, l.link);
        if l.link.ReadPing? {
          PingIsKeptIfThereIsRoom(Last(s).link);
        }
      } else if l.RouteText? {
        RouteDeliversNothing(Last(s));
      }
    }
  }

  predicate AllDelivered(s: System, i: nat) {
    i < |s.sessions| && Link.Delivered(s.sessions[i].link) == s.sessions[i].link.read
  }

  lemma DeliveredOneMore(states: seq<System>, labels: seq<Label>, k: nat, i: nat)
    requires Run(states, labels) && k < |labels| && i < |states[k + 1].sessions| && RoomForPings(states, labels, i)
    requires i < |states[k].sessions| ==> AllDelivered(states[k], i)
    ensures AllDelivered(states[k + 1], i)
  {
    assert Next(states[k], labels[k], states[k + 1]);
    if i < |states[k].sessions| {
      DeliveredAfter(states[k], labels[k], i);
    } else {
      SessionsAfter(states[k], labels[k]);
    }
  }

  /** A session whose channel had room at each ping loses none: everything read is handed over. */
  lemma {:induction false} NothingLostWithRoom(states: seq<System>, labels: seq<Label>, k: nat, i: nat)
    requires Run(states, labels) && k < |states| && i < |states[k].sessions| && RoomForPings(states, labels, i)
    ensures AllDelivered(states[k], i)
  {
    if k > 0 {
      if i < |states[k - 1].sessions| {
        NothingLostWithRoom(states, labels, k - 1, i);
      }
      DeliveredOneMore(states, labels, k - 1, i);
    }
  }

  // ── What the command budget is charged ─────────────────────────────

  function LenSum(q: seq<Commands.QueuedCommand>, lens: seq<nat>): nat
    requires forall k | 0 <= k < |q| :: q[k].id < |lens|
  {
    if q == [] then 0 else lens[q[0].id] + LenSum(q[1..], lens)
  }

  lemma {:induction false} LenSumIsBytes(q: seq<Commands.QueuedCommand>, lens: seq<nat>)
    requires forall k | 0 <= k < |q| :: q[k].id < |lens| && q[k].held == lens[q[k].id]
    ensures LenSum(q, lens) == Commands.Bytes(q)
  {
    if q != [] {
      LenSumIsBytes(q[1..], lens);
    }
  }

  /** The lengths of the command frames that wait: queued, or taken and not begun. */
  function WaitingLens(x: Session): nat
    requires SharesMatch(x)
  {
    var lens := CommandLens(x.link.taken);
    LenSum(x.work.queue, lens)
    + if x.work.worker.Seeing? && x.work.worker.task.NotBegun? then lens[x.work.worker.id] else 0
  }

  lemma WaitingIsHeld(x: Session)
    requires SharesMatch(x)
    ensures WaitingLens(x) == Commands.Bytes(x.work.queue) + Commands.WorkerBytes(x.work.worker)
  {
    LenSumIsBytes(x.work.queue, CommandLens(x.link.taken));
  }

  /** In every reachable state the free bytes of a session's command budget and the lengths of the
      command frames waiting, or being refused for a full queue, make up the budget; so the frames
      waiting never come to more than it. */
  lemma LengthsConserved(states: seq<System>, labels: seq<Label>, k: nat, i: nat)
    requires Run(states, labels) && k < |states| && i < |states[k].sessions|
    ensures
      var x := states[k].sessions[i];
      && SharesMatch(x)
      && x.work.free + WaitingLens(x) + x.work.refusal == COMMAND_QUEUE_BYTES
      && WaitingLens(x) <= COMMAND_QUEUE_BYTES
      && (x.work.refusal != 0 ==>
            x.work.commands != [] && |x.work.commands| <= |CommandLens(x.link.taken)|
            && x.work.refusal == CommandLens(x.link.taken)[|x.work.commands| - 1])
  {
    Reachable(states, labels, k);
    SessionSound(states[k], i);
    WaitingIsHeld(states[k].sessions[i]);
  }

  /** A command whose frame the loop took last, refused exactly when 64 wait, or its frame and those
      waiting would come to more than 20 MiB; else it joins the queue, with its frame's length. */
  predicate RoutedByLength(x: Session, y: Session) {
    var c := |x.work.commands|;
    && SharesMatch(x)
    && |y.work.commands| == c + 1 && x.link.taken != [] && x.link.taken[|x.link.taken| - 1].Text?
    && var len := x.link.taken[|x.link.taken| - 1].len;
       if |x.work.queue| == 64 || WaitingLens(x) + len > 20 * 1024 * 1024
       then
         && y.work.commands[c].status.Refused? && y.work.queue == x.work.queue
         && y.work.refusal == if WaitingLens(x) + len > 20 * 1024 * 1024 then 0 else len
       else
         && y.work.commands[c].status.Queued? && y.work.refusal == 0
         && y.work.queue == x.work.queue + [Commands.QueuedCommand(c, len)]
  }

  lemma RouteByLength(x: Session)
    requires x.link.end.None? && x.link.loop.Routing? && x.link.loop.kind.Command?
    requires SharesMatch(x) && Commands.BudgetKept(x.work) && x.work.refusal == 0
    requires |x.work.queue| <= COMMAND_QUEUE_SIZE && !Commands.QueueGone(x.work.worker)
    ensures RoutedByLength(x, AfterRoute(x))
  {
    WaitingIsHeld(x);
  }

  lemma RouteTextGoesTo(s: System)
    requires s.attempt <= U32_MAX && Enabled(s, RouteText)
    ensures |Apply(s, RouteText).sessions| == |s.sessions|
    ensures Last(Apply(s, RouteText)) == AfterRoute(Last(s))
  {
  }

  lemma LastRoutesByLength(s: System)
    requires SessionsInv(s) && Enabled(s, RouteText) && Last(s).link.loop.kind.Command?
    ensures RoutedByLength(Last(s), AfterRoute(Last(s)))
  {
    SessionSound(s, |s.sessions| - 1);
    RouteByLength(Last(s));
  }

  /** Over every run, that is how each command received is routed. */
  lemma RefusedByLength(states: seq<System>, labels: seq<Label>, k: nat)
    requires Run(states, labels) && k < |labels| && labels[k] == RouteText
    requires HasLive(states[k]) && Last(states[k]).link.loop.Routing? && Last(states[k]).link.loop.kind.Command?
    ensures |states[k + 1].sessions| == |states[k].sessions|
    ensures RoutedByLength(Last(states[k]), Last(states[k + 1]))
  {
    Reachable(states, labels, k);
    assert Next(states[k], labels[k], states[k + 1]);
    RouteTextGoesTo(states[k]);
    LastRoutesByLength(states[k]);
  }

  // ── Config responses ───────────────────────────────────────────────

  /** A command's config response enters the outbound channel at most once, only if its handler
      answered a `get_config`; and until shutdown closes the channel it is there for each such command
      once its sender is past it. */
  lemma EachConfigAnsweredOnce(states: seq<System>, labels: seq<Label>, k: nat, i: nat, c: nat)
    requires Run(states, labels) && k < |states|
    ensures ConfigResponse(i, c) in Sent(states[k]) ==>
              Promises.IsCommand(states[k], i, c) && Promises.CommandAt(states[k], i, c).config
    ensures forall a, b | 0 <= a < b < |Sent(states[k])| ::
              Sent(states[k])[a] == ConfigResponse(i, c) ==> Sent(states[k])[b] != ConfigResponse(i, c)
    ensures !states[k].closed && Promises.IsCommand(states[k], i, c) && Promises.CommandAt(states[k], i, c).config ==>
              || ConfigResponse(i, c) in Sent(states[k])
              || Commands.StillAcking(states[k].sessions[i].work.worker, c)
              || (states[k].sessions[i].work.worker.Seeing? && states[k].sessions[i].work.worker.id == c
                  && states[k].sessions[i].work.worker.task.Responding?)
  {
    Reachable(states, labels, k);
    var s := states[k];
    assert ConfigResponse(i, c) in Sent(s) ==> ResponseDone(s, i, c);
    if !s.closed && Promises.IsCommand(s, i, c) && Promises.CommandAt(s, i, c).config {
      CommandsSound(s, i);
      assert ResponseDone(s, i, c) ==> ConfigResponse(i, c) in Sent(s);
    }
  }

  /** And a command's handler has answered a `get_config` exactly if that is how it returned. */
  lemma ConfigIsHowItReturned(states: seq<System>, labels: seq<Label>, k: nat, i: nat, config: bool)
    requires Run(states, labels) && k < |labels| && labels[k] == WorkerStep(i, Commands.HandlerReturns(config))
    ensures i < |states[k].sessions| && states[k].sessions[i].work.worker.Seeing?
    ensures
      var c := states[k].sessions[i].work.worker.id;
      Promises.IsCommand(states[k + 1], i, c) && Promises.CommandAt(states[k + 1], i, c).config == config
  {
    Reachable(states, labels, k);
    assert Next(states[k], labels[k], states[k + 1]);
    CommandsSound(states[k], i);
  }
}
