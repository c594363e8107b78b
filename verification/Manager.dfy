/** The whole manager link: any number of sessions one after another, their workers, the one turn
    to run commands that outlives them, the outbound channel, and the drain at shutdown.

    A labelled step system. One poll of a `biased` select is one step; a session's end and the
    cancelling of its `session_over` are two, so a worker can act in between. */
module Manager {
  import opened Limits
  import Link
  import Commands
  import Reconnect

  /** A session. `over` is its `session_over` token. */
  datatype Session = Session(link: Link.Link, work: Commands.Work, over: bool)

  datatype Waiter = WorkerOf(session: nat) | RunTask

  datatype Frame = Ack(session: nat, id: nat) | ConfigResponse(session: nat, id: nat) | VendorFrame

  /** Where `run` is. `Leaving` has left the loop, `Shut` has closed the outbound channel,
      `Draining` waits for the turn, `Drained` got it and `Abandoned` stopped waiting. */
  datatype Phase = Between | Live | Leaving | Shut | Draining | Drained | Abandoned

  /** `written` logs the frames the loop has taken from the outbound channel to write, and `starts`
      the commands started, as session and command. */
  datatype System = System(
    sessions: seq<Session>,
    phase: Phase,
    shutdown: bool,
    attempt: nat,
    holder: Option<nat>,
    line: seq<Waiter>,
    outbound: seq<Frame>,
    written: seq<Frame>,
    closed: bool,
    starts: seq<(nat, nat)>)

  datatype Label =
    | Connect
    | ConnectFails
    | RequestShutdown
    | LinkStep(link: Link.Label)
    | RouteText
    | CancelOver
    | SessionReturns
    | WorkerStep(session: nat, step: Commands.Label)
    | VendorEmits
    | LeaveLoop
    | CloseOutbound
    | AskTurn
    | TurnGranted
    | DrainTimesOut

  const FRESH := Session(Link.FRESH, Commands.FRESH, false)

  const START := System([], Between, false, 0, None, [], [], [], false, [])

  // ── Steps ──────────────────────────────────────────────────────────

  predicate HasLive(s: System) {
    s.phase.Live? && s.sessions != []
  }

  function Last(s: System): Session
    requires s.sessions != []
  {
    s.sessions[|s.sessions| - 1]
  }

  function SetLast(s: System, x: Session): System
    requires s.sessions != []
  {
    s.(sessions := s.sessions[|s.sessions| - 1 := x])
  }

  function CanSend(s: System): bool {
    s.closed || |s.outbound| < OUTBOUND_CHANNEL_SIZE
  }

  function ViewOf(s: System, i: nat): Commands.View
    requires i < |s.sessions|
  {
    Commands.View(s.sessions[i].over, s.sessions[i].link.end.Some?, CanSend(s))
  }

  predicate LinkStepEnabled(s: System, step: Link.Label) {
    && HasLive(s)
    && Link.Enabled(Last(s).link, step)
    && match step
       case RouteDone | RouteWrite(_) | RouteGone => false  // `RouteText` decides among these
       case ShutdownSeen => s.shutdown
       case StartWrite(what) =>
         if s.outbound != [] then what.Outbound? else what.Heartbeat?
       case _ => true
  }

  predicate Enabled(s: System, l: Label) {
    match l
    case Connect | ConnectFails => s.phase.Between?
    case RequestShutdown => true
    case LinkStep(step) => LinkStepEnabled(s, step)
    case RouteText => HasLive(s) && Last(s).link.end.None? && Last(s).link.loop.Routing?
    case CancelOver => HasLive(s) && Last(s).link.end.Some? && !Last(s).over
    case SessionReturns => HasLive(s) && Last(s).over && Last(s).link.end.Some?
    case WorkerStep(i, step) =>
      && i < |s.sessions|
      && Commands.Enabled(s.sessions[i].work, step, ViewOf(s, i))
      && (step.Grant? ==> s.holder.None? && s.line != [] && s.line[0] == WorkerOf(i))
    case VendorEmits => !s.closed && |s.outbound| < OUTBOUND_CHANNEL_SIZE
    case LeaveLoop => s.phase.Between? && s.shutdown
    case CloseOutbound => s.phase.Leaving?
    case AskTurn => s.phase.Shut?
    case TurnGranted => s.phase.Draining? && s.holder.None? && s.line != [] && s.line[0] == RunTask
    case DrainTimesOut => s.phase.Draining?
  }

  /** The end of a session, or of a write, lets go of what a refusal held. */
  function AfterLinkStep(x: Session, step: Link.Label): Session
    requires Link.Enabled(x.link, step)
  {
    var link := Link.Apply(x.link, step);
    var written := step.WriteOk? || step.WriteRefusedAfterClose?;
    x.(link := link, work := if written || link.end.Some? then Commands.EndRefusal(x.work) else x.work)
  }

  /** `route_inbound` on the frame the loop is on. */
  function AfterRoute(x: Session): Session
    requires x.link.end.None? && x.link.loop.Routing?
  {
    match x.link.loop.kind
    case Command =>
      var (routed, work) := Commands.Route(x.work, x.link.loop.len);
      (match routed
       case Accepted => x.(link := Link.Apply(x.link, Link.RouteDone), work := work)
       case Busy(id) => x.(link := Link.Apply(x.link, Link.RouteWrite(Link.Refusal(id))), work := work)
       case WorkerGone => x.(link := Link.Apply(x.link, Link.RouteGone), work := work))
    case AppPing => x.(link := Link.Apply(x.link, Link.RouteWrite(Link.AppPong)))
    case Ignored => x.(link := Link.Apply(x.link, Link.RouteDone))
  }

  function Without(line: seq<Waiter>, x: Waiter): (r: seq<Waiter>) {
    if line == [] then [] else (if line[0] == x then [] else [line[0]]) + Without(line[1..], x)
  }

  /** The frame a worker step sends, if it sends one. */
  function FrameSent(i: nat, w: Commands.Work, step: Commands.Label): seq<Frame> {
    match step
    case TaskAcks | PanicAcked => if w.worker.Seeing? || w.worker.AckingPanic? then [Ack(i, w.worker.id)] else []
    case TaskResponds => if w.worker.Seeing? then [ConfigResponse(i, w.worker.id)] else []
    case _ => []
  }

  function AfterWorkerStep(s: System, i: nat, step: Commands.Label): System
    requires Enabled(s, WorkerStep(i, step))
  {
    var x := s.sessions[i];
    var work := Commands.Apply(x.work, step, ViewOf(s, i));
    s.(sessions := s.sessions[i := x.(work := work)],
       holder := if Commands.HoldsTurn(work.worker) then Some(i)
                 else if Commands.HoldsTurn(x.work.worker) then None else s.holder,
       line := if step.Ask? then s.line + [WorkerOf(i)]
               else if step.Grant? || step.GiveUp? then Without(s.line, WorkerOf(i)) else s.line,
       outbound := if s.closed then s.outbound else s.outbound + FrameSent(i, x.work, step),
       starts := if step.TakeCommand? then s.starts + [(i, x.work.queue[0].id)] else s.starts)
  }

  function Apply(s: System, l: Label): System
    requires s.attempt <= U32_MAX && Enabled(s, l)
  {
    match l
    case Connect => s.(sessions := s.sessions + [FRESH], phase := Live)
    case ConnectFails => s.(attempt := Reconnect.NextAttempt(s.attempt, Reconnect.ConnectFailed))
    case RequestShutdown => s.(shutdown := true)
    case LinkStep(step) =>
      var s' := SetLast(s, AfterLinkStep(Last(s), step));
      if step == Link.StartWrite(Link.Outbound)
      then s'.(outbound := s.outbound[1..], written := s.written + [s.outbound[0]])
      else s'
    case RouteText => SetLast(s, AfterRoute(Last(s)))
    case CancelOver => SetLast(s, Last(s).(over := true))
    case SessionReturns =>
      var o := Reconnect.Session(Last(s).link.end.value);
      if Reconnect.EndsRun(o) then s.(phase := Leaving)
      else s.(phase := Between, attempt := Reconnect.NextAttempt(s.attempt, o))
    case WorkerStep(i, step) => AfterWorkerStep(s, i, step)
    case VendorEmits => s.(outbound := s.outbound + [VendorFrame])
    case LeaveLoop => s.(phase := Leaving)
    case CloseOutbound => s.(phase := Shut, closed := true)
    case AskTurn => s.(phase := Draining, line := s.line + [RunTask])
    // the permit is let go of at once: nothing is left to ask for it
    case TurnGranted => s.(phase := Drained, line := s.line[1..])
    case DrainTimesOut => s.(phase := Abandoned, line := Without(s.line, RunTask))
  }

  /** A run: its states and the labels between them. */
  ghost predicate Run(states: seq<System>, labels: seq<Label>) {
    && |states| == |labels| + 1
    && states[0] == START
    && forall k | 0 <= k < |labels| :: Next(states[k], labels[k], states[k + 1])
  }

  ghost predicate Next(s: System, l: Label, s': System) {
    s.attempt <= U32_MAX && Enabled(s, l) && s' == Apply(s, l)
  }

  // ── The invariant ──────────────────────────────────────────────────

  // What the loop has received, and what has become of it: the commands routed, the pongs begun
  // and the refusals begun.

  function CommandsIn(taken: seq<Link.Inbound>): nat {
    if taken == [] then 0
    else
      var last := taken[|taken| - 1];
      CommandsIn(taken[..|taken| - 1]) + if last.Text? && last.kind.Command? then 1 else 0
  }

  function PongsDue(taken: seq<Link.Inbound>): seq<Link.Write> {
    if taken == [] then []
    else
      var last := taken[|taken| - 1];
      PongsDue(taken[..|taken| - 1]) +
      if last.Ping? then [Link.Pong] else if last.Text? && last.kind.AppPing? then [Link.AppPong] else []
  }

  function PongsIn(begun: seq<Link.Write>): seq<Link.Write> {
    if begun == [] then []
    else
      var last := begun[|begun| - 1];
      PongsIn(begun[..|begun| - 1]) + if last.Pong? || last.AppPong? then [last] else []
  }

  function RefusalsIn(begun: seq<Link.Write>): seq<nat> {
    if begun == [] then []
    else
      var last := begun[|begun| - 1];
      RefusalsIn(begun[..|begun| - 1]) + if last.Refusal? then [last.id] else []
  }

  function RefusedIn(commands: seq<Commands.Command>): seq<nat> {
    if commands == [] then []
    else
      var k := |commands| - 1;
      RefusedIn(commands[..k]) + if commands[k].status.Refused? then [k] else []
  }

  /** Every command the loop has received is routed, every ping answered with its pong, in order,
      and every refused command, and no other, with one refusal; but for a frame still being
      routed. */
  predicate RoutesMatch(x: Session) {
    var routing := if x.link.loop.Routing? then Some(x.link.loop.kind) else None;
    && CommandsIn(x.link.taken) == |x.work.commands| + (if routing == Some(Link.Command) then 1 else 0)
    && PongsDue(x.link.taken) == PongsIn(x.link.begun) + (if routing == Some(Link.AppPing) then [Link.AppPong] else [])
    && RefusalsIn(x.link.begun) == RefusedIn(x.work.commands)
  }

  /** The lengths of the command frames among what the loop has received. */
  function CommandLens(taken: seq<Link.Inbound>): seq<nat> {
    if taken == [] then []
    else
      var last := taken[|taken| - 1];
      CommandLens(taken[..|taken| - 1]) + if last.Text? && last.kind.Command? then [last.len] else []
  }

  /** What a command holds of the command budget is the length of the frame it came in, wherever it
      is: queued, taken and not begun, or refused and its refusal still being written. */
  predicate SharesAre(w: Commands.Work, lens: seq<nat>) {
    && (forall k | 0 <= k < |w.queue| :: w.queue[k].id < |lens| && w.queue[k].held == lens[w.queue[k].id])
    && (w.worker.Seeing? && w.worker.task.NotBegun? ==>
          w.worker.id < |lens| && w.worker.task.held == lens[w.worker.id])
    && (w.refusal != 0 ==>
          0 < |w.commands| <= |lens| && w.refusal == lens[|w.commands| - 1]
          && w.commands[|w.commands| - 1].status.Refused?)
  }

  predicate SharesMatch(x: Session) {
    && SharesAre(x.work, CommandLens(x.link.taken))
    && (x.link.loop.Routing? ==>
          x.link.taken != [] && x.link.taken[|x.link.taken| - 1] == Link.Text(x.link.loop.len, x.link.loop.kind))
  }

  ghost predicate SessionInv(x: Session) {
    && Link.Inv(x.link)
    && RoutesMatch(x)
    && SharesMatch(x)
    && Commands.Inv(x.work)
    && PartsAgree(x)
  }

  /** The link, the worker and the session's end agree. */
  predicate PartsAgree(x: Session) {
    && (x.over ==> x.link.end.Some?)
    && (Commands.QueueGone(x.work.worker) ==> x.link.end.Some?)
    && (x.work.refusal != 0 ==> x.link.end.None? && x.link.loop.Writing?)
    && x.link.end != Some(Link.AuthenticatedThenLost(Link.WorkerStopped))
  }

  ghost predicate SoundAt(ss: seq<Session>, i: nat)
    requires i < |ss|
  {
    SessionInv(ss[i])
  }

  ghost predicate AllSound(ss: seq<Session>) {
    forall i | 0 <= i < |ss| :: SoundAt(ss, i)
  }

  ghost predicate SessionsInv(s: System) {
    AllSound(s.sessions)
  }

  /** Only the last session can be other than over, and only while `run` is in it. */
  ghost predicate EarlierOver(s: System) {
    && (s.phase.Live? ==> s.sessions != [])
    && forall i | 0 <= i < |s.sessions| :: s.sessions[i].over || (i == |s.sessions| - 1 && s.phase.Live?)
  }

  ghost predicate HolderMatches(s: System) {
    && (s.holder.Some? ==> s.holder.value < |s.sessions|)
    && forall i | 0 <= i < |s.sessions| ::
         Commands.HoldsTurn(s.sessions[i].work.worker) <==> s.holder == Some(i)
  }

  /** Once `run` has been granted the turn, nobody else ever is. */
  ghost predicate DrainedIdle(s: System) {
    s.phase.Drained? ==> s.holder.None?
  }

  /** Those waiting for the turn wait in the order of their sessions, `run` last. */
  ghost predicate Ordered(line: seq<Waiter>) {
    forall a, b | 0 <= a < b < |line| :: Ahead(line[a], line[b])
  }

  predicate Ahead(x: Waiter, y: Waiter) {
    x.WorkerOf? && (y.WorkerOf? ==> x.session < y.session)
  }

  ghost predicate LineMatches(s: System) {
    && Ordered(s.line)
    && (forall a | 0 <= a < |s.line| && s.line[a].WorkerOf? :: s.line[a].session < |s.sessions|)
    && (forall i | 0 <= i < |s.sessions| :: s.sessions[i].work.worker.InLine? <==> WorkerOf(i) in s.line)
    && (RunTask in s.line <==> s.phase.Draining?)
  }

  predicate Before(a: (nat, nat), b: (nat, nat)) {
    a.0 < b.0 || (a.0 == b.0 && a.1 < b.1)
  }

  ghost predicate HasStarted(s: System, i: nat, c: nat) {
    && i < |s.sessions|
    && c < |s.sessions[i].work.commands|
    && Commands.Started(s.sessions[i].work.commands[c].status)
  }

  /** The log of starts: in order of session and, within one, of arrival; and complete. */
  ghost predicate StartsMatch(s: System) {
    && (forall a, b | 0 <= a < b < |s.starts| :: Before(s.starts[a], s.starts[b]))
    && (forall i: nat, c: nat :: HasStarted(s, i, c) <==> (i, c) in s.starts)
  }

  /** Every frame put into the outbound channel so far. */
  function Sent(s: System): seq<Frame> {
    s.written + s.outbound
  }

  predicate AckDone(s: System, i: nat, c: nat) {
    i < |s.sessions| && Commands.AckDone(s.sessions[i].work, c)
  }

  /** The acks sent are those of the commands whose ack is done with, each once; and while the
      channel is open there is one for each. */
  ghost predicate AcksSent(s: System) {
    && (forall i: nat, c: nat :: Ack(i, c) in Sent(s) ==> AckDone(s, i, c))
    && (!s.closed ==> forall i: nat, c: nat :: AckDone(s, i, c) ==> Ack(i, c) in Sent(s))
    && (forall a, b | 0 <= a < b < |Sent(s)| :: Sent(s)[a].Ack? ==> Sent(s)[a] != Sent(s)[b])
  }

  predicate ResponseDone(s: System, i: nat, c: nat) {
    i < |s.sessions| && Commands.ResponseDone(s.sessions[i].work, c)
  }

  /** The responses sent are those of the `get_config` commands whose response is done with, each
      once; and while the channel is open there is one for each. */
  ghost predicate ResponsesSent(s: System) {
    && (forall i: nat, c: nat :: ConfigResponse(i, c) in Sent(s) ==> ResponseDone(s, i, c))
    && (!s.closed ==> forall i: nat, c: nat :: ResponseDone(s, i, c) ==> ConfigResponse(i, c) in Sent(s))
    && (forall a, b | 0 <= a < b < |Sent(s)| :: Sent(s)[a].ConfigResponse? ==> Sent(s)[a] != Sent(s)[b])
  }

  /** A config response goes out behind the ack of the command that asked for it. */
  ghost predicate ResponsesFollow(s: System) {
    FollowAcks(Sent(s))
  }

  ghost predicate FollowAcks(sent: seq<Frame>) {
    forall b | 0 <= b < |sent| && sent[b].ConfigResponse? :: Ack(sent[b].session, sent[b].id) in sent[..b]
  }

  ghost predicate PhaseMatches(s: System) {
    && s.attempt <= U32_MAX
    && (s.closed <==> s.phase in {Shut, Draining, Drained, Abandoned})
    && |s.outbound| <= OUTBOUND_CHANNEL_SIZE
  }

  /** A session ends for shutdown, and `run` leaves its loop, only if shutdown was asked for. */
  ghost predicate ShutdownAsked(s: System) {
    && (forall i | 0 <= i < |s.sessions| && s.sessions[i].link.end == Some(Link.ShutdownRequested) :: s.shutdown)
    && (s.phase.Between? || s.phase.Live? || s.shutdown)
  }

  ghost predicate Inv(s: System) {
    && SessionsInv(s)
    && EarlierOver(s)
    && HolderMatches(s)
    && DrainedIdle(s)
    && LineMatches(s)
    && StartsMatch(s)
    && AcksSent(s)
    && ResponsesSent(s)
    && ResponsesFollow(s)
    && PhaseMatches(s)
    && ShutdownAsked(s)
  }
}
