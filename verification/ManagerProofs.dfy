/** The invariant of the whole link holds in every reachable state, and what follows from it over
    every run: commands never overlap, nothing starts after its session's end, every command is
    accounted for, nobody waits in a cycle, and a close is not a loss. */
module ManagerProofs {
  import opened Limits
  import opened Manager
  import Link
  import LinkProofs
  import Commands
  import CommandProofs

  // ── What the loop received is routed and answered ──────────────────

  lemma TakenOne(taken: seq<Link.Inbound>, item: Link.Inbound)
    ensures CommandsIn(taken + [item]) == CommandsIn(taken) + if item.Text? && item.kind.Command? then 1 else 0
    ensures PongsDue(taken + [item]) == PongsDue(taken) +
            if item.Ping? then [Link.Pong] else if item.Text? && item.kind.AppPing? then [Link.AppPong] else []
  {
    assert (taken + [item])[..|taken|] == taken;
  }

  lemma BegunOne(begun: seq<Link.Write>, what: Link.Write)
    ensures PongsIn(begun + [what]) == PongsIn(begun) + if what.Pong? || what.AppPong? then [what] else []
    ensures RefusalsIn(begun + [what]) == RefusalsIn(begun) + if what.Refusal? then [what.id] else []
  {
    assert (begun + [what])[..|begun|] == begun;
  }

  lemma RoutedOne(commands: seq<Commands.Command>, c: Commands.Command)
    ensures RefusedIn(commands + [c]) == RefusedIn(commands) + if c.status.Refused? then [|commands|] else []
  {
    assert (commands + [c])[..|commands|] == commands;
  }

  lemma {:induction false} RefusedStay(a: seq<Commands.Command>, b: seq<Commands.Command>)
    requires |a| == |b| && forall c | 0 <= c < |a| :: a[c].status.Refused? <==> b[c].status.Refused?
    ensures RefusedIn(a) == RefusedIn(b)
  {
    if a != [] {
      RefusedStay(a[..|a| - 1], b[..|b| - 1]);
    }
  }

  lemma LinkStepKeepsCommands(x: Session, step: Link.Label)
    requires Link.Enabled(x.link, step)
    ensures AfterLinkStep(x, step).work.commands == x.work.commands
    ensures AfterLinkStep(x, step).work.worker == x.work.worker
    ensures AfterLinkStep(x, step).link == Link.Apply(x.link, step)
  {
  }

  lemma TakeKeepsRoutes(x: Session)
    requires RoutesMatch(x) && Link.Enabled(x.link, Link.Take)
    ensures RoutesMatch(AfterLinkStep(x, Link.Take))
  {
    LinkStepKeepsCommands(x, Link.Take);
    var item := x.link.inbound[0];
    TakenOne(x.link.taken, item);
    if item.Ping? {
      BegunOne(x.link.begun, Link.Pong);
    }
  }

  lemma WriteKeepsRoutes(x: Session, what: Link.Write)
    requires RoutesMatch(x) && Link.Enabled(x.link, Link.StartWrite(what))
    requires what.Outbound? || what.Heartbeat?
    ensures RoutesMatch(AfterLinkStep(x, Link.StartWrite(what)))
  {
    LinkStepKeepsCommands(x, Link.StartWrite(what));
    BegunOne(x.link.begun, what);
  }

  /** The other steps receive nothing and begin no write. */
  lemma OtherStepsAddNothing(l: Link.Link, step: Link.Label)
    requires Link.Enabled(l, step) && !step.Take? && !step.StartWrite?
    requires !step.RouteDone? && !step.RouteWrite? && !step.RouteGone?
    ensures Link.Apply(l, step).taken == l.taken && Link.Apply(l, step).begun == l.begun
    ensures Link.Apply(l, step).loop == l.loop || (l.loop.Writing? && Link.Apply(l, step).loop.Select?)
  {
  }

  lemma LinkStepKeepsRoutes(x: Session, step: Link.Label)
    requires RoutesMatch(x) && Link.Enabled(x.link, step)
    requires !step.RouteDone? && !step.RouteWrite? && !step.RouteGone?
    requires step.StartWrite? ==> step.what.Outbound? || step.what.Heartbeat?
    ensures RoutesMatch(AfterLinkStep(x, step))
  {
    if step.Take? {
      TakeKeepsRoutes(x);
    } else if step.StartWrite? {
      WriteKeepsRoutes(x, step.what);
    } else {
      LinkStepKeepsCommands(x, step);
      OtherStepsAddNothing(x.link, step);
    }
  }

  lemma AnswerKeepsRoutes(x: Session)
    requires RoutesMatch(x) && x.link.end.None? && x.link.loop.Routing? && !x.link.loop.kind.Command?
    ensures RoutesMatch(AfterRoute(x))
  {
    BegunOne(x.link.begun, Link.AppPong);
  }

  /** What routing a command comes to, for the link and for the commands. */
  lemma AcceptedAfter(x: Session)
    requires x.link.end.None? && x.link.loop.Routing? && x.link.loop.kind.Command?
    requires Commands.Route(x.work, x.link.loop.len).0.Accepted?
    ensures
      var y := AfterRoute(x);
      && y.link.taken == x.link.taken && y.link.begun == x.link.begun && y.link.loop.Select?
      && y.work.commands == x.work.commands + [Commands.Command(Commands.Queued, 0)]
  {
  }

  lemma RefusedAfter(x: Session)
    requires x.link.end.None? && x.link.loop.Routing? && x.link.loop.kind.Command?
    requires Commands.Route(x.work, x.link.loop.len).0.Busy?
    ensures
      var y := AfterRoute(x);
      && y.link.taken == x.link.taken && y.link.begun == x.link.begun + [Link.Refusal(|x.work.commands|)]
      && y.link.loop.Writing?
      && y.work.commands == x.work.commands + [Commands.Command(Commands.Refused, 1)]
  {
  }

  /** Routing a command keeps the match, told from what it does alone. */
  lemma RoutedKeepsMatch(x: Session, y: Session, refused: bool)
    requires RoutesMatch(x) && x.link.loop.Routing? && x.link.loop.kind.Command?
    requires y.link.taken == x.link.taken && !y.link.loop.Routing?
    requires y.link.begun == if refused then x.link.begun + [Link.Refusal(|x.work.commands|)] else x.link.begun
    requires y.work.commands ==
             x.work.commands
             + [if refused then Commands.Command(Commands.Refused, 1) else Commands.Command(Commands.Queued, 0)]
    ensures RoutesMatch(y)
  {
    RoutedOne(x.work.commands, y.work.commands[|x.work.commands|]);
    BegunOne(x.link.begun, Link.Refusal(|x.work.commands|));
  }

  lemma QueueingKeepsRoutes(x: Session)
    requires RoutesMatch(x) && x.link.end.None? && x.link.loop.Routing? && x.link.loop.kind.Command?
    requires Commands.Route(x.work, x.link.loop.len).0.Accepted?
    ensures RoutesMatch(AfterRoute(x))
  {
    AcceptedAfter(x);
    RoutedKeepsMatch(x, AfterRoute(x), false);
  }

  lemma RefusingKeepsRoutes(x: Session)
    requires RoutesMatch(x) && x.link.end.None? && x.link.loop.Routing? && x.link.loop.kind.Command?
    requires Commands.Route(x.work, x.link.loop.len).0.Busy?
    ensures RoutesMatch(AfterRoute(x))
  {
    RefusedAfter(x);
    RoutedKeepsMatch(x, AfterRoute(x), true);
  }

  lemma RouteKeepsRoutes(x: Session)
    requires RoutesMatch(x) && x.link.end.None? && x.link.loop.Routing?
    requires !Commands.Route(x.work, x.link.loop.len).0.WorkerGone?
    ensures RoutesMatch(AfterRoute(x))
  {
    if !x.link.loop.kind.Command? {
      AnswerKeepsRoutes(x);
    } else if Commands.Route(x.work, x.link.loop.len).0.Accepted? {
      QueueingKeepsRoutes(x);
    } else {
      RefusingKeepsRoutes(x);
    }
  }

  lemma WorkerStepKeepsRoutes(x: Session, step: Commands.Label, v: Commands.View)
    requires RoutesMatch(x) && Commands.Inv(x.work) && Commands.Enabled(x.work, step, v)
    ensures RoutesMatch(x.(work := Commands.Apply(x.work, step, v)))
  {
    CommandProofs.StepGrows(x.work, step, v);
    CommandProofs.StartsOnlyByTaking(x.work, step, v);
    RefusedStay(x.work.commands, Commands.Apply(x.work, step, v).commands);
  }

  // ── Shares of the command budget are frame lengths ─────────────────

  lemma {:induction false} LensAreOfCommands(taken: seq<Link.Inbound>)
    ensures |CommandLens(taken)| == CommandsIn(taken)
  {
    if taken != [] {
      LensAreOfCommands(taken[..|taken| - 1]);
    }
  }

  lemma LensOne(taken: seq<Link.Inbound>, item: Link.Inbound)
    ensures CommandLens(taken + [item]) ==
            CommandLens(taken) + if item.Text? && item.kind.Command? then [item.len] else []
  {
    assert (taken + [item])[..|taken|] == taken;
  }

  lemma MoreLensKeepShares(w: Commands.Work, lens: seq<nat>, more: seq<nat>)
    requires SharesAre(w, lens)
    ensures SharesAre(w, lens + more)
  {
  }

  lemma LinkStepKeepsShares(x: Session, step: Link.Label)
    requires SharesMatch(x) && Link.Enabled(x.link, step)
    requires !step.RouteDone? && !step.RouteWrite? && !step.RouteGone?
    ensures SharesMatch(AfterLinkStep(x, step))
  {
    LinkStepKeepsCommands(x, step);
    if step.Take? {
      var item := x.link.inbound[0];
      LensOne(x.link.taken, item);
      var more: seq<nat> := if item.Text? && item.kind.Command? then [item.len] else [];
      MoreLensKeepShares(x.work, CommandLens(x.link.taken), more);
    } else if step.StartWrite? {
    } else {
      OtherStepsAddNothing(x.link, step);
    }
  }

  lemma RoutedShares(w: Commands.Work, cost: nat, lens: seq<nat>)
    requires SharesAre(w, lens) && w.refusal == 0 && |lens| == |w.commands| + 1 && lens[|w.commands|] == cost
    ensures SharesAre(Commands.Route(w, cost).1, lens)
  {
  }

  lemma LastCommandLen(taken: seq<Link.Inbound>)
    requires taken != [] && taken[|taken| - 1].Text? && taken[|taken| - 1].kind.Command?
    ensures CommandLens(taken) != [] && CommandLens(taken)[|CommandLens(taken)| - 1] == taken[|taken| - 1].len
  {
  }

  lemma RouteKeepsShares(x: Session)
    requires SharesMatch(x) && RoutesMatch(x) && x.work.refusal == 0 && x.link.end.None? && x.link.loop.Routing?
    requires !Commands.Route(x.work, x.link.loop.len).0.WorkerGone?
    ensures SharesMatch(AfterRoute(x))
  {
    if x.link.loop.kind.Command? {
      LensAreOfCommands(x.link.taken);
      LastCommandLen(x.link.taken);
      RoutedShares(x.work, x.link.loop.len, CommandLens(x.link.taken));
    }
  }

  lemma WorkerStepKeepsShares(w: Commands.Work, step: Commands.Label, v: Commands.View, lens: seq<nat>)
    requires SharesAre(w, lens) && Commands.Inv(w) && Commands.Enabled(w, step, v)
    ensures SharesAre(Commands.Apply(w, step, v), lens)
  {
    CommandProofs.StepGrows(w, step, v);
    CommandProofs.StartsOnlyByTaking(w, step, v);
    CommandProofs.QueueGoesAtEnd(w, step, v);
  }

  // ── One session's steps keep its invariant ─────────────────────────

  /** A refusal's bytes are let go of when its write, or the session, is over. */
  lemma LinkStepKeepsWork(x: Session, step: Link.Label)
    requires Commands.Inv(x.work) && Link.Enabled(x.link, step)
    ensures Commands.Inv(AfterLinkStep(x, step).work)
    ensures AfterLinkStep(x, step).work.worker == x.work.worker
  {
  }

  lemma LinkStepKeepsAgreement(x: Session, step: Link.Label)
    requires PartsAgree(x) && Link.Enabled(x.link, step) && !step.RouteGone?
    ensures PartsAgree(AfterLinkStep(x, step))
  {
  }

  lemma LinkStepKeepsSession(x: Session, step: Link.Label)
    requires AllSound([x]) && Link.Enabled(x.link, step)
    requires !step.RouteDone? && !step.RouteWrite? && !step.RouteGone?
    requires step.StartWrite? ==> step.what.Outbound? || step.what.Heartbeat?
    ensures SessionInv(AfterLinkStep(x, step))
  {
    OneSound(x);
    LinkStepKeepsRoutes(x, step);
    LinkStepKeepsShares(x, step);
    LinkStepKeepsCommands(x, step);
    LinkStepKeepsWork(x, step);
    LinkStepKeepsAgreement(x, step);
    LinkProofs.InvKept(x.link, step);
  }

  /** The worker of a live session still has its queue, so the loop never finds it gone. */
  lemma RouteFindsWorker(x: Session)
    requires AllSound([x]) && x.link.end.None? && x.link.loop.Routing?
    ensures !Commands.Route(x.work, x.link.loop.len).0.WorkerGone?
  {
    OneSound(x);
  }

  lemma RouteKeepsSession(x: Session)
    requires AllSound([x]) && x.link.end.None? && x.link.loop.Routing?
    ensures SessionInv(AfterRoute(x))
  {
    OneSound(x);
    var len := x.link.loop.len;
    RouteFindsWorker(x);
    RouteKeepsRoutes(x);
    RouteKeepsShares(x);
    match x.link.loop.kind
    case Ignored => LinkProofs.InvKept(x.link, Link.RouteDone);
    case AppPing => LinkProofs.InvKept(x.link, Link.RouteWrite(Link.AppPong));
    case Command =>
      CommandProofs.RouteKeepsInv(x.work, len);
      var (routed, work) := Commands.Route(x.work, len);
      if routed.Accepted? {
        LinkProofs.InvKept(x.link, Link.RouteDone);
      } else {
        LinkProofs.InvKept(x.link, Link.RouteWrite(Link.Refusal(routed.id)));
      }
  }

  lemma NewWorkKeepsSession(x: Session, work: Commands.Work)
    requires AllSound([x]) && RoutesMatch(x.(work := work)) && Commands.Inv(work)
    requires SharesAre(work, CommandLens(x.link.taken))
    requires Commands.QueueGone(work.worker) ==> Commands.QueueGone(x.work.worker) || x.link.end.Some?
    requires work.refusal == x.work.refusal
    ensures SessionInv(x.(work := work))
  {
    OneSound(x);
  }

  lemma WorkerStepKeepsSession(x: Session, step: Commands.Label, v: Commands.View)
    requires AllSound([x]) && Commands.Enabled(x.work, step, v)
    requires v.over == x.over && v.ended == x.link.end.Some?
    ensures SessionInv(x.(work := Commands.Apply(x.work, step, v)))
  {
    OneSound(x);
    WorkerStepKeepsRoutes(x, step, v);
    CommandProofs.InvKept(x.work, step, v);
    CommandProofs.QueueGoesAtEnd(x.work, step, v);
    WorkerStepKeepsShares(x.work, step, v, CommandLens(x.link.taken));
    NewWorkKeepsSession(x, Commands.Apply(x.work, step, v));
  }

  lemma FreshSession()
    ensures SessionInv(FRESH)
  {
    LinkProofs.FreshInv();
    CommandProofs.FreshInv();
  }

  // ── Every step keeps each part of the invariant ────────────────────

  /** The session a step changes, if it changes one. */
  function Touched(s: System, l: Label): Option<nat> {
    match l
    case LinkStep(_) | RouteText | CancelOver => if s.sessions != [] then Some(|s.sessions| - 1) else None
    case WorkerStep(i, _) => Some(i)
    case _ => None
  }

  /** What a step makes of the session it changes. */
  function Touch(s: System, l: Label): Session
    requires Enabled(s, l) && Touched(s, l).Some?
  {
    match l
    case LinkStep(step) => AfterLinkStep(Last(s), step)
    case RouteText => AfterRoute(Last(s))
    case CancelOver => Last(s).(over := true)
    case WorkerStep(i, step) =>
      s.sessions[i].(work := Commands.Apply(s.sessions[i].work, step, ViewOf(s, i)))
  }

  lemma SessionsAfter(s: System, l: Label)
    requires s.attempt <= U32_MAX && Enabled(s, l)
    ensures Apply(s, l).sessions ==
              if l.Connect? then s.sessions + [FRESH]
              else if Touched(s, l).Some? then s.sessions[Touched(s, l).value := Touch(s, l)]
              else s.sessions
  {
  }

  lemma SessionSound(s: System, i: nat)
    requires SessionsInv(s) && i < |s.sessions|
    ensures SessionInv(s.sessions[i])
  {
    assert SoundAt(s.sessions, i);
  }

  // A session that is sound is passed on as a sequence of one, which keeps what that means folded up.

  lemma SoundThere(ss: seq<Session>, i: nat, tt: seq<Session>, j: nat)
    requires AllSound(ss) && i < |ss| && j < |tt| && tt[j] == ss[i]
    ensures SoundAt(tt, j)
  {
    assert SoundAt(ss, i);
  }

  lemma SoundOne(x: Session)
    requires SessionInv(x)
    ensures AllSound([x])
  {
  }

  lemma OneSound(x: Session)
    requires AllSound([x])
    ensures SessionInv(x)
  {
    assert SoundAt([x], 0);
  }

  lemma SoundAmong(ss: seq<Session>, i: nat)
    requires AllSound(ss) && i < |ss|
    ensures AllSound([ss[i]])
  {
    var one := [ss[i]];
    forall j | 0 <= j < |one| ensures SoundAt(one, j) {
      SoundThere(ss, i, one, j);
    }
  }

  lemma SetOneKeepsAll(ss: seq<Session>, i: nat, x: Session)
    requires i < |ss| && AllSound([x])
    requires AllSound(ss)
    ensures AllSound(ss[i := x])
  {
    var now := ss[i := x];
    forall j | 0 <= j < |now| ensures SoundAt(now, j) {
      if j == i {
        SoundThere([x], 0, now, j);
      } else {
        SoundThere(ss, j, now, j);
      }
    }
  }

  lemma AddOneKeepsAll(ss: seq<Session>, x: Session)
    requires AllSound([x])
    requires AllSound(ss)
    ensures AllSound(ss + [x])
  {
    var more := ss + [x];
    forall j | 0 <= j < |more| ensures SoundAt(more, j) {
      if j < |ss| {
        SoundThere(ss, j, more, j);
      } else {
        SoundThere([x], 0, more, j);
      }
    }
  }

  lemma LinkStepSound(x: Session, step: Link.Label)
    requires AllSound([x]) && Link.Enabled(x.link, step)
    requires !step.RouteDone? && !step.RouteWrite? && !step.RouteGone?
    requires step.StartWrite? ==> step.what.Outbound? || step.what.Heartbeat?
    ensures AllSound([AfterLinkStep(x, step)])
  {
    LinkStepKeepsSession(x, step);
    SoundOne(AfterLinkStep(x, step));
  }

  lemma RouteSound(x: Session)
    requires AllSound([x]) && x.link.end.None? && x.link.loop.Routing?
    ensures AllSound([AfterRoute(x)])
  {
    RouteKeepsSession(x);
    SoundOne(AfterRoute(x));
  }

  lemma WorkerStepSound(x: Session, step: Commands.Label, v: Commands.View)
    requires AllSound([x]) && Commands.Enabled(x.work, step, v)
    requires v.over == x.over && v.ended == x.link.end.Some?
    ensures AllSound([x.(work := Commands.Apply(x.work, step, v))])
  {
    WorkerStepKeepsSession(x, step, v);
    SoundOne(x.(work := Commands.Apply(x.work, step, v)));
  }

  lemma CancelSound(x: Session)
    requires AllSound([x]) && x.link.end.Some?
    ensures AllSound([x.(over := true)])
  {
    OneSound(x);
    SoundOne(x.(over := true));
  }

  lemma TouchIsSound(s: System, l: Label)
    requires SessionsInv(s) && Enabled(s, l) && Touched(s, l).Some?
    ensures AllSound([Touch(s, l)])
  {
    SoundAmong(s.sessions, Touched(s, l).value);
    match l
    case LinkStep(step) => LinkStepSound(Last(s), step);
    case RouteText => RouteSound(Last(s));
    case WorkerStep(i, step) => WorkerStepSound(s.sessions[i], step, ViewOf(s, i));
    case CancelOver => CancelSound(Last(s));
  }

  lemma SessionsStep(s: System, l: Label)
    requires SessionsInv(s) && s.attempt <= U32_MAX && Enabled(s, l)
    ensures SessionsInv(Apply(s, l))
  {
    SessionsAfter(s, l);
    if l.Connect? {
      FreshSession();
      SoundOne(FRESH);
      AddOneKeepsAll(s.sessions, FRESH);
    } else if Touched(s, l).Some? {
      TouchIsSound(s, l);
      SetOneKeepsAll(s.sessions, Touched(s, l).value, Touch(s, l));
    }
  }

  lemma EarlierOverStep(s: System, l: Label)
    requires EarlierOver(s) && s.attempt <= U32_MAX && Enabled(s, l)
    ensures EarlierOver(Apply(s, l))
  {
    SessionsAfter(s, l);
  }

  lemma PhaseStep(s: System, l: Label)
    requires PhaseMatches(s) && Enabled(s, l)
    ensures PhaseMatches(Apply(s, l))
  {
  }

  /** Only a worker's own steps move it. */
  lemma WorkersAfter(s: System, l: Label)
    requires s.attempt <= U32_MAX && Enabled(s, l)
    ensures |Apply(s, l).sessions| == |s.sessions| + if l.Connect? then 1 else 0
    ensures l.Connect? ==> Apply(s, l).sessions[|s.sessions|] == FRESH
    ensures forall j | 0 <= j < |s.sessions| && !(l.WorkerStep? && l.session == j) ::
              Apply(s, l).sessions[j].work.worker == s.sessions[j].work.worker
  {
    SessionsAfter(s, l);
  }

  /** The turn goes to a worker only when it is free, and only a holder gives it up. */
  lemma HolderAfter(s: System, l: Label)
    requires HolderMatches(s) && s.attempt <= U32_MAX && Enabled(s, l)
    ensures
      var s' := Apply(s, l);
      if !l.WorkerStep? then s'.holder == s.holder
      else
        var i := l.session;
        && (Commands.HoldsTurn(s'.sessions[i].work.worker) ==>
              s'.holder == Some(i) && (s.holder.None? || s.holder == Some(i)))
        && (!Commands.HoldsTurn(s'.sessions[i].work.worker) ==>
              s'.holder == (if s.holder == Some(i) then None else s.holder))
  {
  }

  lemma HolderStep(s: System, l: Label)
    requires HolderMatches(s) && s.attempt <= U32_MAX && Enabled(s, l)
    ensures HolderMatches(Apply(s, l))
  {
    WorkersAfter(s, l);
    HolderAfter(s, l);
  }

  lemma DrainedStep(s: System, l: Label)
    requires DrainedIdle(s) && HolderMatches(s) && EarlierOver(s) && s.attempt <= U32_MAX && Enabled(s, l)
    ensures DrainedIdle(Apply(s, l))
  {
    if l.WorkerStep? {
      assert s.phase.Drained? ==> s.sessions[l.session].over;
    }
  }

  // ── The line for the turn ──────────────────────────────────────────

  lemma {:induction false} WithoutIs(line: seq<Waiter>, x: Waiter)
    requires forall a, b | 0 <= a < b < |line| :: line[a] != line[b]
    ensures forall y :: y in Without(line, x) <==> y in line && y != x
    ensures x !in line ==> Without(line, x) == line
  {
    if line != [] {
      WithoutIs(line[1..], x);
      assert line == [line[0]] + line[1..];
    }
  }

  lemma OrderedDistinct(line: seq<Waiter>)
    requires Ordered(line)
    ensures forall a, b | 0 <= a < b < |line| :: line[a] != line[b]
  {
    forall a, b | 0 <= a < b < |line| ensures line[a] != line[b] {
      assert Ahead(line[a], line[b]);
    }
  }

  lemma OrderedTail(line: seq<Waiter>)
    requires Ordered(line) && line != []
    ensures Ordered(line[1..])
    ensures forall y | y in line[1..] :: Ahead(line[0], y)
  {
    var tail := line[1..];
    forall a, b | 0 <= a < b < |tail| ensures Ahead(tail[a], tail[b]) {
      assert Ahead(line[a + 1], line[b + 1]);
    }
    forall b | 0 <= b < |tail| ensures Ahead(line[0], tail[b]) {
      assert Ahead(line[0], line[b + 1]);
    }
  }

  lemma OrderedCons(x: Waiter, rest: seq<Waiter>)
    requires Ordered(rest) && forall y | y in rest :: Ahead(x, y)
    ensures Ordered([x] + rest)
  {
    var line := [x] + rest;
    forall a, b | 0 <= a < b < |line| ensures Ahead(line[a], line[b]) {
      assert line[b] == rest[b - 1] && rest[b - 1] in rest;
      if a > 0 {
        assert Ahead(rest[a - 1], rest[b - 1]);
      }
    }
  }

  lemma {:induction false} WithoutOrdered(line: seq<Waiter>, x: Waiter)
    requires Ordered(line)
    ensures Ordered(Without(line, x))
  {
    if line != [] {
      OrderedTail(line);
      WithoutOrdered(line[1..], x);
      OrderedDistinct(line[1..]);
      WithoutIs(line[1..], x);
      OrderedCons(line[0], Without(line[1..], x));
      assert [] + Without(line[1..], x) == Without(line[1..], x);
    }
  }

  /** What a step does to the line: someone joins at its end, or leaves it. */
  lemma LineAfter(s: System, l: Label)
    requires Ordered(s.line) && s.attempt <= U32_MAX && Enabled(s, l)
    ensures
      var line := Apply(s, l).line;
      match l
      case WorkerStep(i, Ask) => line == s.line + [WorkerOf(i)]
      case WorkerStep(i, Grant) => line == Without(s.line, WorkerOf(i))
      case WorkerStep(i, GiveUp) => line == Without(s.line, WorkerOf(i))
      case AskTurn => line == s.line + [RunTask]
      case TurnGranted => line == Without(s.line, RunTask)
      case DrainTimesOut => line == Without(s.line, RunTask)
      case _ => line == s.line
  {
    if l.TurnGranted? {
      OrderedTail(s.line);
      OrderedDistinct(s.line[1..]);
      WithoutIs(s.line[1..], RunTask);
    }
  }

  /** Only the live session's worker can ask, so it joins behind those of earlier sessions. */
  lemma AskKeepsOrder(s: System, i: nat)
    requires LineMatches(s) && EarlierOver(s) && Enabled(s, WorkerStep(i, Commands.Ask))
    ensures Ordered(s.line + [WorkerOf(i)])
  {
    assert i == |s.sessions| - 1 && s.phase.Live?;
    forall a | 0 <= a < |s.line| ensures Ahead(s.line[a], WorkerOf(i)) {
      assert s.line[a] in s.line;
    }
  }

  lemma LineOrderKept(s: System, l: Label)
    requires LineMatches(s) && EarlierOver(s) && s.attempt <= U32_MAX && Enabled(s, l)
    ensures Ordered(Apply(s, l).line)
  {
    LineAfter(s, l);
    match l
    case WorkerStep(i, step) =>
      if step.Ask? {
        AskKeepsOrder(s, i);
      } else {
        WithoutOrdered(s.line, WorkerOf(i));
      }
    case TurnGranted | DrainTimesOut => WithoutOrdered(s.line, RunTask);
    case AskTurn => RunJoinsLast(s);
    case _ =>
  }

  lemma RunJoinsLast(s: System)
    requires LineMatches(s) && !s.phase.Draining?
    ensures Ordered(s.line + [RunTask])
  {
    forall a | 0 <= a < |s.line| ensures Ahead(s.line[a], RunTask) {
      assert s.line[a] in s.line;
    }
  }

  lemma JoinsAndLeaves(w: Commands.Work, step: Commands.Label, v: Commands.View)
    requires Commands.Enabled(w, step, v)
    ensures Commands.Apply(w, step, v).worker.InLine? <==>
            step.Ask? || (w.worker.InLine? && !step.Grant? && !step.GiveUp?)
    ensures step.Ask? ==> w.worker.Spawned?
  {
  }

  lemma LineWorkersKept(s: System, i: nat, step: Commands.Label)
    requires LineMatches(s) && s.attempt <= U32_MAX && Enabled(s, WorkerStep(i, step))
    ensures
      var s' := Apply(s, WorkerStep(i, step));
      forall j | 0 <= j < |s'.sessions| :: s'.sessions[j].work.worker.InLine? <==> WorkerOf(j) in s'.line
  {
    LineAfter(s, WorkerStep(i, step));
    WorkersAfter(s, WorkerStep(i, step));
    OrderedDistinct(s.line);
    WithoutIs(s.line, WorkerOf(i));
    JoinsAndLeaves(s.sessions[i].work, step, ViewOf(s, i));
  }

  lemma LineWorkerStep(s: System, i: nat, step: Commands.Label)
    requires LineMatches(s) && EarlierOver(s) && s.attempt <= U32_MAX && Enabled(s, WorkerStep(i, step))
    ensures LineMatches(Apply(s, WorkerStep(i, step)))
  {
    var l := WorkerStep(i, step);
    LineOrderKept(s, l);
    LineWorkersKept(s, i, step);
    LineSessionsKept(s, l);
    LineAfter(s, l);
    OrderedDistinct(s.line);
    WithoutIs(s.line, WorkerOf(i));
  }

  lemma LineStep(s: System, l: Label)
    requires LineMatches(s) && EarlierOver(s) && s.attempt <= U32_MAX && Enabled(s, l)
    ensures LineMatches(Apply(s, l))
  {
    if l.WorkerStep? {
      LineWorkerStep(s, l.session, l.step);
    } else {
      LineOrderKept(s, l);
      LineSessionsKept(s, l);
      LineAfter(s, l);
      WorkersAfter(s, l);
      if l.TurnGranted? || l.DrainTimesOut? {
        OrderedDistinct(s.line);
        WithoutIs(s.line, RunTask);
      }
    }
  }

  lemma LineSessionsKept(s: System, l: Label)
    requires LineMatches(s) && s.attempt <= U32_MAX && Enabled(s, l)
    ensures
      var s' := Apply(s, l);
      forall a | 0 <= a < |s'.line| && s'.line[a].WorkerOf? :: s'.line[a].session < |s'.sessions|
  {
    LineAfter(s, l);
    WorkersAfter(s, l);
    OrderedDistinct(s.line);
    WithoutIs(s.line, RunTask);
    if l.WorkerStep? {
      WithoutIs(s.line, WorkerOf(l.session));
    }
    var s' := Apply(s, l);
    forall a | 0 <= a < |s'.line| && s'.line[a].WorkerOf? ensures s'.line[a].session < |s'.sessions| {
      assert s'.line[a] in s'.line;
      assert s'.line[a] in s.line || (l.WorkerStep? && s'.line[a] == WorkerOf(l.session));
    }
  }

  // ── The log of starts ──────────────────────────────────────────────

  /** The loop only adds to the commands: one it queues or refuses. */
  predicate LoopAdds(w: Commands.Work, w': Commands.Work) {
    && w'.worker == w.worker
    && (w'.commands == w.commands
        || w'.commands == w.commands + [Commands.Command(Commands.Queued, 0)]
        || w'.commands == w.commands + [Commands.Command(Commands.Refused, 1)])
  }

  lemma RouteAdds(x: Session)
    requires x.link.end.None? && x.link.loop.Routing?
    ensures LoopAdds(x.work, AfterRoute(x).work)
  {
  }

  lemma LoopOnlyAdds(s: System, l: Label)
    requires Enabled(s, l) && Touched(s, l).Some? && !l.WorkerStep?
    ensures LoopAdds(Last(s).work, Touch(s, l).work)
  {
    match l
    case LinkStep(step) => LinkStepKeepsCommands(Last(s), step);
    case RouteText => RouteAdds(Last(s));
    case CancelOver =>
  }

  lemma AddingStartsNothing(w: Commands.Work, w': Commands.Work, c: nat)
    requires LoopAdds(w, w')
    ensures c < |w'.commands| && Commands.Started(w'.commands[c].status) <==>
            c < |w.commands| && Commands.Started(w.commands[c].status)
    ensures Commands.AckDone(w', c) <==> Commands.AckDone(w, c)
    ensures Commands.ResponseDone(w', c) <==> Commands.ResponseDone(w, c)
  {
  }

  predicate StartedIn(x: Session, c: nat) {
    c < |x.work.commands| && Commands.Started(x.work.commands[c].status)
  }

  predicate IsTake(l: Label) {
    l.WorkerStep? && l.step.TakeCommand?
  }

  lemma WorkerTouchStarts(s: System, i: nat, step: Commands.Label, c: nat)
    requires Enabled(s, WorkerStep(i, step)) && Commands.Inv(s.sessions[i].work)
    ensures StartedIn(Touch(s, WorkerStep(i, step)), c) <==>
            StartedIn(s.sessions[i], c) || (step.TakeCommand? && c == s.sessions[i].work.queue[0].id)
  {
    CommandProofs.StartsOnlyByTaking(s.sessions[i].work, step, ViewOf(s, i));
  }

  lemma LoopTouchStarts(s: System, l: Label, c: nat)
    requires Enabled(s, l) && Touched(s, l).Some? && !l.WorkerStep?
    ensures StartedIn(Touch(s, l), c) <==> StartedIn(Last(s), c)
  {
    LoopOnlyAdds(s, l);
    AddingStartsNothing(Last(s).work, Touch(s, l).work, c);
  }

  /** The commands a step starts: the one a worker takes. */
  predicate StartsIt(s: System, l: Label, i: nat, c: nat)
    requires Enabled(s, l)
  {
    IsTake(l) && (i, c) == (l.session, s.sessions[l.session].work.queue[0].id)
  }

  lemma CommandsSound(s: System, i: nat)
    requires SessionsInv(s) && i < |s.sessions|
    ensures Commands.Inv(s.sessions[i].work)
  {
    SessionSound(s, i);
  }

  lemma StartsFromTouch(s: System, l: Label, i: nat, c: nat)
    requires s.attempt <= U32_MAX && Enabled(s, l)
    requires Touched(s, l) == Some(i) && i < |s.sessions| ==>
               (StartedIn(Touch(s, l), c) <==> StartedIn(s.sessions[i], c) || StartsIt(s, l, i, c))
    ensures HasStarted(Apply(s, l), i, c) <==> HasStarted(s, i, c) || StartsIt(s, l, i, c)
  {
    SessionsAfter(s, l);
  }

  lemma StartsAfter(s: System, l: Label, i: nat, c: nat)
    requires SessionsInv(s) && s.attempt <= U32_MAX && Enabled(s, l)
    ensures HasStarted(Apply(s, l), i, c) <==> HasStarted(s, i, c) || StartsIt(s, l, i, c)
  {
    if l.WorkerStep? {
      CommandsSound(s, l.session);
      WorkerTouchStarts(s, l.session, l.step, c);
    } else if Touched(s, l) == Some(i) {
      LoopTouchStarts(s, l, c);
    }
    StartsFromTouch(s, l, i, c);
  }

  lemma TakeComesLast(s: System, l: Label)
    requires SessionsInv(s) && EarlierOver(s) && StartsMatch(s) && Enabled(s, l) && IsTake(l)
    ensures forall a | 0 <= a < |s.starts| ::
              Before(s.starts[a], (l.session, s.sessions[l.session].work.queue[0].id))
  {
    var i := l.session;
    CommandsSound(s, i);
    CommandProofs.StartsOnlyByTaking(s.sessions[i].work, l.step, ViewOf(s, i));
    assert i == |s.sessions| - 1;
    forall a | 0 <= a < |s.starts| ensures Before(s.starts[a], (i, s.sessions[i].work.queue[0].id)) {
      var p := s.starts[a];
      assert (p.0, p.1) in s.starts;
      assert HasStarted(s, p.0, p.1);
    }
  }

  lemma StartLogAfter(s: System, l: Label)
    requires s.attempt <= U32_MAX && Enabled(s, l)
    ensures Apply(s, l).starts ==
            s.starts + if IsTake(l) then [(l.session, s.sessions[l.session].work.queue[0].id)] else []
  {
  }

  lemma StartLogComplete(s: System, l: Label, i: nat, c: nat)
    requires SessionsInv(s) && StartsMatch(s) && s.attempt <= U32_MAX && Enabled(s, l)
    ensures HasStarted(Apply(s, l), i, c) <==> (i, c) in Apply(s, l).starts
  {
    StartsAfter(s, l, i, c);
    StartLogAfter(s, l);
  }

  lemma StartLogOrdered(s: System, l: Label)
    requires SessionsInv(s) && EarlierOver(s) && StartsMatch(s) && s.attempt <= U32_MAX && Enabled(s, l)
    ensures
      var starts := Apply(s, l).starts;
      forall a, b | 0 <= a < b < |starts| :: Before(starts[a], starts[b])
  {
    StartLogAfter(s, l);
    if IsTake(l) {
      TakeComesLast(s, l);
    }
  }

  lemma StartsStep(s: System, l: Label)
    requires SessionsInv(s) && EarlierOver(s) && StartsMatch(s) && s.attempt <= U32_MAX && Enabled(s, l)
    ensures StartsMatch(Apply(s, l))
  {
    StartLogOrdered(s, l);
    forall i: nat, c: nat ensures HasStarted(Apply(s, l), i, c) <==> (i, c) in Apply(s, l).starts {
      StartLogComplete(s, l, i, c);
    }
  }

  // ── Acks sent ──────────────────────────────────────────────────────

  /** What a step adds to the frames put into the outbound channel. */
  function FramesAdded(s: System, l: Label): seq<Frame>
    requires Enabled(s, l)
  {
    match l
    case VendorEmits => [VendorFrame]
    case WorkerStep(i, step) => if s.closed then [] else FrameSent(i, s.sessions[i].work, step)
    case _ => []
  }

  lemma SentAfter(s: System, l: Label)
    requires s.attempt <= U32_MAX && Enabled(s, l)
    ensures Sent(Apply(s, l)) == Sent(s) + FramesAdded(s, l)
    ensures Apply(s, l).closed <==> s.closed || l.CloseOutbound?
  {
  }

  predicate SendsAck(l: Label) {
    l.WorkerStep? && (l.step.TaskAcks? || l.step.PanicAcked?)
  }

  /** The commands a step is done acking: the one whose ack it sends. */
  predicate SendsIts(s: System, l: Label, i: nat, c: nat)
    requires Enabled(s, l)
  {
    SendsAck(l) && i == l.session && c == s.sessions[i].work.worker.id
  }

  lemma WorkerTouchAcks(s: System, i: nat, step: Commands.Label, c: nat)
    requires Enabled(s, WorkerStep(i, step)) && Commands.Inv(s.sessions[i].work)
    ensures Commands.AckDone(Touch(s, WorkerStep(i, step)).work, c) <==>
            Commands.AckDone(s.sessions[i].work, c) || SendsIts(s, WorkerStep(i, step), i, c)
  {
    CommandProofs.AcksDoneBySending(s.sessions[i].work, step, ViewOf(s, i), c);
  }

  lemma LoopTouchAcks(s: System, l: Label, c: nat)
    requires Enabled(s, l) && Touched(s, l).Some? && !l.WorkerStep?
    ensures Commands.AckDone(Touch(s, l).work, c) <==> Commands.AckDone(Last(s).work, c)
  {
    LoopOnlyAdds(s, l);
    AddingStartsNothing(Last(s).work, Touch(s, l).work, c);
  }

  lemma AcksFromTouch(s: System, l: Label, i: nat, c: nat)
    requires s.attempt <= U32_MAX && Enabled(s, l)
    requires Touched(s, l) == Some(i) && i < |s.sessions| ==>
               (Commands.AckDone(Touch(s, l).work, c) <==> Commands.AckDone(s.sessions[i].work, c) || SendsIts(s, l, i, c))
    ensures AckDone(Apply(s, l), i, c) <==> AckDone(s, i, c) || SendsIts(s, l, i, c)
  {
    SessionsAfter(s, l);
  }

  lemma AcksDoneAfter(s: System, l: Label, i: nat, c: nat)
    requires SessionsInv(s) && s.attempt <= U32_MAX && Enabled(s, l)
    ensures AckDone(Apply(s, l), i, c) <==> AckDone(s, i, c) || SendsIts(s, l, i, c)
  {
    if l.WorkerStep? {
      CommandsSound(s, l.session);
      WorkerTouchAcks(s, l.session, l.step, c);
    } else if Touched(s, l) == Some(i) {
      LoopTouchAcks(s, l, c);
    }
    AcksFromTouch(s, l, i, c);
  }

  /** The ack a worker or its task sends has not been sent before. */
  lemma AckIsNew(s: System, l: Label)
    requires SessionsInv(s) && AcksSent(s) && Enabled(s, l) && SendsAck(l)
    ensures Ack(l.session, s.sessions[l.session].work.worker.id) !in Sent(s)
  {
    var w := s.sessions[l.session].work.worker;
    assert !AckDone(s, l.session, w.id);
  }

  /** An ack is sent by the step that is done with it. */
  lemma AckAdded(s: System, l: Label, f: Frame)
    requires Enabled(s, l)
    ensures f.Ack? && f in FramesAdded(s, l) ==>
              SendsAck(l) && f == Ack(l.session, s.sessions[l.session].work.worker.id)
    ensures SendsAck(l) && !s.closed ==>
              FramesAdded(s, l) == [Ack(l.session, s.sessions[l.session].work.worker.id)]
    ensures |FramesAdded(s, l)| <= 1
  {
  }

  lemma AckSentWhenDone(s: System, l: Label, i: nat, c: nat)
    requires SessionsInv(s) && AcksSent(s) && s.attempt <= U32_MAX && Enabled(s, l)
    ensures Ack(i, c) in Sent(Apply(s, l)) ==> AckDone(Apply(s, l), i, c)
    ensures !Apply(s, l).closed && AckDone(Apply(s, l), i, c) ==> Ack(i, c) in Sent(Apply(s, l))
  {
    SentAfter(s, l);
    AckAdded(s, l, Ack(i, c));
    AcksDoneAfter(s, l, i, c);
  }

  lemma AckSentOnce(s: System, l: Label)
    requires SessionsInv(s) && AcksSent(s) && s.attempt <= U32_MAX && Enabled(s, l)
    ensures
      var sent := Sent(Apply(s, l));
      forall a, b | 0 <= a < b < |sent| :: sent[a].Ack? ==> sent[a] != sent[b]
  {
    SentAfter(s, l);
    var sent := Sent(Apply(s, l));
    forall a, b | 0 <= a < b < |sent| && sent[a].Ack? ensures sent[a] != sent[b] {
      assert sent[a] == Sent(s)[a] && sent[a] in Sent(s);
      if b == |Sent(s)| {
        assert sent[b] == FramesAdded(s, l)[0];
        AckAdded(s, l, sent[b]);
        if SendsAck(l) {
          AckIsNew(s, l);
        }
      }
    }
  }

  lemma AcksStep(s: System, l: Label)
    requires SessionsInv(s) && AcksSent(s) && s.attempt <= U32_MAX && Enabled(s, l)
    ensures AcksSent(Apply(s, l))
  {
    AckSentOnce(s, l);
    forall i: nat, c: nat
      ensures Ack(i, c) in Sent(Apply(s, l)) ==> AckDone(Apply(s, l), i, c)
      ensures !Apply(s, l).closed && AckDone(Apply(s, l), i, c) ==> Ack(i, c) in Sent(Apply(s, l))
    {
      AckSentWhenDone(s, l, i, c);
    }
  }

  // ── Config responses sent ──────────────────────────────────────────

  predicate SendsResponse(l: Label) {
    l.WorkerStep? && l.step.TaskResponds?
  }

  /** The command whose response a step is done with: the one it sends. */
  predicate RespondsTo(s: System, l: Label, i: nat, c: nat)
    requires Enabled(s, l)
  {
    SendsResponse(l) && i == l.session && c == s.sessions[i].work.worker.id
  }

  lemma WorkerTouchResponses(s: System, i: nat, step: Commands.Label, c: nat)
    requires Enabled(s, WorkerStep(i, step)) && Commands.Inv(s.sessions[i].work)
    ensures Commands.ResponseDone(Touch(s, WorkerStep(i, step)).work, c) <==>
            Commands.ResponseDone(s.sessions[i].work, c) || RespondsTo(s, WorkerStep(i, step), i, c)
  {
    CommandProofs.ResponsesDoneBySending(s.sessions[i].work, step, ViewOf(s, i), c);
  }

  lemma LoopTouchResponses(s: System, l: Label, c: nat)
    requires Enabled(s, l) && Touched(s, l).Some? && !l.WorkerStep?
    ensures Commands.ResponseDone(Touch(s, l).work, c) <==> Commands.ResponseDone(Last(s).work, c)
  {
    LoopOnlyAdds(s, l);
    AddingStartsNothing(Last(s).work, Touch(s, l).work, c);
  }

  lemma ResponsesFromTouch(s: System, l: Label, i: nat, c: nat)
    requires s.attempt <= U32_MAX && Enabled(s, l)
    requires Touched(s, l) == Some(i) && i < |s.sessions| ==>
               (Commands.ResponseDone(Touch(s, l).work, c) <==>
                Commands.ResponseDone(s.sessions[i].work, c) || RespondsTo(s, l, i, c))
    ensures ResponseDone(Apply(s, l), i, c) <==> ResponseDone(s, i, c) || RespondsTo(s, l, i, c)
  {
    SessionsAfter(s, l);
  }

  lemma ResponsesDoneAfter(s: System, l: Label, i: nat, c: nat)
    requires SessionsInv(s) && s.attempt <= U32_MAX && Enabled(s, l)
    ensures ResponseDone(Apply(s, l), i, c) <==> ResponseDone(s, i, c) || RespondsTo(s, l, i, c)
  {
    if l.WorkerStep? {
      CommandsSound(s, l.session);
      WorkerTouchResponses(s, l.session, l.step, c);
    } else if Touched(s, l) == Some(i) {
      LoopTouchResponses(s, l, c);
    }
    ResponsesFromTouch(s, l, i, c);
  }

  lemma ResponseIsNew(s: System, l: Label)
    requires SessionsInv(s) && ResponsesSent(s) && Enabled(s, l) && SendsResponse(l)
    ensures ConfigResponse(l.session, s.sessions[l.session].work.worker.id) !in Sent(s)
  {
    CommandsSound(s, l.session);
    CommandProofs.ResponsesDoneBySending(s.sessions[l.session].work, l.step, ViewOf(s, l.session), 0);
    assert !ResponseDone(s, l.session, s.sessions[l.session].work.worker.id);
  }

  /** A response is sent by the step that is done with it. */
  lemma ResponseIsAdded(s: System, l: Label, f: Frame)
    requires Enabled(s, l)
    ensures f.ConfigResponse? && f in FramesAdded(s, l) ==>
              SendsResponse(l) && f == ConfigResponse(l.session, s.sessions[l.session].work.worker.id)
    ensures SendsResponse(l) && !s.closed ==>
              FramesAdded(s, l) == [ConfigResponse(l.session, s.sessions[l.session].work.worker.id)]
    ensures |FramesAdded(s, l)| <= 1
  {
  }

  lemma ResponseSentWhenDone(s: System, l: Label, i: nat, c: nat)
    requires SessionsInv(s) && ResponsesSent(s) && s.attempt <= U32_MAX && Enabled(s, l)
    ensures ConfigResponse(i, c) in Sent(Apply(s, l)) ==> ResponseDone(Apply(s, l), i, c)
    ensures !Apply(s, l).closed && ResponseDone(Apply(s, l), i, c) ==> ConfigResponse(i, c) in Sent(Apply(s, l))
  {
    SentAfter(s, l);
    ResponseIsAdded(s, l, ConfigResponse(i, c));
    ResponsesDoneAfter(s, l, i, c);
  }

  lemma ResponseSentOnce(s: System, l: Label)
    requires SessionsInv(s) && ResponsesSent(s) && s.attempt <= U32_MAX && Enabled(s, l)
    ensures
      var sent := Sent(Apply(s, l));
      forall a, b | 0 <= a < b < |sent| :: sent[a].ConfigResponse? ==> sent[a] != sent[b]
  {
    SentAfter(s, l);
    var sent := Sent(Apply(s, l));
    forall a, b | 0 <= a < b < |sent| && sent[a].ConfigResponse? ensures sent[a] != sent[b] {
      ResponseIsAdded(s, l, VendorFrame);
      assert sent[a] == Sent(s)[a] && sent[a] in Sent(s);
      if b == |Sent(s)| {
        assert sent[b] == FramesAdded(s, l)[0];
        ResponseIsAdded(s, l, sent[b]);
        if SendsResponse(l) {
          ResponseIsNew(s, l);
        }
      }
    }
  }

  lemma ResponsesSentStep(s: System, l: Label)
    requires SessionsInv(s) && ResponsesSent(s) && s.attempt <= U32_MAX && Enabled(s, l)
    ensures ResponsesSent(Apply(s, l))
  {
    ResponseSentOnce(s, l);
    forall i: nat, c: nat
      ensures ConfigResponse(i, c) in Sent(Apply(s, l)) ==> ResponseDone(Apply(s, l), i, c)
      ensures !Apply(s, l).closed && ResponseDone(Apply(s, l), i, c) ==> ConfigResponse(i, c) in Sent(Apply(s, l))
    {
      ResponseSentWhenDone(s, l, i, c);
    }
  }

  lemma ResponseAdded(s: System, l: Label, f: Frame)
    requires SessionsInv(s) && Enabled(s, l) && f.ConfigResponse? && f in FramesAdded(s, l)
    ensures !s.closed && AckDone(s, f.session, f.id)
  {
    CommandsSound(s, l.session);
    CommandProofs.RespondingIsDone(s.sessions[l.session].work);
  }

  lemma FollowAcksOn(sent: seq<Frame>, more: seq<Frame>)
    requires FollowAcks(sent) && |more| <= 1
    requires forall f | f in more && f.ConfigResponse? :: Ack(f.session, f.id) in sent
    ensures FollowAcks(sent + more)
  {
    forall b | 0 <= b < |sent + more| && (sent + more)[b].ConfigResponse?
      ensures Ack((sent + more)[b].session, (sent + more)[b].id) in (sent + more)[..b]
    {
      if b < |sent| {
        assert (sent + more)[..b] == sent[..b];
      } else {
        assert (sent + more)[..b] == sent;
        assert more[b - |sent|] in more;
      }
    }
  }

  lemma ResponsesStep(s: System, l: Label)
    requires SessionsInv(s) && AcksSent(s) && ResponsesFollow(s) && s.attempt <= U32_MAX && Enabled(s, l)
    ensures ResponsesFollow(Apply(s, l))
  {
    SentAfter(s, l);
    AckAdded(s, l, VendorFrame);
    forall f | f in FramesAdded(s, l) && f.ConfigResponse? ensures Ack(f.session, f.id) in Sent(s) {
      ResponseAdded(s, l, f);
    }
    FollowAcksOn(Sent(s), FramesAdded(s, l));
  }

  // ── Shutdown is asked for ──────────────────────────────────────────

  lemma EndsForShutdown(l: Link.Link, step: Link.Label)
    requires Link.EndMatches(l) && Link.Enabled(l, step)
    ensures Link.Apply(l, step).end == Some(Link.ShutdownRequested) ==> step.ShutdownSeen?
  {
    LinkProofs.EndStep(l, step);
  }

  /** What a step can make of a session's end. */
  lemma EndsAfter(s: System, l: Label, i: nat)
    requires SessionsInv(s) && s.attempt <= U32_MAX && Enabled(s, l) && i < |Apply(s, l).sessions|
    ensures Apply(s, l).sessions[i].link.end == Some(Link.ShutdownRequested) ==>
              s.shutdown || (i < |s.sessions| && s.sessions[i].link.end == Some(Link.ShutdownRequested))
  {
    SessionsAfter(s, l);
    if l.LinkStep? {
      SessionSound(s, |s.sessions| - 1);
      EndsForShutdown(Last(s).link, l.link);
    } else if l.RouteText? {
      RouteEndsNothing(s);
    }
  }

  lemma RoutingGoesOn(x: Session)
    requires x.link.end.None? && x.link.loop.Routing?
    requires !Commands.Route(x.work, x.link.loop.len).0.WorkerGone?
    ensures AfterRoute(x).link.end.None?
  {
  }

  lemma RouteEndsNothing(s: System)
    requires SessionsInv(s) && Enabled(s, RouteText)
    ensures AfterRoute(Last(s)).link.end.None?
  {
    SoundAmong(s.sessions, |s.sessions| - 1);
    RouteFindsWorker(Last(s));
    RoutingGoesOn(Last(s));
  }

  lemma ShutdownStep(s: System, l: Label)
    requires SessionsInv(s) && ShutdownAsked(s) && s.attempt <= U32_MAX && Enabled(s, l)
    ensures ShutdownAsked(Apply(s, l))
  {
    var s' := Apply(s, l);
    forall i | 0 <= i < |s'.sessions| && s'.sessions[i].link.end == Some(Link.ShutdownRequested) ensures s'.shutdown {
      EndsAfter(s, l, i);
    }
  }

  // ── Every reachable state ──────────────────────────────────────────

  lemma NothingStarted()
    ensures StartsMatch(START) && AcksSent(START) && ResponsesSent(START) && ResponsesFollow(START)
  {
    assert Sent(START) == [];
  }

  lemma NobodyWaits()
    ensures HolderMatches(START) && DrainedIdle(START) && LineMatches(START)
  {
  }

  lemma StartInv()
    ensures Inv(START)
  {
    NothingStarted();
    NobodyWaits();
  }

  lemma InvKept(s: System, l: Label)
    requires Inv(s) && Enabled(s, l)
    ensures Inv(Apply(s, l))
  {
    SessionsStep(s, l);
    EarlierOverStep(s, l);
    HolderStep(s, l);
    DrainedStep(s, l);
    LineStep(s, l);
    StartsStep(s, l);
    AcksStep(s, l);
    ResponsesSentStep(s, l);
    ResponsesStep(s, l);
    ShutdownStep(s, l);
    PhaseStep(s, l);
  }

  lemma {:induction false} Reachable(states: seq<System>, labels: seq<Label>, k: nat)
    requires Run(states, labels) && k < |states|
    ensures Inv(states[k])
  {
    if k == 0 {
      StartInv();
    } else {
      Reachable(states, labels, k - 1);
      assert Next(states[k - 1], labels[k - 1], states[k]);
      InvKept(states[k - 1], labels[k - 1]);
    }
  }
}
