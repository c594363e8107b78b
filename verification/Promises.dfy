/** What the manager link promises over every run, any number of sessions long. */
module Promises {
  import opened Limits
  import opened Manager
  import opened ManagerProofs
  import Link
  import LinkProofs
  import Commands
  import CommandProofs

  // ── Commands never overlap ─────────────────────────────────────────

  function CommandAt(s: System, i: nat, c: nat): Commands.Command
    requires i < |s.sessions| && c < |s.sessions[i].work.commands|
  {
    s.sessions[i].work.commands[c]
  }

  predicate IsCommand(s: System, i: nat, c: nat) {
    i < |s.sessions| && c < |s.sessions[i].work.commands|
  }

  /** Across all sessions at most one command has been started and not seen out. */
  lemma NeverOverlap(states: seq<System>, labels: seq<Label>, k: nat, i: nat, c: nat, j: nat, d: nat)
    requires Run(states, labels) && k < |states|
    requires IsCommand(states[k], i, c) && Commands.InFlight(CommandAt(states[k], i, c).status)
    requires IsCommand(states[k], j, d) && Commands.InFlight(CommandAt(states[k], j, d).status)
    ensures i == j && c == d
  {
    Reachable(states, labels, k);
    var s := states[k];
    SessionSound(s, i);
    SessionSound(s, j);
    assert s.holder == Some(i) && s.holder == Some(j);
  }

  // ── Commands start in order ────────────────────────────────────────

  lemma StartsGrow(s: System, l: Label)
    requires s.attempt <= U32_MAX && Enabled(s, l)
    ensures s.starts <= Apply(s, l).starts
  {
  }

  lemma {:induction false} StartLogGrows(states: seq<System>, labels: seq<Label>, k: nat, m: nat)
    requires Run(states, labels) && k <= m < |states|
    ensures states[k].starts <= states[m].starts
  {
    if k < m {
      StartLogGrows(states, labels, k, m - 1);
      assert Next(states[m - 1], labels[m - 1], states[m]);
      StartsGrow(states[m - 1], labels[m - 1]);
    }
  }

  /** The log of starts only grows; an earlier session's starts all come before a later one's;
      and each session's started commands are a prefix, in order, of those it accepted. */
  lemma StartsInOrder(states: seq<System>, labels: seq<Label>, k: nat, m: nat)
    requires Run(states, labels) && k <= m < |states|
    ensures states[k].starts <= states[m].starts
    ensures forall a, b | 0 <= a < b < |states[m].starts| :: Before(states[m].starts[a], states[m].starts[b])
    ensures forall i: nat, c: nat :: HasStarted(states[m], i, c) <==> (i, c) in states[m].starts
    ensures forall i: nat, c: nat, d: nat :: HasStarted(states[m], i, d) && c < d ==>
              CommandAt(states[m], i, c).status.Refused? || HasStarted(states[m], i, c)
  {
    StartLogGrows(states, labels, k, m);
    Reachable(states, labels, m);
    forall i: nat, c: nat, d: nat | HasStarted(states[m], i, d) && c < d
      ensures CommandAt(states[m], i, c).status.Refused? || HasStarted(states[m], i, c)
    {
      SessionSound(states[m], i);
    }
  }

  // ── Nothing starts once its session is over ────────────────────────

  lemma OverStays(s: System, l: Label, i: nat)
    requires s.attempt <= U32_MAX && Enabled(s, l) && i < |s.sessions| && s.sessions[i].over
    ensures i < |Apply(s, l).sessions| && Apply(s, l).sessions[i].over
  {
    SessionsAfter(s, l);
  }

  lemma OverStartsNothing(s: System, l: Label, i: nat, c: nat)
    requires SessionsInv(s) && s.attempt <= U32_MAX && Enabled(s, l) && i < |s.sessions| && s.sessions[i].over
    ensures HasStarted(Apply(s, l), i, c) <==> HasStarted(s, i, c)
  {
    StartsAfter(s, l, i, c);
  }

  lemma OverInRun(states: seq<System>, labels: seq<Label>, k: nat, i: nat, c: nat)
    requires Run(states, labels) && k < |labels| && i < |states[k].sessions| && states[k].sessions[i].over
    ensures i < |states[k + 1].sessions| && states[k + 1].sessions[i].over
    ensures HasStarted(states[k + 1], i, c) <==> HasStarted(states[k], i, c)
  {
    Reachable(states, labels, k);
    assert Next(states[k], labels[k], states[k + 1]);
    OverStays(states[k], labels[k], i);
    OverStartsNothing(states[k], labels[k], i, c);
  }

  /** Once a session is over it stays so, and no command of it starts that had not. */
  lemma {:induction false} NothingStartsAfterOver(states: seq<System>, labels: seq<Label>, k: nat, m: nat,
                                                  i: nat, c: nat)
    requires Run(states, labels) && k <= m < |states|
    requires i < |states[k].sessions| && states[k].sessions[i].over
    ensures i < |states[m].sessions| && states[m].sessions[i].over
    ensures HasStarted(states[m], i, c) <==> HasStarted(states[k], i, c)
  {
    if k < m {
      NothingStartsAfterOver(states, labels, k, m - 1, i, c);
      OverInRun(states, labels, m - 1, i, c);
    }
  }

  // ── But between a session's end and its being over one can start ───

  lemma Play(states: seq<System>, labels: seq<Label>, l: Label) returns (states': seq<System>)
    requires Run(states, labels) && states[|labels|].attempt <= U32_MAX && Enabled(states[|labels|], l)
    ensures Run(states', labels + [l])
    ensures states'[|labels| + 1] == Apply(states[|labels|], l) && states'[|labels|] == states[|labels|]
  {
    states' := states + [Apply(states[|labels|], l)];
    var longer := labels + [l];
    forall k | 0 <= k < |longer| ensures Next(states'[k], longer[k], states'[k + 1]) {
      if k < |labels| {
        assert Next(states[k], labels[k], states[k + 1]);
      }
    }
  }

  /** A session in its first moments, its worker holding the turn. */
  function Early(link: Link.Link, work: Commands.Work): System {
    START.(sessions := [Session(link, work, false)], phase := Live, holder := Some(0))
  }

  const READY := Commands.FRESH.(worker := Commands.Idle)

  lemma WorkerReady() returns (states: seq<System>, labels: seq<Label>)
    ensures Run(states, labels) && states[|labels|] == Early(Link.FRESH, READY)
  {
    states, labels := [START], [];
    states := Play(states, labels, Connect);
    labels := labels + [Connect];
    states := Play(states, labels, WorkerStep(0, Commands.Ask));
    labels := labels + [WorkerStep(0, Commands.Ask)];
    var s := states[|labels|];
    assert s.line == [WorkerOf(0)];
    assert s.sessions == [FRESH.(work := Commands.FRESH.(worker := Commands.InLine))];
    states := Play(states, labels, WorkerStep(0, Commands.Grant));
    assert Without([WorkerOf(0)], WorkerOf(0)) == [];
    labels := labels + [WorkerStep(0, Commands.Grant)];
    assert states[|labels|].sessions == [Session(Link.FRESH, READY, false)];
  }

  /** A step of the loop or the reader, early on. */
  lemma PlayLink(states: seq<System>, labels: seq<Label>, link: Link.Link, work: Commands.Work, step: Link.Label)
    returns (states': seq<System>)
    requires Run(states, labels) && states[|labels|] == Early(link, work)
    requires Link.Enabled(link, step) && work.refusal == 0
    requires step.ReadText? || step.ReadTerminal? || step.GetBudget? || step.HandOver? || step.Take?
    ensures Run(states', labels + [LinkStep(step)])
    ensures states'[|labels| + 1] == Early(Link.Apply(link, step), work)
  {
    states' := Play(states, labels, LinkStep(step));
    var s' := states'[|labels| + 1];
    assert Commands.EndRefusal(work) == work;
    assert s'.sessions == [Session(Link.Apply(link, step), work, false)];
  }

  /** A run in which a command starts when its session has ended and is not yet over. */
  lemma StartsAfterEnd() returns (states: seq<System>, labels: seq<Label>)
    ensures Run(states, labels) && labels != [] && labels[|labels| - 1] == WorkerStep(0, Commands.TakeCommand)
    ensures states[|labels| - 1].sessions != [] && states[|labels| - 1].sessions[0].link.end.Some?
    ensures HasStarted(states[|labels|], 0, 0)
  {
    states, labels := WorkerReady();
    var text := Link.Text(1, Link.Command);
    var l1 := Link.Apply(Link.FRESH, Link.ReadText(1, Link.Command));
    states := PlayLink(states, labels, Link.FRESH, READY, Link.ReadText(1, Link.Command));
    labels := labels + [LinkStep(Link.ReadText(1, Link.Command))];
    var l2 := Link.Apply(l1, Link.GetBudget);
    states := PlayLink(states, labels, l1, READY, Link.GetBudget);
    labels := labels + [LinkStep(Link.GetBudget)];
    var l3 := Link.Apply(l2, Link.HandOver);
    states := PlayLink(states, labels, l2, READY, Link.HandOver);
    labels := labels + [LinkStep(Link.HandOver)];
    assert l3.inbound == [text];
    var l4 := Link.Apply(l3, Link.Take);
    states := PlayLink(states, labels, l3, READY, Link.Take);
    labels := labels + [LinkStep(Link.Take)];
    var more := RoutedThenEnded(states, labels, l4);
    states, labels := more.0, more.1;
  }

  lemma RoutedThenEnded(states: seq<System>, labels: seq<Label>, link: Link.Link)
    returns (run: (seq<System>, seq<Label>))
    requires Run(states, labels) && states[|labels|] == Early(link, READY)
    requires link.end.None? && link.loop == Link.Routing(1, Link.Command) && link.reader.Reading?
    requires link.inbound == []
    ensures Run(run.0, run.1) && run.1 != [] && run.1[|run.1| - 1] == WorkerStep(0, Commands.TakeCommand)
    ensures run.0[|run.1| - 1].sessions != [] && run.0[|run.1| - 1].sessions[0].link.end.Some?
    ensures HasStarted(run.0[|run.1|], 0, 0)
  {
    var work := Commands.Route(READY, 1).1;
    var ss := Play(states, labels, RouteText);
    var ls := labels + [RouteText];
    var l1 := Link.Apply(link, Link.RouteDone);
    assert ss[|ls|].sessions == [Session(l1, work, false)];
    run := EndedThenTaken(ss, ls, l1, work);
  }

  lemma EndedThenTaken(states: seq<System>, labels: seq<Label>, link: Link.Link, work: Commands.Work)
    returns (run: (seq<System>, seq<Label>))
    requires Run(states, labels) && states[|labels|] == Early(link, work)
    requires link.end.None? && link.loop.Select? && link.reader.Reading? && link.inbound == []
    requires work == Commands.Route(READY, 1).1
    ensures Run(run.0, run.1) && run.1 != [] && run.1[|run.1| - 1] == WorkerStep(0, Commands.TakeCommand)
    ensures run.0[|run.1| - 1].sessions != [] && run.0[|run.1| - 1].sessions[0].link.end.Some?
    ensures HasStarted(run.0[|run.1|], 0, 0)
  {
    var close := Link.ReadTerminal(Link.Closed);
    var ss := PlayLink(states, labels, link, work, close);
    var ls := labels + [LinkStep(close)];
    var l2 := Link.Apply(link, close);
    ss := PlayLink(ss, ls, l2, work, Link.HandOver);
    ls := ls + [LinkStep(Link.HandOver)];
    var l3 := Link.Apply(l2, Link.HandOver);
    assert l3.inbound == [Link.Closed];
    ss := PlayLink(ss, ls, l3, work, Link.Take);
    ls := ls + [LinkStep(Link.Take)];
    ss := TakenAfterEnd(ss, ls, Link.Apply(l3, Link.Take), work);
    run := (ss, ls + [WorkerStep(0, Commands.TakeCommand)]);
  }

  lemma TakenAfterEnd(states: seq<System>, labels: seq<Label>, link: Link.Link, work: Commands.Work)
    returns (states': seq<System>)
    requires Run(states, labels) && states[|labels|] == Early(link, work) && link.end.Some?
    requires work == Commands.Route(READY, 1).1
    ensures Run(states', labels + [WorkerStep(0, Commands.TakeCommand)])
    ensures states'[|labels|] == states[|labels|] && HasStarted(states'[|labels| + 1], 0, 0)
  {
    states' := Play(states, labels, WorkerStep(0, Commands.TakeCommand));
  }

  // ── Every command is accounted for ─────────────────────────────────

  lemma TouchGrows(s: System, l: Label)
    requires Enabled(s, l) && Touched(s, l).Some? && Commands.Inv(s.sessions[Touched(s, l).value].work)
    ensures CommandProofs.Grows(s.sessions[Touched(s, l).value].work.commands, Touch(s, l).work.commands)
  {
    var x := s.sessions[Touched(s, l).value];
    if l.WorkerStep? {
      CommandProofs.StepGrows(x.work, l.step, ViewOf(s, l.session));
    } else {
      LoopOnlyAdds(s, l);
      AddingGrows(x.work, Touch(s, l).work);
    }
  }

  lemma AddingGrows(w: Commands.Work, w': Commands.Work)
    requires LoopAdds(w, w')
    ensures CommandProofs.Grows(w.commands, w'.commands)
  {
  }

  lemma CommandsGrow(s: System, l: Label, i: nat)
    requires SessionsInv(s) && s.attempt <= U32_MAX && Enabled(s, l) && i < |s.sessions|
    ensures i < |Apply(s, l).sessions|
    ensures CommandProofs.Grows(s.sessions[i].work.commands, Apply(s, l).sessions[i].work.commands)
  {
    SessionsAfter(s, l);
    if Touched(s, l).Some? {
      CommandsSound(s, Touched(s, l).value);
      TouchGrows(s, l);
    }
  }

  lemma CommandsGrowInRun(states: seq<System>, labels: seq<Label>, k: nat, i: nat)
    requires Run(states, labels) && k < |labels| && i < |states[k].sessions|
    ensures MovedOn(states[k], states[k + 1], i)
  {
    Reachable(states, labels, k);
    assert Next(states[k], labels[k], states[k + 1]);
    CommandsGrow(states[k], labels[k], i);
  }

  /** `Grows`, between two states of one session. */
  ghost predicate MovedOn(s: System, s': System, i: nat) {
    && i < |s.sessions| && i < |s'.sessions|
    && CommandProofs.Grows(s.sessions[i].work.commands, s'.sessions[i].work.commands)
  }

  lemma MovedOnOn(a: System, b: System, c: System, i: nat)
    requires MovedOn(a, b, i) && MovedOn(b, c, i)
    ensures MovedOn(a, c, i)
  {
    CommandProofs.GrowsOn(a.sessions[i].work.commands, b.sessions[i].work.commands, c.sessions[i].work.commands);
  }

  lemma MovedOnSelf(s: System, i: nat)
    requires i < |s.sessions|
    ensures MovedOn(s, s, i)
  {
  }

  lemma {:induction false} CommandsOnlyMoveOn(states: seq<System>, labels: seq<Label>, k: nat, m: nat, i: nat)
    requires Run(states, labels) && k <= m < |states| && i < |states[k].sessions|
    ensures MovedOn(states[k], states[m], i)
  {
    if k < m {
      CommandsOnlyMoveOn(states, labels, k, m - 1, i);
      CommandsGrowInRun(states, labels, m - 1, i);
      MovedOnOn(states[k], states[m - 1], states[m], i);
    } else {
      MovedOnSelf(states[k], i);
    }
  }

  /** From any point of a run on: a refused or finished command keeps its one ack attempt and gets
      no other, and a dropped one never runs and is never acked. */
  lemma Accounted(states: seq<System>, labels: seq<Label>, k: nat, m: nat, i: nat, c: nat)
    requires Run(states, labels) && k <= m < |states| && IsCommand(states[k], i, c)
    ensures IsCommand(states[m], i, c)
    ensures CommandAt(states[m], i, c).acks ==
              if CommandAt(states[m], i, c).status in {Commands.Refused, Commands.Finished} then 1 else 0
    ensures CommandAt(states[k], i, c).status in {Commands.Refused, Commands.Finished, Commands.Dropped} ==>
              CommandAt(states[m], i, c) == CommandAt(states[k], i, c)
    ensures CommandAt(states[m], i, c).status.Queued? <==>
              Commands.InQueue(states[m].sessions[i].work.queue, c)
  {
    CommandsOnlyMoveOn(states, labels, k, m, i);
    CommandsSoundInRun(states, labels, k, i);
    CommandsSoundInRun(states, labels, m, i);
    if CommandAt(states[k], i, c).status in {Commands.Refused, Commands.Finished, Commands.Dropped} {
      CommandProofs.FinalStays(states[k].sessions[i].work, states[m].sessions[i].work, c);
    }
  }

  lemma CommandsSoundInRun(states: seq<System>, labels: seq<Label>, k: nat, i: nat)
    requires Run(states, labels) && k < |states| && i < |states[k].sessions|
    ensures Commands.AcksMatch(states[k].sessions[i].work) && Commands.QueueMatches(states[k].sessions[i].work)
  {
    Reachable(states, labels, k);
    SessionSound(states[k], i);
  }

  // ── Every frame received is answered, and every finished command acked ──

  /** In every reachable state the commands a session has routed are those its loop has received,
      but for one being routed; each ping got the pong of its kind, in the order received; and each
      refused command got one refusal, in order, and no other command did. A session that ends as
      closed by the manager has routed every command that was read. */
  lemma EveryFrameAnswered(states: seq<System>, labels: seq<Label>, k: nat, i: nat)
    requires Run(states, labels) && k < |states| && i < |states[k].sessions|
    ensures
      var x := states[k].sessions[i];
      && (!x.link.loop.Routing? ==>
            && |x.work.commands| == CommandsIn(x.link.taken)
            && PongsIn(x.link.begun) == PongsDue(x.link.taken))
      && PongsIn(x.link.begun) <= PongsDue(x.link.taken)
      && |PongsDue(x.link.taken)| <= |PongsIn(x.link.begun)| + 1
      && RefusalsIn(x.link.begun) == RefusedIn(x.work.commands)
    ensures
      var x := states[k].sessions[i];
      x.link.end == Some(Link.AuthenticatedThenClosed) ==> |x.work.commands| == CommandsIn(x.link.read)
  {
    Reachable(states, labels, k);
    SessionSound(states[k], i);
    FramesAnswered(states[k].sessions[i]);
    SoundAmong(states[k].sessions, i);
    CloseRoutesAll(states[k].sessions[i]);
  }

  lemma FramesAnswered(x: Session)
    requires RoutesMatch(x)
    ensures !x.link.loop.Routing? ==>
              |x.work.commands| == CommandsIn(x.link.taken) && PongsIn(x.link.begun) == PongsDue(x.link.taken)
    ensures PongsIn(x.link.begun) <= PongsDue(x.link.taken)
    ensures |PongsDue(x.link.taken)| <= |PongsIn(x.link.begun)| + 1
    ensures RefusalsIn(x.link.begun) == RefusedIn(x.work.commands)
  {
  }

  lemma CloseRoutesAll(x: Session)
    requires AllSound([x])
    ensures x.link.end == Some(Link.AuthenticatedThenClosed) ==> |x.work.commands| == CommandsIn(x.link.read)
  {
    OneSound(x);
    if x.link.end == Some(Link.AuthenticatedThenClosed) {
      LinkProofs.EverythingReadWasTaken(x.link);
      FramesAnswered(x);
      CommandsAreNotPings(x.link.taken);
      CommandsAreNotPings(x.link.read);
    }
  }

  lemma {:induction false} CommandsAreNotPings(s: seq<Link.Inbound>)
    ensures CommandsIn(s) == CommandsIn(LinkProofs.NotPings(s))
  {
    if s != [] {
      CommandsAreNotPings(s[..|s| - 1]);
      TakenOne(LinkProofs.NotPings(s[..|s| - 1]), s[|s| - 1]);
      assert LinkProofs.NotPings(s[..|s| - 1]) + [] == LinkProofs.NotPings(s[..|s| - 1]);
    }
  }

  /** Over every run each ack is put into the outbound channel at most once, and only for a command
      that has finished, whether its handler returned or panicked; and until `run` closes the
      channel, each command whose ack has been let through has it there. */
  lemma EachFinishedAckedOnce(states: seq<System>, labels: seq<Label>, k: nat, i: nat, c: nat)
    requires Run(states, labels) && k < |states|
    ensures multiset(Sent(states[k]))[Ack(i, c)] <= 1
    ensures Ack(i, c) in Sent(states[k]) ==> IsCommand(states[k], i, c) && CommandAt(states[k], i, c).status.Finished?
    ensures !states[k].closed && IsCommand(states[k], i, c) && CommandAt(states[k], i, c).status.Finished? ==>
              || multiset(Sent(states[k]))[Ack(i, c)] == 1
              || Commands.StillAcking(states[k].sessions[i].work.worker, c)
  {
    Reachable(states, labels, k);
    var s := states[k];
    AtMostOnce(Sent(s), Ack(i, c));
    assert Ack(i, c) in Sent(s) ==> AckDone(s, i, c);
    assert AckDone(s, i, c) && !s.closed ==> Ack(i, c) in Sent(s);
  }

  /** A config response is never ahead of the ack of its command, in the channel or on the wire. */
  lemma AckBeforeResponse(states: seq<System>, labels: seq<Label>, k: nat, b: nat)
    requires Run(states, labels) && k < |states|
    requires b < |Sent(states[k])| && Sent(states[k])[b].ConfigResponse?
    ensures exists a :: 0 <= a < b && Sent(states[k])[a] == Ack(Sent(states[k])[b].session, Sent(states[k])[b].id)
  {
    Reachable(states, labels, k);
    var sent := Sent(states[k]);
    var ack := Ack(sent[b].session, sent[b].id);
    assert ack in sent[..b];
    var a :| 0 <= a < b && sent[..b][a] == ack;
    assert sent[a] == ack;
  }

  lemma {:induction false} AtMostOnce(sent: seq<Frame>, f: Frame)
    requires f.Ack? && forall a, b | 0 <= a < b < |sent| :: sent[a].Ack? ==> sent[a] != sent[b]
    ensures multiset(sent)[f] == if f in sent then 1 else 0
  {
    if sent != [] {
      var n := |sent| - 1;
      AtMostOnce(sent[..n], f);
      assert sent == sent[..n] + [sent[n]];
      if f in sent[..n] {
        var a :| 0 <= a < n && sent[..n][a] == f;
        assert sent[a] == f;
      }
    }
  }

  // ── Budgets ────────────────────────────────────────────────────────

  /** In every reachable state every byte of both budgets of every session is in one place. */
  lemma BudgetsConserved(states: seq<System>, labels: seq<Label>, k: nat, i: nat)
    requires Run(states, labels) && k < |states| && i < |states[k].sessions|
    ensures
      var x := states[k].sessions[i];
      && x.link.free + LinkBytesHeld(x.link) == INBOUND_BUDGET_BYTES
      && x.work.free + WorkBytesHeld(x.work) == COMMAND_QUEUE_BYTES
      && x.link.free >= 0 && x.work.free >= 0
      && (x.link.end.Some? && Commands.QueueGone(x.work.worker) ==>
            x.work.free + Commands.WorkerBytes(x.work.worker) == COMMAND_QUEUE_BYTES)
  {
    Reachable(states, labels, k);
    SessionSound(states[k], i);
    if Commands.QueueGone(states[k].sessions[i].work.worker) {
      CommandProofs.QueueGoneFreesBudget(states[k].sessions[i].work);
    }
  }

  function LinkBytesHeld(l: Link.Link): nat {
    Link.ReaderBytes(l.reader) + Link.Bytes(l.inbound) + Link.LoopBytes(l.loop)
  }

  function WorkBytesHeld(w: Commands.Work): nat {
    Commands.Bytes(w.queue) + Commands.WorkerBytes(w.worker) + w.refusal
  }

  // ── Nobody waits in a cycle ────────────────────────────────────────

  predicate WaitsToSend(w: Commands.Worker) {
    w.AckingPanic? || (w.Seeing? && (w.task.Acking? || w.task.Responding?))
  }

  /** A step of the session loop that is not a failed write. */
  predicate LoopLabel(l: Label) {
    l.RouteText? || (l.LinkStep? && LinkProofs.LoopStep(l.link))
  }

  function WorkOfLast(s: System): nat
    requires s.sessions != []
  {
    LinkProofs.LoopWork(Last(s).link)
  }

  lemma RouteIsStep(x: Session)
    requires x.link.end.None? && x.link.loop.Routing?
    requires !Commands.Route(x.work, x.link.loop.len).0.WorkerGone?
    ensures LinkProofs.LoopStep(RouteStep(x)) && Link.Enabled(x.link, RouteStep(x)) && !RouteStep(x).StartWrite?
    ensures AfterRoute(x).link == Link.Apply(x.link, RouteStep(x))
  {
  }

  /** A label of the loop is one of its steps on the link. */
  lemma LoopLabelIsLoopStep(s: System, l: Label) returns (step: Link.Label)
    requires SessionsInv(s) && s.attempt <= U32_MAX && Enabled(s, l) && LoopLabel(l)
    ensures LinkProofs.LoopStep(step) && Link.Enabled(Last(s).link, step)
    ensures step.StartWrite? <==> l.LinkStep? && l.link.StartWrite?
    ensures Apply(s, l).sessions != [] && Last(Apply(s, l)).link == Link.Apply(Last(s).link, step)
  {
    SessionsAfter(s, l);
    if l.RouteText? {
      var x := Last(s);
      SoundAmong(s.sessions, |s.sessions| - 1);
      RouteFindsWorker(x);
      RouteIsStep(x);
      step := RouteStep(x);
    } else {
      step := l.link;
    }
  }

  function RouteStep(x: Session): Link.Label
    requires x.link.loop.Routing?
  {
    match x.link.loop.kind
    case Command =>
      var routed := Commands.Route(x.work, x.link.loop.len).0;
      if routed.Busy? then Link.RouteWrite(Link.Refusal(routed.id)) else Link.RouteDone
    case AppPing => Link.RouteWrite(Link.AppPong)
    case Ignored => Link.RouteDone
  }

  /** While the reader waits for budget or room, the loop has a step to take, and whichever it
      takes brings the end of the wait nearer without ending the session. */
  lemma BlockedReaderIsServed(s: System)
    requires Inv(s) && HasLive(s) && Last(s).link.end.None? && LinkProofs.ReaderBlocked(Last(s).link)
    ensures LoopLabel(NextOfLoop(s)) && Enabled(s, NextOfLoop(s))
    ensures forall l :: LoopLabel(l) && Enabled(s, l) ==>
              && Apply(s, l).sessions != []
              && Last(Apply(s, l)).link.end.None?
              && WorkOfLast(Apply(s, l)) < WorkOfLast(s)
  {
    LinkSound(s);
    LinkProofs.ReaderBlockedMeansLoopHasWork(Last(s).link);
    LoopNeverStuck(s);
    forall l | LoopLabel(l) && Enabled(s, l)
      ensures Apply(s, l).sessions != [] && Last(Apply(s, l)).link.end.None?
      ensures WorkOfLast(Apply(s, l)) < WorkOfLast(s)
    {
      var step := LoopLabelIsLoopStep(s, l);
    }
  }

  /** The reader of the live session is blocked. */
  predicate Blocked(s: System) {
    HasLive(s) && Last(s).link.end.None? && LinkProofs.ReaderBlocked(Last(s).link)
  }

  /** While the reader stays blocked only the loop's steps touch the link. */
  lemma BlockedStep(s: System, l: Label)
    requires SessionsInv(s) && s.attempt <= U32_MAX && Enabled(s, l) && Blocked(s) && Blocked(Apply(s, l))
    ensures
      if LoopLabel(l) then WorkOfLast(Apply(s, l)) < WorkOfLast(s) else WorkOfLast(Apply(s, l)) == WorkOfLast(s)
  {
    SessionsAfter(s, l);
    if LoopLabel(l) {
      LinkSound(s);
      LinkProofs.ReaderBlockedMeansLoopHasWork(Last(s).link);
      var step := LoopLabelIsLoopStep(s, l);
    }
  }

  function LoopSteps(labels: seq<Label>): nat {
    if labels == [] then 0
    else LoopSteps(labels[..|labels| - 1]) + if LoopLabel(labels[|labels| - 1]) then 1 else 0
  }

  function WorkAt(s: System): nat {
    if s.sessions == [] then 0 else WorkOfLast(s)
  }

  /** Step `i` of a run lowers the work if it is the loop's, and leaves it if not. */
  predicate SpendsAt(states: seq<System>, labels: seq<Label>, i: nat)
    requires i < |labels| && |states| == |labels| + 1
  {
    if LoopLabel(labels[i]) then WorkAt(states[i + 1]) < WorkAt(states[i])
    else WorkAt(states[i + 1]) == WorkAt(states[i])
  }

  lemma BlockedStepInRun(states: seq<System>, labels: seq<Label>, i: nat)
    requires Run(states, labels) && i < |labels| && forall j | i <= j <= i + 1 :: Blocked(states[j])
    ensures SpendsAt(states, labels, i)
  {
    assert Blocked(states[i]) && Blocked(states[i + 1]);
    Reachable(states, labels, i);
    assert Next(states[i], labels[i], states[i + 1]);
    BlockedStep(states[i], labels[i]);
  }

  lemma {:induction false} LoopSpends(states: seq<System>, labels: seq<Label>, k: nat, m: nat)
    requires |states| == |labels| + 1 && k <= m < |states|
    requires forall i | k <= i < m :: SpendsAt(states, labels, i)
    ensures LoopSteps(labels[k..m]) + WorkAt(states[m]) <= WorkAt(states[k])
  {
    if k < m {
      LoopSpends(states, labels, k, m - 1);
      assert labels[k..m][..m - 1 - k] == labels[k..m - 1];
      assert SpendsAt(states, labels, m - 1);
    }
  }

  /** However long a run goes on, a reader stays blocked for fewer of the loop's steps than there is
      work in front of it when its wait begins. */
  lemma BlockedReaderIsLetGo(states: seq<System>, labels: seq<Label>, k: nat, m: nat)
    requires Run(states, labels) && k <= m < |states|
    requires forall i | k <= i <= m :: Blocked(states[i])
    ensures LoopSteps(labels[k..m]) < WorkAt(states[k])
  {
    forall i | k <= i < m ensures SpendsAt(states, labels, i) {
      BlockedStepInRun(states, labels, i);
    }
    LoopSpends(states, labels, k, m);
    BlockedHasWork(states, labels, m);
  }

  lemma BlockedHasWork(states: seq<System>, labels: seq<Label>, m: nat)
    requires Run(states, labels) && m < |states| && Blocked(states[m])
    ensures WorkAt(states[m]) > 0
  {
    Reachable(states, labels, m);
    LinkSound(states[m]);
    LinkProofs.ReaderBlockedMeansLoopHasWork(Last(states[m]).link);
  }

  lemma LinkSound(s: System)
    requires SessionsInv(s) && s.sessions != []
    ensures Link.Inv(Last(s).link)
  {
    SessionSound(s, |s.sessions| - 1);
  }

  /** What the loop does next when its writes go through. */
  function NextOfLoop(s: System): Label
    requires HasLive(s)
  {
    var link := Last(s).link;
    match link.loop
    case Routing(_, _) => RouteText
    case Writing(_, _) => LinkStep(Link.WriteOk)
    case Select =>
      if link.inbound != [] then LinkStep(Link.Take)
      else LinkStep(Link.StartWrite(if s.outbound != [] then Link.Outbound else Link.Heartbeat))
  }

  /** The loop of a live session waits for a heartbeat only with nothing to take from either channel,
      and a write it is in can always be given up as stalled. */
  lemma LoopNeverStuck(s: System)
    requires HasLive(s) && Last(s).link.end.None?
    ensures LoopLabel(NextOfLoop(s)) && Enabled(s, NextOfLoop(s))
    ensures NextOfLoop(s) == LinkStep(Link.StartWrite(Link.Heartbeat)) <==>
            Last(s).link.loop.Select? && Last(s).link.inbound == [] && s.outbound == []
    ensures Last(s).link.loop.Writing? <==> Enabled(s, LinkStep(Link.WriteStalls))
  {
  }

  /** A worker, of this session or an earlier one, that waits for room in the outbound channel
      waits only for the loop: its next step takes a frame out of the full channel, or gets on with
      what the reader has handed it. Reader, loop and worker are never all three blocked. */
  lemma BlockedWorkerIsServed(s: System, i: nat)
    requires Inv(s) && HasLive(s) && Last(s).link.end.None?
    requires i < |s.sessions| && WaitsToSend(s.sessions[i].work.worker) && !CanSend(s)
    ensures Enabled(s, NextOfLoop(s))
    ensures
      || (NextOfLoop(s) == LinkStep(Link.StartWrite(Link.Outbound)) && CanSend(Apply(s, NextOfLoop(s))))
      || (Apply(s, NextOfLoop(s)).sessions != [] &&
           (Last(Apply(s, NextOfLoop(s))).link.end.Some? || WorkOfLast(Apply(s, NextOfLoop(s))) < WorkOfLast(s)))
  {
    LoopNeverStuck(s);
    var l := NextOfLoop(s);
    var step := LoopLabelIsLoopStep(s, l);
    if !step.StartWrite? {
      LinkProofs.LoopStepProgress(Last(s).link, step);
    }
  }

  /** The outbound channel of a live link is full: what a worker waits for is room. */
  predicate Full(s: System) {
    HasLive(s) && Last(s).link.end.None? && !CanSend(s)
  }

  /** A step by which the reader may hand the loop an item. */
  predicate Hands(l: Label) {
    l.LinkStep? && (l.link.HandOver? || l.link.ReadPing?)
  }

  function HandOvers(labels: seq<Label>): nat {
    if labels == [] then 0
    else HandOvers(labels[..|labels| - 1]) + if Hands(labels[|labels| - 1]) then 1 else 0
  }

  /** While the channel stays full the loop takes nothing from it, and so gets on with the rest. */
  lemma FullStep(s: System, l: Label)
    requires SessionsInv(s) && PhaseMatches(s) && Enabled(s, l) && Full(s) && Full(Apply(s, l))
    ensures
      if LoopLabel(l) then WorkAt(Apply(s, l)) < WorkAt(s)
      else if Hands(l) then WorkAt(Apply(s, l)) <= WorkAt(s) + 3
      else WorkAt(Apply(s, l)) == WorkAt(s)
  {
    SessionsAfter(s, l);
    if LoopLabel(l) {
      var step := LoopLabelIsLoopStep(s, l);
      LinkProofs.LoopStepProgress(Last(s).link, step);
    }
  }

  predicate SpendsOrHands(states: seq<System>, labels: seq<Label>, i: nat)
    requires i < |labels| && |states| == |labels| + 1
  {
    if LoopLabel(labels[i]) then WorkAt(states[i + 1]) < WorkAt(states[i])
    else if Hands(labels[i]) then WorkAt(states[i + 1]) <= WorkAt(states[i]) + 3
    else WorkAt(states[i + 1]) == WorkAt(states[i])
  }

  lemma FullStepInRun(states: seq<System>, labels: seq<Label>, i: nat)
    requires Run(states, labels) && i < |labels| && Full(states[i]) && Full(states[i + 1])
    ensures SpendsOrHands(states, labels, i)
  {
    Reachable(states, labels, i);
    assert Next(states[i], labels[i], states[i + 1]);
    FullStep(states[i], labels[i]);
  }

  lemma {:induction false} LoopSpendsWhatIsHanded(states: seq<System>, labels: seq<Label>, k: nat, m: nat)
    requires |states| == |labels| + 1 && k <= m < |states|
    requires forall i | k <= i < m :: SpendsOrHands(states, labels, i)
    ensures LoopSteps(labels[k..m]) + WorkAt(states[m]) <= WorkAt(states[k]) + 3 * HandOvers(labels[k..m])
  {
    if k < m {
      LoopSpendsWhatIsHanded(states, labels, k, m - 1);
      assert labels[k..m][..m - 1 - k] == labels[k..m - 1];
      assert SpendsOrHands(states, labels, m - 1);
    }
  }

  /** However long a run goes on, the outbound channel stays full, and a worker waits for room in it,
      for no more of the loop's steps than the work in front of the loop when the stretch begins and
      three for each item the reader hands over meanwhile. */
  lemma BlockedWorkerIsLetGo(states: seq<System>, labels: seq<Label>, k: nat, m: nat)
    requires Run(states, labels) && k <= m < |states|
    requires forall i | k <= i <= m :: Full(states[i])
    ensures LoopSteps(labels[k..m]) <= WorkAt(states[k]) + 3 * HandOvers(labels[k..m])
  {
    forall i | k <= i < m ensures SpendsOrHands(states, labels, i) {
      FullStepInRun(states, labels, i);
    }
    LoopSpendsWhatIsHanded(states, labels, k, m);
  }

  // ── Shutdown ───────────────────────────────────────────────────────

  predicate LeftLoop(p: Phase) {
    p.Leaving? || p.Shut? || p.Draining? || p.Drained? || p.Abandoned?
  }

  lemma LeftStep(s: System, l: Label)
    requires EarlierOver(s) && s.attempt <= U32_MAX && Enabled(s, l) && LeftLoop(s.phase)
    ensures LeftLoop(Apply(s, l).phase) && Apply(s, l).starts == s.starts
    ensures s.phase.Drained? ==> Apply(s, l).phase.Drained?
  {
    if l.WorkerStep? {
      assert s.sessions[l.session].over;
    }
  }

  /** From the moment `run` leaves its loop no command starts, ever; and from the moment it is
      granted the turn none is running either, ever. */
  lemma {:induction false} ShutdownDrains(states: seq<System>, labels: seq<Label>, k: nat, m: nat)
    requires Run(states, labels) && k <= m < |states| && LeftLoop(states[k].phase)
    ensures LeftLoop(states[m].phase) && states[m].starts == states[k].starts
    ensures states[k].phase.Drained? ==>
              && states[m].phase.Drained?
              && forall i: nat, c: nat | IsCommand(states[m], i, c) ::
                   !Commands.InFlight(CommandAt(states[m], i, c).status)
  {
    if k < m {
      ShutdownDrains(states, labels, k, m - 1);
      assert Next(states[m - 1], labels[m - 1], states[m]);
      Reachable(states, labels, m - 1);
      LeftStep(states[m - 1], labels[m - 1]);
    }
    Reachable(states, labels, m);
    forall i: nat, c: nat | IsCommand(states[m], i, c) && states[m].holder.None?
      ensures !Commands.InFlight(CommandAt(states[m], i, c).status)
    {
      SessionSound(states[m], i);
    }
  }

  /** While `run` waits for the turn, it gets it unless a vendor's handler is running: whoever
      holds the turn has a step of its own to take, which brings its return nearer, and a worker
      ahead in the line can only give up its place. A full outbound channel delays neither. */
  lemma DrainNeverStuck(s: System)
    requires Inv(s) && s.phase.Draining?
    ensures s.holder.Some? ==>
              var w := s.sessions[s.holder.value].work.worker;
              (w.Seeing? && w.task.Handling?) ||
              exists step :: !CommandProofs.VendorStep(step) && Enabled(s, WorkerStep(s.holder.value, step))
    ensures s.holder.None? ==>
              Enabled(s, TurnGranted) ||
              (s.line != [] && s.line[0].WorkerOf? && Enabled(s, WorkerStep(s.line[0].session, Commands.GiveUp)))
  {
    if s.holder.Some? {
      var i := s.holder.value;
      var w := s.sessions[i].work;
      assert s.sessions[i].over && Commands.HoldsTurn(w.worker);
      CommandProofs.WorkerSeesOut(w, ViewOf(s, i));
      if !(w.worker.Seeing? && w.worker.task.Handling?) {
        var step :| Commands.Enabled(w, step, ViewOf(s, i)) && !CommandProofs.VendorStep(step);
        assert Enabled(s, WorkerStep(i, step));
      }
    } else {
      assert RunTask in s.line;
      if s.line[0].WorkerOf? {
        var i := s.line[0].session;
        assert s.line[0] in s.line;
        assert s.sessions[i].over && s.sessions[i].work.worker.InLine?;
      }
    }
  }

  /** Every step of a worker whose session is over brings its return nearer. */
  lemma EveryWorkerStepSeesOut(s: System, i: nat, step: Commands.Label)
    requires s.attempt <= U32_MAX && Enabled(s, WorkerStep(i, step)) && s.sessions[i].over
    ensures CommandProofs.Remaining(Apply(s, WorkerStep(i, step)).sessions[i].work.worker)
            < CommandProofs.Remaining(s.sessions[i].work.worker)
  {
    CommandProofs.WorkerSeesOut(s.sessions[i].work, ViewOf(s, i));
  }

  // ── Reconnects do not pile up ──────────────────────────────────────

  predicate ReturnsInOneStep(s: System, i: nat)
    requires i < |s.sessions|
  {
    || s.sessions[i].work.worker.Returned?
    || Enabled(s, WorkerStep(i, Commands.GiveUp))
    || Enabled(s, WorkerStep(i, Commands.Stop))
  }

  /** The worker of a session that is over is a step from its return unless it holds the turn. */
  lemma LingersOnlyWithTurn(s: System, i: nat)
    requires HolderMatches(s) && i < |s.sessions| && s.sessions[i].over && !ReturnsInOneStep(s, i)
    ensures s.holder == Some(i)
  {
    assert Commands.HoldsTurn(s.sessions[i].work.worker);
  }

  /** However many sessions have ended, at most one of their workers is more than a step from
      having returned: the one that holds the turn, with a command running. */
  lemma AtMostOneWorkerLingers(states: seq<System>, labels: seq<Label>, k: nat, i: nat, j: nat)
    requires Run(states, labels) && k < |states|
    requires i < |states[k].sessions| && states[k].sessions[i].over && !ReturnsInOneStep(states[k], i)
    requires j < |states[k].sessions| && states[k].sessions[j].over && !ReturnsInOneStep(states[k], j)
    ensures i == j && states[k].holder == Some(i)
  {
    HolderMatchesInRun(states, labels, k);
    LingersOnlyWithTurn(states[k], i);
    LingersOnlyWithTurn(states[k], j);
  }

  lemma HolderMatchesInRun(states: seq<System>, labels: seq<Label>, k: nat)
    requires Run(states, labels) && k < |states|
    ensures HolderMatches(states[k])
  {
    Reachable(states, labels, k);
  }

  // ── A close is not a loss ──────────────────────────────────────────

  /** If the reader has read a Close, or the end of the stream, then unless shutdown, a stalled write or a failed write ends
      the session first, it ends as closed by the manager and the reconnect backoff starts over. */
  lemma CloseResetsBackoff(states: seq<System>, labels: seq<Label>, k: nat)
    requires Run(states, labels) && k < |labels| && labels[k] == SessionReturns
    requires HasLive(states[k])
    requires Link.Closed in Last(states[k]).link.read || Link.Ended in Last(states[k]).link.read
    ensures Last(states[k]).link.end.Some?
    ensures
      var end := Last(states[k]).link.end.value;
      || end == Link.ShutdownRequested
      || end == Link.AuthenticatedThenLost(Link.WriteStalled)
      || end == Link.AuthenticatedThenLost(Link.WriteError)
      || (end == Link.AuthenticatedThenClosed && states[k + 1].phase.Between? && states[k + 1].attempt == 1)
  {
    Reachable(states, labels, k);
    assert Next(states[k], labels[k], states[k + 1]);
    CloseNotLost(states[k]);
    Returned(states[k]);
  }

  lemma CloseNotLost(s: System)
    requires SessionsInv(s) && s.sessions != [] && Last(s).link.end.Some?
    requires Link.Closed in Last(s).link.read || Link.Ended in Last(s).link.read
    ensures Last(s).link.end.value in {
              Link.AuthenticatedThenClosed, Link.ShutdownRequested,
              Link.AuthenticatedThenLost(Link.WriteStalled), Link.AuthenticatedThenLost(Link.WriteError)}
  {
    SessionSound(s, |s.sessions| - 1);
    LinkProofs.CloseIsNotLoss(Last(s).link);
  }

  lemma Returned(s: System)
    requires s.attempt <= U32_MAX && Enabled(s, SessionReturns)
    ensures Last(s).link.end == Some(Link.AuthenticatedThenClosed) ==>
              Apply(s, SessionReturns).phase.Between? && Apply(s, SessionReturns).attempt == 1
  {
  }

  /** In every reachable state what the loop has received is what the reader has read, in order,
      short of some pings and of what is still on its way. */
  lemma HandedOverInOrder(states: seq<System>, labels: seq<Label>, k: nat, i: nat)
    requires Run(states, labels) && k < |states| && i < |states[k].sessions|
    ensures
      var link := states[k].sessions[i].link;
      && Link.DropsOnlyPings(Link.Delivered(link), link.read)
      && LinkProofs.NotPings(link.taken) <= LinkProofs.NotPings(link.read)
      && (link.end == Some(Link.AuthenticatedThenClosed) ==>
            LinkProofs.NotPings(link.taken) == LinkProofs.NotPings(link.read))
  {
    Reachable(states, labels, k);
    SessionSound(states[k], i);
    LinkProofs.TakenInReadOrder(states[k].sessions[i].link);
    if states[k].sessions[i].link.end == Some(Link.AuthenticatedThenClosed) {
      LinkProofs.EverythingReadWasTaken(states[k].sessions[i].link);
    }
  }
}
