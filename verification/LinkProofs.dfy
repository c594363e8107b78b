/** What holds of one session's reader and loop in every reachable state: the inbound budget, the
    order of what is handed over, and how a Close that was read ends the session. */
module LinkProofs {
  import opened Limits
  import opened Link

  // ── Sequences ──────────────────────────────────────────────────────

  lemma {:induction false} BytesConcat(a: seq<Inbound>, b: seq<Inbound>)
    ensures Bytes(a + b) == Bytes(a) + Bytes(b)
  {
    if b == [] {
      assert a + b == a;
    } else {
      assert (a + b)[..|a + b| - 1] == a + b[..|b| - 1];
      BytesConcat(a, b[..|b| - 1]);
    }
  }

  lemma BytesOne(i: Inbound)
    ensures Bytes([i]) == Cost(i)
  {
    assert [i][..0] == [];
  }

  lemma BytesHead(s: seq<Inbound>)
    requires s != []
    ensures Bytes(s) == Cost(s[0]) + Bytes(s[1..])
  {
    assert s == [s[0]] + s[1..];
    BytesConcat([s[0]], s[1..]);
    BytesOne(s[0]);
  }

  lemma BytesAppend(s: seq<Inbound>, i: Inbound)
    ensures Bytes(s + [i]) == Bytes(s) + Cost(i)
  {
    assert (s + [i])[..|s|] == s;
  }

  lemma {:induction false} DroppedIn(a: seq<Inbound>, b: seq<Inbound>, x: Inbound)
    requires DropsOnlyPings(a, b) && x in a
    ensures x in b
  {
    if b == [] {
    } else if a != [] && a[|a| - 1] == b[|b| - 1] && DropsOnlyPings(a[..|a| - 1], b[..|b| - 1]) {
      if x != a[|a| - 1] {
        assert x in a[..|a| - 1];
        DroppedIn(a[..|a| - 1], b[..|b| - 1], x);
      }
    } else {
      DroppedIn(a, b[..|b| - 1], x);
    }
  }

  /** The frames that are not pings, in order. */
  function NotPings(s: seq<Inbound>): (r: seq<Inbound>)
  {
    if s == [] then [] else
      NotPings(s[..|s| - 1]) + if s[|s| - 1].Ping? then [] else [s[|s| - 1]]
  }

  lemma {:induction false} NotPingsAgree(a: seq<Inbound>, b: seq<Inbound>)
    requires DropsOnlyPings(a, b)
    ensures NotPings(a) == NotPings(b)
  {
    if b == [] {
    } else if a != [] && a[|a| - 1] == b[|b| - 1] && DropsOnlyPings(a[..|a| - 1], b[..|b| - 1]) {
      NotPingsAgree(a[..|a| - 1], b[..|b| - 1]);
    } else {
      NotPingsAgree(a, b[..|b| - 1]);
    }
  }

  lemma {:induction false} NotPingsConcat(a: seq<Inbound>, b: seq<Inbound>)
    ensures NotPings(a + b) == NotPings(a) + NotPings(b)
  {
    if b == [] {
      assert a + b == a;
    } else {
      assert (a + b)[..|a + b| - 1] == a + b[..|b| - 1];
      NotPingsConcat(a, b[..|b| - 1]);
    }
  }

  lemma {:induction false} TerminalsLast(a: seq<Inbound>, b: seq<Inbound>)
    requires DropsOnlyPings(a, b)
    requires forall i | 0 <= i < |b| - 1 :: !Terminal(b[i])
    ensures forall i | 0 <= i < |a| - 1 :: !Terminal(a[i])
  {
    if b == [] {
    } else if a != [] && a[|a| - 1] == b[|b| - 1] && DropsOnlyPings(a[..|a| - 1], b[..|b| - 1]) {
      forall i | 0 <= i < |a| - 1 ensures !Terminal(a[i]) {
        DroppedIn(a[..|a| - 1], b[..|b| - 1], a[..|a| - 1][i]);
      }
    } else {
      TerminalsLast(a, b[..|b| - 1]);
    }
  }

  lemma DropsAppend(a: seq<Inbound>, b: seq<Inbound>, x: Inbound)
    requires DropsOnlyPings(a, b)
    ensures DropsOnlyPings(a + [x], b + [x])
    ensures x.Ping? ==> DropsOnlyPings(a, b + [x])
  {
    assert (a + [x])[..|a|] == a;
    assert (b + [x])[..|b|] == b;
  }

  // ── Every step keeps the invariant ─────────────────────────────────

  lemma FreshInv()
    ensures Inv(FRESH)
  {
  }

  lemma TakeKeepsBytes(l: Link)
    requires BudgetKept(l) && Enabled(l, Take)
    ensures BudgetKept(Apply(l, Take))
  {
    BytesHead(l.inbound);
  }

  lemma AddingKeepsBytes(l: Link, step: Label)
    requires BudgetKept(l) && Enabled(l, step) && (step.ReadPing? || step.HandOver?)
    ensures BudgetKept(Apply(l, step))
  {
    if step.ReadPing? {
      BytesAppend(l.inbound, Ping);
    } else {
      BytesAppend(l.inbound, l.reader.item);
    }
  }

  lemma BytesStep(l: Link, step: Label)
    requires BudgetKept(l) && Enabled(l, step)
    ensures BudgetKept(Apply(l, step))
  {
    if step.Take? {
      TakeKeepsBytes(l);
    } else if step.ReadPing? || step.HandOver? {
      AddingKeepsBytes(l, step);
    } else {
      assert Apply(l, step).inbound == l.inbound;
    }
  }

  lemma BoundsStep(l: Link, step: Label)
    requires Bounded(l) && Enabled(l, step)
    ensures Bounded(Apply(l, step))
  {
    if step.Take? {
      assert FitsCap(l.inbound[0]);
    }
  }

  /** The item a reading step adds to what was read, if any. */
  function ItemRead(step: Label): Option<Inbound> {
    match step
    case ReadPing => Some(Ping)
    case ReadText(len, kind) => Some(Text(len, kind))
    case ReadTerminal(item) => Some(item)
    case _ => None
  }

  lemma DeliveredStep(l: Link, step: Label)
    requires Enabled(l, step)
    ensures ItemRead(step).None? ==>
              Apply(l, step).read == l.read && Delivered(Apply(l, step)) == Delivered(l)
    ensures ItemRead(step).Some? ==> Apply(l, step).read == l.read + [ItemRead(step).value]
    ensures ItemRead(step).Some? ==>
              || Delivered(Apply(l, step)) == Delivered(l) + [ItemRead(step).value]
              || (step.ReadPing? && Delivered(Apply(l, step)) == Delivered(l))
  {
  }

  lemma OrderStep(l: Link, step: Label)
    requires DropsOnlyPings(Delivered(l), l.read) && Enabled(l, step)
    ensures DropsOnlyPings(Delivered(Apply(l, step)), Apply(l, step).read)
  {
    DeliveredStep(l, step);
    if ItemRead(step).Some? {
      DropsAppend(Delivered(l), l.read, ItemRead(step).value);
    }
  }

  lemma TerminalStep(l: Link, step: Label)
    requires Bounded(l) && TerminalLast(l) && Enabled(l, step)
    ensures TerminalLast(Apply(l, step))
  {
  }

  lemma EndStep(l: Link, step: Label)
    requires EndMatches(l) && Enabled(l, step)
    ensures EndMatches(Apply(l, step))
  {
    var l' := Apply(l, step);
    assert forall i | 0 <= i < |l.taken| :: !Terminal(l.taken[i]);
    assert l'.taken == l.taken || (step.Take? && l'.taken == l.taken + [l.inbound[0]]);
  }

  lemma InvKept(l: Link, step: Label)
    requires Inv(l) && Enabled(l, step)
    ensures Inv(Apply(l, step))
  {
    BytesStep(l, step);
    BoundsStep(l, step);
    OrderStep(l, step);
    TerminalStep(l, step);
    EndStep(l, step);
  }

  // ── Order of handing over ──────────────────────────────────────────

  /** The loop receives what was read in the order it was read, only pings missing. */
  lemma TakenInReadOrder(l: Link)
    requires Inv(l)
    ensures NotPings(l.taken) <= NotPings(l.read)
    ensures forall i | 0 <= i < |l.taken| - 1 :: !Terminal(l.taken[i])
  {
    NotPingsAgree(Delivered(l), l.read);
    NotPingsConcat(l.taken + l.inbound, InHand(l.reader));
    NotPingsConcat(l.taken, l.inbound);
    TerminalsLast(Delivered(l), l.read);
    assert forall i | 0 <= i < |l.taken| - 1 :: Delivered(l)[i] == l.taken[i];
  }

  /** A session the loop ends on a terminal item has had everything read before it: every text
      frame in order, then that one item, and nothing is left behind. */
  lemma EverythingReadWasTaken(l: Link)
    requires Inv(l)
    requires l.end == Some(AuthenticatedThenClosed) || l.end == Some(AuthenticatedThenLost(ReadError))
    ensures l.inbound == [] && InHand(l.reader) == []
    ensures NotPings(l.taken) == NotPings(l.read)
    ensures l.taken != [] && l.read != [] && l.taken[|l.taken| - 1] == l.read[|l.read| - 1]
  {
    TerminalsLast(Delivered(l), l.read);
    assert Delivered(l)[|l.taken| - 1] == l.taken[|l.taken| - 1];
    assert |Delivered(l)| == |l.taken|;
    assert Delivered(l) == l.taken;
    NotPingsAgree(Delivered(l), l.read);
    DroppedIn(Delivered(l), l.read, l.taken[|l.taken| - 1]);
  }

  // ── A close is never mistaken for a loss ───────────────────────────

  /** Once the reader has read a Close, or the end of the stream, the session ends as closed unless shutdown, a stalled
      write, a failed write or a stopped worker ends it first: never as silence, and never as a
      read error. */
  lemma CloseIsNotLoss(l: Link)
    requires Inv(l) && (Closed in l.read || Ended in l.read) && l.end.Some?
    ensures l.end.value in {AuthenticatedThenClosed, ShutdownRequested, AuthenticatedThenLost(WriteStalled),
                            AuthenticatedThenLost(WriteError), AuthenticatedThenLost(WorkerStopped)}
  {
    var i :| 0 <= i < |l.read| && (l.read[i] == Closed || l.read[i] == Ended);
    assert i == |l.read| - 1 && Terminal(l.read[i]);
    if l.end == Some(AuthenticatedThenLost(ReadError)) {
      EverythingReadWasTaken(l);
      assert false;
    }
    match l.end.value
    case AuthenticatedThenClosed =>
    case ShutdownRequested =>
    case AuthenticatedThenLost(loss) =>
      match loss
      case Silence => assert false;
      case _ =>
  }

  predicate Fails(step: Label) {
    step.WriteStalls? || step.WriteFails? || step.RouteGone? || step.ShutdownSeen?
  }

  /** What the loop still has to do. */
  function LoopWork(l: Link): nat {
    3 * |l.inbound| + (match l.loop case Select => 0 case Routing(_, _) => 2 case Writing(_, _) => 1)
  }

  /** What still has to happen before a Close that was read ends the session. */
  function CloseWork(l: Link): nat {
    LoopWork(l) + if l.reader.WaitRoom? then 4 else 0
  }

  /** After a Close is read every step brings the session nearer its end, but for an outbound or
      heartbeat write that gets in while the reader is handing the Close over. */
  lemma CloseDrains(l: Link, step: Label)
    requires Inv(l) && Closed in l.read && Enabled(l, step) && !Fails(step)
    ensures
      || Apply(l, step).end == Some(AuthenticatedThenClosed)
      || (Apply(l, step).end.None? && CloseWork(Apply(l, step)) < CloseWork(l))
      || (step.StartWrite? && Enabled(l, HandOver))
  {
    CloseReadStopsReader(l);
    var l' := Apply(l, step);
    if step.Take? {
      assert |l'.inbound| == |l.inbound| - 1;
      InvKept(l, step);
      if l'.end.Some? {
        assert l'.taken[|l.taken|] == l.inbound[0];
        CloseIsNotLoss(l');
      }
    }
  }

  lemma CloseReadStopsReader(l: Link)
    requires Inv(l) && Closed in l.read && l.end.None?
    ensures l.reader.Parked? || l.reader.WaitRoom?
    ensures l.inbound == [] ==> l.reader.WaitRoom?
  {
    assert l.inbound == [] && l.reader.Parked? ==> Delivered(l) == l.taken;
  }

  /** And it is never stuck: until it has ended, the reader can hand the Close over or the loop
      has an item, a route or a write to get on with. */
  lemma CloseNeverStuck(l: Link)
    requires Inv(l) && Closed in l.read && l.end.None?
    ensures Enabled(l, HandOver) || Enabled(l, Take) || Enabled(l, RouteDone) || Enabled(l, WriteRefusedAfterClose)
  {
    CloseReadStopsReader(l);
  }

  // ── The reader's waits ─────────────────────────────────────────────

  predicate ReaderBlocked(l: Link) {
    || (l.reader.WaitBudget? && !Enabled(l, GetBudget))
    || (l.reader.WaitRoom? && !Enabled(l, HandOver))
  }

  predicate LoopStep(step: Label) {
    || step.Take? || step.RouteDone? || step.RouteWrite?
    || step.StartWrite? || step.WriteOk? || step.WriteRefusedAfterClose?
  }

  lemma LoopStepProgress(l: Link, step: Label)
    requires Enabled(l, step) && LoopStep(step) && !step.StartWrite?
    ensures Apply(l, step).end.Some? || LoopWork(Apply(l, step)) < LoopWork(l)
  {
  }

  /** The reader waits only while the loop has something to get on with, and whatever the loop
      does next gets on with it: a blocked reader is let go after at most `LoopWork` of the loop's
      steps. No outbound frame or heartbeat can get in between. */
  lemma ReaderBlockedMeansLoopHasWork(l: Link)
    requires Inv(l) && l.end.None? && ReaderBlocked(l)
    ensures LoopWork(l) > 0
    ensures Enabled(l, Take) || Enabled(l, RouteDone) || Enabled(l, WriteOk)
    ensures forall step :: Enabled(l, step) && LoopStep(step) ==>
              Apply(l, step).end.None? && LoopWork(Apply(l, step)) < LoopWork(l)
  {
    forall step | Enabled(l, step) && LoopStep(step)
      ensures Apply(l, step).end.None? && LoopWork(Apply(l, step)) < LoopWork(l)
    {
      if step.Take? {
        BlockedReaderHasNoTerminalAhead(l);
        assert l.inbound[0] in l.inbound;
      }
    }
  }

  lemma BlockedReaderHasNoTerminalAhead(l: Link)
    requires Inv(l) && l.end.None? && ReaderBlocked(l)
    ensures forall x | x in l.inbound :: !Terminal(x)
  {
    TerminalsLast(Delivered(l), l.read);
    forall i | 0 <= i < |l.inbound| ensures !Terminal(l.inbound[i]) {
      assert Delivered(l)[|l.taken| + i] == l.inbound[i];
    }
  }
}
