/** The reader in time (`read_manager`): when it takes a silent manager for dead. What happens to
    it is a sequence of events; `After` says where they leave it, and the method runs them through
    an `InboundCadence` as the source does. */
module Reader {
  import opened Limits
  import opened Cadence

  /** One pass of the reader's loop. A text frame read at `at` is handed over at `done`, after any
      wait for budget or room; so is what ends the stream, and then the reader parks. */
  datatype Event =
    | PingRead(at: int)
    | TextRead(at: int, done: int)
    | OtherRead(at: int)
    | CloseRead(at: int)
    | StreamEnds(at: int)
    | Check(at: int)

  datatype Where =
    | Reading(cadence: State)
    | Parked
    | Verdict(at: int, silent: nat, limit: nat)

  function Begin(started: int): Where {
    Reading(Fresh(started))
  }

  function Step(w: Where, e: Event): Where {
    if !w.Reading? then w
    else
      match e
      case PingRead(at) => Reading(AfterPing(w.cadence, at))
      case TextRead(at, done) => Reading(AfterFrame(AfterFrame(w.cadence, at), done))
      case OtherRead(at) => Reading(AfterFrame(w.cadence, at))
      case CloseRead(_) | StreamEnds(_) => Parked
      case Check(at) =>
        var dead := DeadAt(w.cadence, at);
        if dead.Some? then Verdict(at, dead.value.0, dead.value.1) else w
  }

  function After(started: int, events: seq<Event>): Where {
    if events == [] then Begin(started)
    else Step(After(started, events[..|events| - 1]), events[|events| - 1])
  }

  method ReadManager(started: int, events: seq<Event>) returns (w: Where)
    ensures w == After(started, events)
  {
    var cadence := new InboundCadence(started);
    var k := 0;
    while k < |events|
      invariant k <= |events|
      invariant After(started, events[..k]) == Reading(cadence.View())
    {
      var e := events[k];
      AfterOneMore(started, events, k);
      match e {
        case PingRead(at) => cadence.OnPing(at);
        case TextRead(at, done) =>
          cadence.OnFrame(at);
          // handed over: the wait for the loop is not the manager's silence
          cadence.OnFrame(done);
        case OtherRead(at) => cadence.OnFrame(at);
        case CloseRead(at) =>
          cadence.OnFrame(at);
          DoneStays(started, events, k + 1);
          return Parked;
        case StreamEnds(_) =>
          DoneStays(started, events, k + 1);
          return Parked;
        case Check(at) =>
          var dead := cadence.DeadFor(at);
          if dead.Some? {
            DoneStays(started, events, k + 1);
            return Verdict(at, dead.value.0, dead.value.1);
          }
      }
      k := k + 1;
    }
    assert events[..k] == events;
    w := Reading(cadence.View());
  }

  lemma AfterOneMore(started: int, events: seq<Event>, k: nat)
    requires k < |events|
    ensures After(started, events[..k + 1]) == Step(After(started, events[..k]), events[k])
  {
    assert events[..k + 1][..k] == events[..k];
  }

  lemma {:induction false} DoneStays(started: int, events: seq<Event>, k: nat)
    requires k <= |events| && !After(started, events[..k]).Reading?
    ensures After(started, events) == After(started, events[..k])
  {
    if k == |events| {
      assert events[..k] == events;
    } else {
      assert events[..|events| - 1][..k] == events[..k];
      DoneStays(started, events[..|events| - 1], k);
    }
  }

  // ── Time ───────────────────────────────────────────────────────────

  function EndOf(e: Event): int {
    if e.TextRead? then e.done else e.at
  }

  /** When the last event was over, or when the session started. */
  function Now(started: int, events: seq<Event>): int {
    if events == [] then started else EndOf(events[|events| - 1])
  }

  /** When the next tick of the silence check is due. Ticks are on a grid of `SILENCE_CHECK` from
      the start, and ticks that were missed are skipped. */
  function NextDue(due: int, at: int): (next: int)
    requires at >= due
    ensures at < next <= at + SILENCE_CHECK
    ensures next >= due + SILENCE_CHECK
  {
    at + SILENCE_CHECK - (at - due) % SILENCE_CHECK
  }

  ghost predicate Timed(started: int, events: seq<Event>)
    decreases |events|, 0
  {
    events == [] ||
    (var before, e := events[..|events| - 1], events[|events| - 1];
     && Timed(started, before)
     && Now(started, before) <= e.at <= EndOf(e)
     && (e.Check? ==> Due(started, before) <= e.at))
  }

  ghost function Due(started: int, events: seq<Event>): (due: int)
    requires Timed(started, events)
    ensures due <= Now(started, events) + SILENCE_CHECK
    decreases |events|, 1
  {
    if events == [] then started
    else
      var before, e := events[..|events| - 1], events[|events| - 1];
      if e.Check? then NextDue(Due(started, before), e.at) else Due(started, before)
  }

  predicate HasPing(events: seq<Event>) {
    exists k | 0 <= k < |events| :: events[k].PingRead?
  }

  /** The last time the manager was heard from or the reader was waiting on the loop. */
  function LastHeard(started: int, events: seq<Event>): int {
    if events == [] then started
    else if events[|events| - 1].Check? then LastHeard(started, events[..|events| - 1])
    else EndOf(events[|events| - 1])
  }

  function LastPing(started: int, events: seq<Event>): int {
    if events == [] then started
    else if events[|events| - 1].PingRead? then events[|events| - 1].at
    else LastPing(started, events[..|events| - 1])
  }

  /** What the cadence of a reader still reading says about its events. */
  lemma {:induction false} CadenceOfEvents(started: int, events: seq<Event>)
    requires Timed(started, events) && After(started, events).Reading?
    ensures
      var s := After(started, events).cadence;
      && s.started == started
      && s.lastFrame == LastHeard(started, events)
      && (s.lastPing.Some? <==> s.gaps != [])
      && (s.gaps != [] <==> HasPing(events))
      && LastPing(started, events) == (if s.lastPing.Some? then s.lastPing.value else started)
      && LastPing(started, events) <= LastHeard(started, events) <= Now(started, events)
      && (forall i | 0 <= i < |s.gaps| :: s.gaps[i] <= MAX_PING_GAP)
  {
    if events != [] {
      var before := events[..|events| - 1];
      CadenceOfEvents(started, before);
      HasPingAppend(before, events[|events| - 1]);
      assert before + [events[|events| - 1]] == events;
    }
  }

  lemma HasPingAppend(events: seq<Event>, e: Event)
    ensures HasPing(events + [e]) <==> HasPing(events) || e.PingRead?
  {
    if HasPing(events) {
      var k :| 0 <= k < |events| && events[k].PingRead?;
      assert (events + [e])[k].PingRead?;
    }
    if e.PingRead? {
      assert (events + [e])[|events|].PingRead?;
    }
  }

  /** Every frame and every wait on the loop was over by the time last heard from. */
  lemma {:induction false} HeardByThen(started: int, events: seq<Event>, k: nat)
    requires Timed(started, events) && k < |events|
    ensures EndOf(events[k]) <= Now(started, events)
    ensures !events[k].Check? ==> EndOf(events[k]) <= LastHeard(started, events)
  {
    var before := events[..|events| - 1];
    if k < |events| - 1 {
      HeardByThen(started, before, k);
      assert before[k] == events[k];
    }
  }

  predicate Armed(w: Where) {
    w.Reading? && SilenceLimitOf(w.cadence).Some?
  }

  // ── The verdict is sound ───────────────────────────────────────────

  /** The reader gives its verdict at `t` exactly when it checks at `t`, a ping has come, and for
      longer than the limit nothing has been read and nothing has waited on the loop. */
  lemma VerdictIsSound(started: int, before: seq<Event>, e: Event)
    requires Timed(started, before + [e]) && After(started, before).Reading?
    ensures
      var s := After(started, before).cadence;
      After(started, before + [e]).Verdict? <==>
        && e.Check?
        && Armed(After(started, before))
        && e.at - LastHeard(started, before) > SilenceLimitOf(s).value
    ensures Armed(After(started, before)) <==> HasPing(before)
    ensures After(started, before + [e]).Verdict? ==>
              var v := After(started, before + [e]);
              && v.at == e.at
              && v.silent == e.at - LastHeard(started, before)
              && v.silent > v.limit >= SILENCE_FLOOR
              && forall k | 0 <= k < |before| && !before[k].Check? :: EndOf(before[k]) + v.silent <= v.at
  {
    var events := before + [e];
    assert events[..|events| - 1] == before;
    CadenceOfEvents(started, before);
    forall k | 0 <= k < |before| && !before[k].Check? ensures EndOf(before[k]) <= LastHeard(started, before) {
      HeardByThen(started, before, k);
    }
  }

  // ── A reader that has reached the end parks ────────────────────────

  predicate Stops(e: Event) {
    e.CloseRead? || e.StreamEnds?
  }

  /** Once it has read a Close or the end of the stream, with no verdict given before, the reader is
      parked whatever follows, and gives none. */
  lemma {:induction false} ParkedForGood(started: int, events: seq<Event>, k: nat, m: nat)
    requires k < m <= |events| && Stops(events[k]) && !After(started, events[..k]).Verdict?
    ensures After(started, events[..m]).Parked?
  {
    AfterOneMore(started, events, m - 1);
    if k < m - 1 {
      ParkedForGood(started, events, k, m - 1);
    }
  }

  ghost predicate ReachedTheEnd(started: int, events: seq<Event>) {
    exists k | 0 <= k < |events| :: Stops(events[k]) && !After(started, events[..k]).Verdict?
  }

  lemma ReachedOneMore(started: int, before: seq<Event>, e: Event)
    ensures ReachedTheEnd(started, before + [e]) <==>
            ReachedTheEnd(started, before) || (Stops(e) && !After(started, before).Verdict?)
  {
    var events := before + [e];
    assert events[..|before|] == before && events[|before|] == e;
    assert forall k | 0 <= k < |before| :: events[..k] == before[..k] && events[k] == before[k];
    if ReachedTheEnd(started, before) {
      var k :| 0 <= k < |before| && Stops(before[k]) && !After(started, before[..k]).Verdict?;
      assert Stops(events[k]) && !After(started, events[..k]).Verdict?;
    }
  }

  /** And it is parked only then. */
  lemma {:induction false} ParkedExactly(started: int, events: seq<Event>)
    ensures After(started, events).Parked? <==> ReachedTheEnd(started, events)
  {
    if events != [] {
      var before, e := events[..|events| - 1], events[|events| - 1];
      assert before + [e] == events;
      ParkedExactly(started, before);
      ReachedOneMore(started, before, e);
    }
  }

  // ── What the reader stamps ─────────────────────────────────────────

  /** The stamps a reader makes: one for each frame, and one more when a text frame is handed over. */
  function StampsOn(e: Event): seq<Stamp> {
    match e
    case PingRead(at) => [Ping(at)]
    case TextRead(at, done) => [Frame(at), Frame(done)]
    case OtherRead(at) => [Frame(at)]
    case CloseRead(_) | StreamEnds(_) | Check(_) => []
  }

  function StampsOf(events: seq<Event>): seq<Stamp> {
    if events == [] then [] else StampsOf(events[..|events| - 1]) + StampsOn(events[|events| - 1])
  }

  lemma StampOne(started: int, stamps: seq<Stamp>, stamp: Stamp)
    ensures AfterStamps(started, stamps + [stamp]) == AfterStamp(AfterStamps(started, stamps), stamp)
  {
    assert (stamps + [stamp])[..|stamps|] == stamps;
  }

  lemma StepIsStamps(started: int, stamps: seq<Stamp>, e: Event)
    requires Step(Reading(AfterStamps(started, stamps)), e).Reading?
    ensures Step(Reading(AfterStamps(started, stamps)), e) == Reading(AfterStamps(started, stamps + StampsOn(e)))
  {
    match e
    case PingRead(at) => StampOne(started, stamps, Ping(at));
    case TextRead(at, done) =>
      StampOne(started, stamps, Frame(at));
      StampOne(started, stamps + [Frame(at)], Frame(done));
      assert stamps + [Frame(at), Frame(done)] == stamps + [Frame(at)] + [Frame(done)];
    case OtherRead(at) => StampOne(started, stamps, Frame(at));
    case Check(_) => assert stamps + [] == stamps;
    case CloseRead(_) | StreamEnds(_) =>
  }

  lemma {:induction false} CadenceIsItsStamps(started: int, events: seq<Event>)
    requires After(started, events).Reading?
    ensures After(started, events) == Reading(AfterStamps(started, StampsOf(events)))
  {
    if events != [] {
      CadenceIsItsStamps(started, events[..|events| - 1]);
      StepIsStamps(started, StampsOf(events[..|events| - 1]), events[|events| - 1]);
    }
  }

  /** The gaps held by a reader still reading are the last eight, each capped, of all those between the
      pings it has read. */
  lemma GapsAreOfItsPings(started: int, events: seq<Event>)
    requires After(started, events).Reading?
    ensures After(started, events).cadence.gaps == LastOf(AllGaps(started, StampsOf(events)), PING_GAPS_KEPT)
  {
    CadenceIsItsStamps(started, events);
    WindowOnHistory(started, StampsOf(events));
  }

  // ── The verdict is timely ──────────────────────────────────────────

  /** The reader is polled no later than `late` after it has something to do: when anything happens,
      no check that was due, or put off by a wait, is overdue by more. */
  ghost predicate OnTime(started: int, events: seq<Event>, late: nat)
    requires Timed(started, events)
  {
    events == [] ||
    (var before, e := events[..|events| - 1], events[|events| - 1];
     && OnTime(started, before, late)
     && e.at <= NextPoll(started, before) + late)
  }

  ghost function NextPoll(started: int, before: seq<Event>): int
    requires Timed(started, before)
  {
    Max(Due(started, before), Now(started, before))
  }

  /** A reader that has given no verdict is still within its limit. */
  lemma StillWithinLimit(started: int, events: seq<Event>)
    requires Timed(started, events) && Armed(After(started, events))
    ensures Now(started, events)
            <= LastHeard(started, events) + SilenceLimitOf(After(started, events).cadence).value
  {
    if events != [] && events[|events| - 1].Check? {
      var before, e := events[..|events| - 1], events[|events| - 1];
      assert before + [e] == events;
      VerdictIsSound(started, before, e);
    }
  }

  /** Once a ping has come and the manager falls silent, a check within the limit changes nothing and
      one past it gives the verdict; and a check polled in time is at most one check's spacing (and
      the poll's own lateness) past the limit. */
  lemma VerdictIsTimely(started: int, before: seq<Event>, e: Event, late: nat)
    requires Timed(started, before + [e]) && Timed(started, before)
    requires Armed(After(started, before)) && e.Check?
    requires e.at <= NextPoll(started, before) + late
    ensures
      var limit := SilenceLimitOf(After(started, before).cadence);
      && e.at <= LastHeard(started, before) + limit.value + SILENCE_CHECK + late
      && (e.at > LastHeard(started, before) + limit.value ==> After(started, before + [e]).Verdict?)
      && (e.at <= LastHeard(started, before) + limit.value ==>
            && After(started, before + [e]) == After(started, before)
            && LastHeard(started, before + [e]) == LastHeard(started, before)
            && Due(started, before + [e]) >= Due(started, before) + SILENCE_CHECK)
  {
    StillWithinLimit(started, before);
    VerdictIsSound(started, before, e);
    CadenceOfEvents(started, before);
    assert (before + [e])[..|before|] == before;
  }

  /** Checks alone change nothing until one gives the verdict. */
  lemma {:induction false} ChecksOnlyJudge(started: int, before: seq<Event>, checks: seq<Event>)
    requires Timed(started, before) && Timed(started, before + checks) && After(started, before).Reading?
    requires forall k | 0 <= k < |checks| :: checks[k].Check?
    ensures LastHeard(started, before + checks) == LastHeard(started, before)
    ensures LastPing(started, before + checks) == LastPing(started, before)
    ensures After(started, before + checks) == After(started, before) || After(started, before + checks).Verdict?
  {
    if checks == [] {
      assert before + checks == before;
    } else {
      var rest := before + checks[..|checks| - 1];
      assert (before + checks)[..|before + checks| - 1] == rest;
      ChecksOnlyJudge(started, before, checks[..|checks| - 1]);
    }
  }

  lemma JudgedOrWithin(started: int, before: seq<Event>, checks: seq<Event>)
    requires Timed(started, before) && Timed(started, before + checks) && Armed(After(started, before))
    requires forall k | 0 <= k < |checks| :: checks[k].Check?
    ensures After(started, before + checks).Verdict? ||
            Now(started, before + checks)
            <= LastHeard(started, before) + SilenceLimitOf(After(started, before).cadence).value
  {
    ChecksOnlyJudge(started, before, checks);
    if Armed(After(started, before + checks)) {
      StillWithinLimit(started, before + checks);
    }
  }

  /** So the verdict comes. Once armed, with nothing read and nothing waiting on the loop since, it
      has been given by any time that is past the limit by more than one check's spacing, if by then
      no check is overdue by more than `late`. */
  lemma VerdictComes(started: int, before: seq<Event>, checks: seq<Event>, now: int, late: nat)
    requires Timed(started, before) && Timed(started, before + checks) && Armed(After(started, before))
    requires forall k | 0 <= k < |checks| :: checks[k].Check?
    requires Now(started, before + checks) <= now <= NextPoll(started, before + checks) + late
    requires now > LastHeard(started, before) + SilenceLimitOf(After(started, before).cadence).value
                   + SILENCE_CHECK + late
    ensures After(started, before + checks).Verdict?
    ensures After(started, before + checks).limit == SilenceLimitOf(After(started, before).cadence).value
    ensures After(started, before + checks).at <= now
  {
    JudgedOrWithin(started, before, checks);
    VerdictOfChecks(started, before, checks);
  }

  /** The verdict checks come to is given by one of them, against the limit there was. */
  lemma {:induction false} VerdictOfChecks(started: int, before: seq<Event>, checks: seq<Event>)
    requires Timed(started, before) && Timed(started, before + checks) && Armed(After(started, before))
    requires forall k | 0 <= k < |checks| :: checks[k].Check?
    requires After(started, before + checks).Verdict?
    ensures After(started, before + checks).limit == SilenceLimitOf(After(started, before).cadence).value
    ensures After(started, before + checks).at <= Now(started, before + checks)
  {
    assert before + [] == before;
    if checks != [] {
      var rest := before + checks[..|checks| - 1];
      assert (before + checks)[..|before + checks| - 1] == rest;
      ChecksOnlyJudge(started, before, checks[..|checks| - 1]);
      if After(started, rest).Verdict? {
        VerdictOfChecks(started, before, checks[..|checks| - 1]);
      }
    }
  }

  /** While nothing is heard, checks that give no verdict run out: no more fit in the limit than its
      length in spacings. */
  lemma {:induction false} IdleChecksRunOut(started: int, before: seq<Event>, checks: seq<Event>)
    requires Timed(started, before) && Timed(started, before + checks) && Armed(After(started, before))
    requires forall k | 0 <= k < |checks| :: checks[k].Check?
    requires After(started, before + checks).Reading?
    ensures After(started, before + checks) == After(started, before)
    ensures LastHeard(started, before + checks) == LastHeard(started, before)
    ensures Due(started, before + checks) >= Due(started, before) + |checks| * SILENCE_CHECK
    ensures checks != [] ==>
              Due(started, before) + (|checks| - 1) * SILENCE_CHECK
              <= LastHeard(started, before) + SilenceLimitOf(After(started, before).cadence).value
  {
    if checks == [] {
      assert before + checks == before;
    } else {
      var e := checks[|checks| - 1];
      var rest := before + checks[..|checks| - 1];
      assert before + checks == rest + [e];
      assert (rest + [e])[..|rest|] == rest;
      IdleChecksRunOut(started, before, checks[..|checks| - 1]);
      VerdictIsSound(started, rest, e);
    }
  }

  // ── A steady manager is never dropped ──────────────────────────────

  /** Every gap between the pings read, the first from the start of the session, lies between `lo`
      and `hi`, and no check comes more than `hi` after the last ping. */
  ghost predicate Steady(started: int, events: seq<Event>, lo: nat, hi: nat) {
    events == [] ||
    (var before, e := events[..|events| - 1], events[|events| - 1];
     && Steady(started, before, lo, hi)
     && (e.PingRead? ==> lo <= e.at - LastPing(started, before) <= hi)
     && (e.Check? ==> e.at - LastPing(started, before) <= hi))
  }

  function SafeGap(lo: nat): nat {
    Max(SILENCE_FLOOR, SILENCE_PINGS * Min(lo, MAX_PING_GAP))
  }

  lemma {:induction false} SteadyGaps(started: int, events: seq<Event>, lo: nat, hi: nat)
    requires Timed(started, events) && Steady(started, events, lo, hi) && After(started, events).Reading?
    ensures forall i | 0 <= i < |After(started, events).cadence.gaps| ::
              After(started, events).cadence.gaps[i] >= Min(lo, MAX_PING_GAP)
  {
    if events != [] {
      SteadyGaps(started, events[..|events| - 1], lo, hi);
      CadenceOfEvents(started, events[..|events| - 1]);
    }
  }

  lemma {:induction false} NoneBelow(s: seq<nat>, bound: nat)
    requires forall i | 0 <= i < |s| :: s[i] >= bound
    ensures CountBelow(s, bound) == 0
  {
    if s != [] {
      NoneBelow(s[1..], bound);
      CountBelowCounts(s, bound);
    }
  }

  lemma {:induction false} SteadyNeverDropped(started: int, events: seq<Event>, lo: nat, hi: nat)
    requires Timed(started, events) && Steady(started, events, lo, hi) && hi <= SafeGap(lo)
    ensures !After(started, events).Verdict?
  {
    if events != [] {
      var before, e := events[..|events| - 1], events[|events| - 1];
      SteadyNeverDropped(started, before, lo, hi);
      if After(started, before).Reading? {
        assert before + [e] == events;
        VerdictIsSound(started, before, e);
        if Armed(After(started, before)) {
          CadenceOfEvents(started, before);
          SteadyGaps(started, before, lo, hi);
          var s := After(started, before).cadence;
          NoneBelow(s.gaps, Min(lo, MAX_PING_GAP));
          LimitIsRobust(s, Min(lo, MAX_PING_GAP), 0);
        }
      }
    }
  }

  // ── Runs of checks ─────────────────────────────────────────────────

  lemma OneMore(started: int, before: seq<Event>, e: Event)
    requires Timed(started, before) && Now(started, before) <= e.at <= EndOf(e)
    requires e.Check? ==> Due(started, before) <= e.at
    ensures Timed(started, before + [e])
    ensures After(started, before + [e]) == Step(After(started, before), e)
    ensures Due(started, before + [e]) == if e.Check? then NextDue(Due(started, before), e.at) else Due(started, before)
    ensures Now(started, before + [e]) == EndOf(e)
  {
    assert (before + [e])[..|before|] == before;
  }

  lemma OneMoreOnTime(started: int, before: seq<Event>, e: Event, late: nat)
    requires Timed(started, before) && Timed(started, before + [e]) && OnTime(started, before, late)
    requires e.at <= NextPoll(started, before) + late
    ensures OnTime(started, before + [e], late)
  {
    assert (before + [e])[..|before|] == before;
  }

  lemma CheckWhenDue(started: int, before: seq<Event>, late: nat)
    requires Timed(started, before) && OnTime(started, before, late)
    ensures
      var e := Check(NextPoll(started, before));
      && Timed(started, before + [e]) && OnTime(started, before + [e], late)
      && Due(started, before + [e]) > e.at >= Due(started, before)
      && Now(started, before + [e]) == e.at
  {
    var e := Check(NextPoll(started, before));
    OneMore(started, before, e);
    OneMoreOnTime(started, before, e, late);
  }

  /** The checks of a reader left alone until some time, each made when it is due. */
  lemma {:induction false} ChecksUntil(started: int, before: seq<Event>, until: int, late: nat)
    returns (checks: seq<Event>)
    requires Timed(started, before) && OnTime(started, before, late) && Now(started, before) <= until
    ensures forall k | 0 <= k < |checks| :: checks[k].Check? && checks[k].at <= until
    ensures Timed(started, before + checks) && OnTime(started, before + checks, late)
    ensures Now(started, before + checks) <= until < Due(started, before + checks)
    decreases until - Due(started, before)
  {
    if Due(started, before) > until {
      checks := [];
      assert before + checks == before;
    } else {
      var e := Check(NextPoll(started, before));
      CheckWhenDue(started, before, late);
      var more := ChecksUntil(started, before + [e], until, late);
      checks := [e] + more;
      assert before + checks == before + [e] + more;
    }
  }

  /** Then one more check, at a time its tick has been due for less than one spacing. */
  lemma ChecksAndOneAt(started: int, before: seq<Event>, at: int) returns (checks: seq<Event>)
    requires Timed(started, before) && OnTime(started, before, SILENCE_CHECK)
    requires Now(started, before) + SILENCE_CHECK <= at
    ensures checks != [] && checks[|checks| - 1] == Check(at)
    ensures forall k | 0 <= k < |checks| :: checks[k].Check? && checks[k].at <= at
    ensures Timed(started, before + checks) && OnTime(started, before + checks, SILENCE_CHECK)
  {
    var some := ChecksUntil(started, before, at - SILENCE_CHECK, SILENCE_CHECK);
    OneMore(started, before + some, Check(at));
    OneMoreOnTime(started, before + some, Check(at), SILENCE_CHECK);
    checks := some + [Check(at)];
    assert before + checks == before + some + [Check(at)];
  }

  /** If the last of some checks is past the limit the verdict has been given. */
  lemma LastCheckJudges(started: int, before: seq<Event>, checks: seq<Event>)
    requires Timed(started, before) && Timed(started, before + checks) && Armed(After(started, before))
    requires checks != [] && forall k | 0 <= k < |checks| :: checks[k].Check?
    requires checks[|checks| - 1].at > LastHeard(started, before) + SilenceLimitOf(After(started, before).cadence).value
    ensures After(started, before + checks).Verdict?
  {
    assert (before + checks)[|before + checks| - 1] == checks[|checks| - 1];
    JudgedOrWithin(started, before, checks);
  }

  // ── How far a manager may stray ────────────────────────────────────

  lemma {:induction false} ChecksKeepSteady(started: int, before: seq<Event>, checks: seq<Event>, lo: nat, hi: nat)
    requires Steady(started, before, lo, hi)
    requires forall k | 0 <= k < |checks| :: checks[k].Check? && checks[k].at <= LastPing(started, before) + hi
    ensures Steady(started, before + checks, lo, hi)
    ensures LastPing(started, before + checks) == LastPing(started, before)
  {
    if checks == [] {
      assert before + checks == before;
    } else {
      assert (before + checks)[..|before + checks| - 1] == before + checks[..|checks| - 1];
      ChecksKeepSteady(started, before, checks[..|checks| - 1], lo, hi);
    }
  }

  /** And that is exactly how far a manager may stray: with any longer gap allowed, one that pings
      once and then leaves just that gap is dropped, by a reader whose every check is on its grid and
      made within one spacing of being due. */
  lemma SteadyExactly(lo: nat, hi: nat)
    requires lo <= hi
    ensures hi <= SafeGap(lo) <==>
            forall started: int, events: seq<Event> ::
              Timed(started, events) && OnTime(started, events, SILENCE_CHECK) && Steady(started, events, lo, hi) ==>
                !After(started, events).Verdict?
  {
    if hi <= SafeGap(lo) {
      forall started: int, events: seq<Event> | Timed(started, events) && Steady(started, events, lo, hi)
        ensures !After(started, events).Verdict?
      {
        SteadyNeverDropped(started, events, lo, hi);
      }
    } else {
      var events := StraysTooFar(lo, hi);
    }
  }

  lemma StraysTooFar(lo: nat, hi: nat) returns (events: seq<Event>)
    requires lo <= hi && hi > SafeGap(lo)
    ensures Timed(0, events) && OnTime(0, events, SILENCE_CHECK) && Steady(0, events, lo, hi)
    ensures After(0, events).Verdict?
  {
    var first := FirstPingAt(lo);
    FirstPingIsSteady(first, lo, lo, hi);
    LimitOfOne(Min(lo, MAX_PING_GAP));
    var checks := ChecksAndOneAt(0, first, lo + hi);
    ChecksKeepSteady(0, first, checks, lo, hi);
    LastCheckJudges(0, first, checks);
    events := first + checks;
  }

  /** A reader that has just read its first ping, its checks so far all made when due. */
  lemma FirstPingAt(at: nat) returns (events: seq<Event>)
    ensures Timed(0, events) && OnTime(0, events, SILENCE_CHECK)
    ensures After(0, events) == Reading(State(0, at, Some(at), [Min(at, MAX_PING_GAP)]))
    ensures LastPing(0, events) == LastHeard(0, events) == Now(0, events) == at
    ensures OneAfterChecks(events, at)
  {
    var checks := ChecksUntil(0, [], at, SILENCE_CHECK);
    assert [] + checks == checks;
    NoVerdictUnarmed(checks);
    events := checks + [PingRead(at)];
    OneMore(0, checks, PingRead(at));
    OneMoreOnTime(0, checks, PingRead(at), SILENCE_CHECK);
    assert events[..|checks|] == checks;
  }

  lemma LimitOfOne(gap: nat)
    ensures Median([gap]) == gap
  {
    assert Sort([gap]) == [gap];
  }

  /** Nothing but checks, none later than `at`, and then a ping. */
  ghost predicate OneAfterChecks(events: seq<Event>, at: nat) {
    && events != [] && events[|events| - 1] == PingRead(at)
    && forall k | 0 <= k < |events| - 1 :: events[k].Check? && events[k].at <= at
  }

  lemma FirstPingIsSteady(events: seq<Event>, at: nat, lo: nat, hi: nat)
    requires OneAfterChecks(events, at) && lo <= at <= hi
    ensures Steady(0, events, lo, hi)
  {
    var checks := events[..|events| - 1];
    ChecksKeepSteady(0, [], checks, lo, hi);
    assert [] + checks == checks;
  }

  lemma FirstPingArrived(events: seq<Event>, at: nat, arrivals: seq<int>)
    requires OneAfterChecks(events, at) && |arrivals| > 0 && arrivals[0] == at
    ensures ReadsArrivals(0, events, arrivals) && Pings(events) == 1
  {
    var checks := events[..|events| - 1];
    ChecksKeepArrivals(0, [], checks, arrivals);
    assert [] + checks == checks;
    assert Now(0, checks) <= at;
  }

  lemma {:induction false} NoVerdictUnarmed(checks: seq<Event>)
    requires forall k | 0 <= k < |checks| :: checks[k].Check?
    ensures After(0, checks) == Begin(0)
  {
    if checks != [] {
      NoVerdictUnarmed(checks[..|checks| - 1]);
    }
  }

  // ── Pings that arrive while the reader waits ───────────────────────

  function Pings(events: seq<Event>): (n: nat) {
    if events == [] then 0
    else Pings(events[..|events| - 1]) + if events[|events| - 1].PingRead? then 1 else 0
  }

  /** When a manager's pings arrive: every gap, the first from the start, between `lo` and `hi`. */
  predicate SteadyArrivals(started: int, arrivals: seq<int>, lo: nat, hi: nat) {
    forall i | 0 <= i < |arrivals| :: lo <= arrivals[i] - (if i == 0 then started else arrivals[i - 1]) <= hi
  }

  /** The reader reads each ping when it has arrived, or when a wait is over if it arrived in one;
      and it checks for silence only with every ping that has arrived already read. */
  ghost predicate ReadsArrivals(started: int, events: seq<Event>, arrivals: seq<int>) {
    events == [] ||
    (var before, e := events[..|events| - 1], events[|events| - 1];
     var n := Pings(before);
     && ReadsArrivals(started, before, arrivals)
     && (e.PingRead? ==> n < |arrivals| && e.at == Max(arrivals[n], Now(started, before)))
     && (e.Check? ==> n < |arrivals| && e.at <= arrivals[n]))
  }

  lemma {:induction false} ChecksKeepArrivals(started: int, before: seq<Event>, checks: seq<Event>, arrivals: seq<int>)
    requires ReadsArrivals(started, before, arrivals) && Pings(before) < |arrivals|
    requires forall k | 0 <= k < |checks| :: checks[k].Check? && checks[k].at <= arrivals[Pings(before)]
    ensures ReadsArrivals(started, before + checks, arrivals)
    ensures Pings(before + checks) == Pings(before)
  {
    if checks == [] {
      assert before + checks == before;
    } else {
      assert (before + checks)[..|before + checks| - 1] == before + checks[..|checks| - 1];
      ChecksKeepArrivals(started, before, checks[..|checks| - 1], arrivals);
    }
  }

  /** A ping read had arrived by the time last heard from. */
  lemma {:induction false} ArrivedByThen(started: int, events: seq<Event>, arrivals: seq<int>)
    requires Timed(started, events) && ReadsArrivals(started, events, arrivals)
    ensures Pings(events) <= |arrivals|
    ensures Pings(events) > 0 ==> arrivals[Pings(events) - 1] <= LastHeard(started, events)
    ensures started <= LastHeard(started, events) <= Now(started, events)
  {
    if events != [] {
      ArrivedByThen(started, events[..|events| - 1], arrivals);
    }
  }

  /** The checks in a run whose pings arrive steadily. */
  ghost predicate ArrivalRun(started: int, events: seq<Event>, arrivals: seq<int>, lo: nat, hi: nat) {
    Timed(started, events) && SteadyArrivals(started, arrivals, lo, hi) && ReadsArrivals(started, events, arrivals)
  }

  lemma NextArrival(started: int, arrivals: seq<int>, lo: nat, hi: nat, n: nat)
    requires SteadyArrivals(started, arrivals, lo, hi) && n < |arrivals|
    ensures arrivals[n] <= (if n == 0 then started else arrivals[n - 1]) + hi
  {
  }

  /** Pings that arrive no more than the floor apart are enough, however long the reader waits. */
  lemma {:induction false} ArrivalsNeverDropped(started: int, events: seq<Event>, arrivals: seq<int>, lo: nat, hi: nat)
    requires ArrivalRun(started, events, arrivals, lo, hi) && hi <= SILENCE_FLOOR
    ensures !After(started, events).Verdict?
  {
    if events != [] {
      var before, e := events[..|events| - 1], events[|events| - 1];
      ArrivalsNeverDropped(started, before, arrivals, lo, hi);
      if After(started, before).Reading? && e.Check? {
        assert before + [e] == events;
        VerdictIsSound(started, before, e);
        ArrivedByThen(started, before, arrivals);
        var n := Pings(before);
        NextArrival(started, arrivals, lo, hi, n);
      }
    }
  }

  /** No wait is longer than `longest`. */
  predicate WaitsAtMost(events: seq<Event>, longest: nat) {
    forall k | 0 <= k < |events| && events[k].TextRead? :: events[k].done - events[k].at <= longest
  }

  /** And no more than that is: of a manager whose pings may arrive further apart than the floor one
      is dropped, after a wait in which enough of its pings arrive to be read all at once. The gaps
      the cadence learns are those between reads, and such a burst teaches it gaps of nothing. A wait
      as long as twenty slow writes is enough. */
  lemma ArrivalsExactly(lo: nat, hi: nat)
    requires lo <= hi
    ensures hi <= SILENCE_FLOOR <==>
            forall started: int, events: seq<Event>, arrivals: seq<int> ::
              ArrivalRun(started, events, arrivals, lo, hi) && OnTime(started, events, SILENCE_CHECK)
              && WaitsAtMost(events, 20 * WRITE_STALL_LIMIT) ==>
                !After(started, events).Verdict?
  {
    if hi <= SILENCE_FLOOR {
      forall started: int, events: seq<Event>, arrivals: seq<int> | ArrivalRun(started, events, arrivals, lo, hi)
        ensures !After(started, events).Verdict?
      {
        ArrivalsNeverDropped(started, events, arrivals, lo, hi);
      }
    } else if hi > SILENCE_PINGS * MAX_PING_GAP {
      var events, arrivals := SlowTooFar(lo, hi);
    } else {
      var events, arrivals := BurstTooFar(lo, hi);
    }
  }

  /** Pings further apart than any limit need no wait. */
  lemma SlowTooFar(lo: nat, hi: nat) returns (events: seq<Event>, arrivals: seq<int>)
    requires lo <= hi && hi > SILENCE_PINGS * MAX_PING_GAP
    ensures ArrivalRun(0, events, arrivals, lo, hi) && OnTime(0, events, SILENCE_CHECK)
    ensures WaitsAtMost(events, 0) && After(0, events).Verdict?
  {
    arrivals := [hi, 2 * hi];
    var first := FirstPingAt(hi);
    FirstPingArrived(first, hi, arrivals);
    LimitOfOne(Min(hi, MAX_PING_GAP));
    var checks := ChecksAndOneAt(0, first, 2 * hi);
    ChecksKeepArrivals(0, first, checks, arrivals);
    LastCheckJudges(0, first, checks);
    events := first + checks;
  }

  lemma BurstTooFar(lo: nat, hi: nat) returns (events: seq<Event>, arrivals: seq<int>)
    requires lo <= hi && hi > SILENCE_FLOOR && hi <= SILENCE_PINGS * MAX_PING_GAP
    ensures ArrivalRun(0, events, arrivals, lo, hi) && OnTime(0, events, SILENCE_CHECK)
    ensures WaitsAtMost(events, 20 * WRITE_STALL_LIMIT) && After(0, events).Verdict?
  {
    arrivals := [hi, 2 * hi, 3 * hi, 4 * hi, 5 * hi, 6 * hi, 7 * hi];
    var first := FirstPingAt(hi);
    FirstPingArrived(first, hi, arrivals);
    var waited := AfterWait(first, arrivals, hi);
    var burst := AfterBurst(waited, arrivals, 5);
    var checks := ChecksAndOneAt(0, burst, 7 * hi);
    ChecksKeepArrivals(0, burst, checks, arrivals);
    BurstTeachesNothing(After(0, burst).cadence);
    LastCheckJudges(0, burst, checks);
    events := burst + checks;
  }

  /** A text frame read with the first ping waits until the sixth has arrived. */
  lemma AfterWait(first: seq<Event>, arrivals: seq<int>, hi: nat) returns (events: seq<Event>)
    requires Timed(0, first) && OnTime(0, first, SILENCE_CHECK) && ReadsArrivals(0, first, arrivals)
    requires Now(0, first) == hi && Pings(first) == 1 && |arrivals| == 7
    requires After(0, first) == Reading(State(0, hi, Some(hi), [Min(hi, MAX_PING_GAP)]))
    requires WaitsAtMost(first, 5 * hi)
    ensures WaitsAtMost(events, 5 * hi)
    ensures Timed(0, events) && OnTime(0, events, SILENCE_CHECK) && ReadsArrivals(0, events, arrivals)
    ensures Now(0, events) == LastHeard(0, events) == 6 * hi && Pings(events) == 1
    ensures After(0, events) == Reading(State(0, 6 * hi, Some(hi), [Min(hi, MAX_PING_GAP)]))
  {
    var e := TextRead(hi, 6 * hi);
    events := first + [e];
    OneMore(0, first, e);
    OneMoreOnTime(0, first, e, SILENCE_CHECK);
    assert events[..|first|] == first;
  }

  /** The pings that arrived in the wait, read one after another at its end. */
  lemma {:induction false} AfterBurst(waited: seq<Event>, arrivals: seq<int>, n: nat) returns (events: seq<Event>)
    requires n <= 5 && |arrivals| == 7 && forall i | 1 <= i < 6 :: arrivals[i] <= Now(0, waited)
    requires Timed(0, waited) && OnTime(0, waited, SILENCE_CHECK) && ReadsArrivals(0, waited, arrivals)
    requires After(0, waited).Reading? && Pings(waited) == 1 && |After(0, waited).cadence.gaps| == 1
    requires LastHeard(0, waited) == Now(0, waited)
    ensures forall longest: nat :: WaitsAtMost(waited, longest) ==> WaitsAtMost(events, longest)
    ensures Timed(0, events) && OnTime(0, events, SILENCE_CHECK) && ReadsArrivals(0, events, arrivals)
    ensures After(0, events).Reading? && Pings(events) == 1 + n
    ensures Now(0, events) == LastHeard(0, events) == Now(0, waited)
    ensures
      var gaps := After(0, events).cadence.gaps;
      && |gaps| == 1 + n
      && (n > 0 ==> After(0, events).cadence.lastPing == Some(Now(0, waited)))
      && forall i | 2 <= i < |gaps| :: gaps[i] == 0
  {
    if n == 0 {
      events := waited;
    } else {
      var before := AfterBurst(waited, arrivals, n - 1);
      var e := PingRead(Now(0, waited));
      events := before + [e];
      OneMore(0, before, e);
      OneMoreOnTime(0, before, e, SILENCE_CHECK);
      assert events[..|before|] == before;
    }
  }

  lemma BurstTeachesNothing(s: State)
    requires |s.gaps| == 6 && forall i | 2 <= i < 6 :: s.gaps[i] == 0
    ensures SilenceLimitOf(s) == Some(SILENCE_FLOOR)
  {
    var gaps := s.gaps;
    assert CountAbove(gaps, 0) <= 2 by {
      NoneAbove(gaps[2..], 0);
      assert gaps[1..][1..] == gaps[2..];
    }
    MedianByCounting(gaps, 0);
  }

  lemma {:induction false} NoneAbove(s: seq<nat>, bound: nat)
    requires forall i | 0 <= i < |s| :: s[i] <= bound
    ensures CountAbove(s, bound) == 0
  {
    if s != [] {
      NoneAbove(s[1..], bound);
    }
  }
}
