/** The staggered connect (`connect_staggered`): which address is tried when, and what comes of it.
    What the attempts do is a script of events; the method runs the source's loop on it, `Racing`
    says where it leaves the loop, and the lemmas say what that means. */
module Race {
  import opened Limits
  import opened Dial

  datatype Event =
    | Connects(number: nat, at: int)
    | Fails(number: nat, error: nat, at: int)
    | StaggerRunsOut(at: int)

  datatype DialError = NotFound | AttemptFailed(error: nat)

  datatype Outcome =
    | Pending
    | Connected(addr: Addr, abandoned: seq<Addr>)
    | Failed(error: DialError)

  datatype Attempt = Attempt(number: nat, addr: Addr)

  /** The loop, waiting for an attempt to finish or the stagger to run out. */
  datatype Loop =
    | Waiting(waiting: seq<Addr>, inFlight: seq<Attempt>, started: nat, lastError: Option<nat>, since: int)
    | Done(outcome: Outcome)

  function Without(inFlight: seq<Attempt>, number: nat): (r: seq<Attempt>)
    ensures |r| <= |inFlight|
  {
    if inFlight == [] then []
    else (if inFlight[0].number != number then [inFlight[0]] else []) + Without(inFlight[1..], number)
  }

  /** The addresses of the attempts started before `number`. */
  function StartedBefore(inFlight: seq<Attempt>, number: nat): seq<Addr> {
    if inFlight == [] then []
    else (if inFlight[0].number < number then [inFlight[0].addr] else []) + StartedBefore(inFlight[1..], number)
  }

  predicate InFlight(inFlight: seq<Attempt>, number: nat) {
    exists k | 0 <= k < |inFlight| :: inFlight[k].number == number
  }

  function AddrOf(inFlight: seq<Attempt>, number: nat): (a: Addr)
    requires InFlight(inFlight, number)
  {
    if inFlight[0].number == number then inFlight[0].addr
    else
      assert InFlight(inFlight[1..], number) by {
        var k :| 0 <= k < |inFlight| && inFlight[k].number == number;
        assert inFlight[1..][k - 1].number == number;
      }
      AddrOf(inFlight[1..], number)
  }

  /** The top of a pass: the next address is started, and with none in flight it is over. */
  function Pass(waiting: seq<Addr>, inFlight: seq<Attempt>, started: nat, lastError: Option<nat>, now: int): Loop {
    if waiting != [] then
      Waiting(waiting[1..], inFlight + [Attempt(started, waiting[0])], started + 1, lastError, now)
    else if inFlight == [] then
      Done(Failed(if lastError.Some? then AttemptFailed(lastError.value) else NotFound))
    else Waiting(waiting, inFlight, started, lastError, now)
  }

  predicate CanHappen(l: Loop, e: Event) {
    && l.Waiting?
    && l.since <= e.at
    && match e
       case Connects(number, _) => InFlight(l.inFlight, number)
       case Fails(number, _, _) => InFlight(l.inFlight, number)
       case StaggerRunsOut(at) => l.waiting != [] && at >= l.since + CONNECT_ATTEMPT_DELAY
  }

  function Step(l: Loop, e: Event): Loop
    requires CanHappen(l, e)
  {
    match e
    case Connects(number, _) =>
      Done(Connected(AddrOf(l.inFlight, number), StartedBefore(Without(l.inFlight, number), number)))
    case Fails(number, error, at) =>
      Pass(l.waiting, Without(l.inFlight, number), l.started, Some(error), at)
    case StaggerRunsOut(at) => Pass(l.waiting, l.inFlight, l.started, l.lastError, at)
  }

  /** A script the attempts and the timer can play out. */
  predicate Possible(addrs: seq<Addr>, t0: int, script: seq<Event>)
    decreases |script|, 0
  {
    script == [] ||
    (Possible(addrs, t0, script[..|script| - 1]) &&
     CanHappen(Racing(addrs, t0, script[..|script| - 1]), script[|script| - 1]))
  }

  function Racing(addrs: seq<Addr>, t0: int, script: seq<Event>): Loop
    requires Possible(addrs, t0, script)
    decreases |script|, 1
  {
    if script == [] then Pass(addrs, [], 0, None, t0)
    else Step(Racing(addrs, t0, script[..|script| - 1]), script[|script| - 1])
  }

  function OutcomeOf(l: Loop): Outcome {
    if l.Done? then l.outcome else Pending
  }

  lemma {:induction false} PossiblePrefix(addrs: seq<Addr>, t0: int, script: seq<Event>, k: nat)
    requires Possible(addrs, t0, script) && k <= |script|
    ensures Possible(addrs, t0, script[..k])
    ensures k < |script| ==> CanHappen(Racing(addrs, t0, script[..k]), script[k])
  {
    if k == |script| {
      assert script[..k] == script;
    } else if k < |script| - 1 {
      PossiblePrefix(addrs, t0, script[..|script| - 1], k);
      assert script[..|script| - 1][..k] == script[..k];
    }
  }

  method ConnectStaggered(addrs: seq<Addr>, t0: int, script: seq<Event>) returns (outcome: Outcome)
    requires Possible(addrs, t0, script)
    ensures outcome == OutcomeOf(Racing(addrs, t0, script))
  {
    var waiting, inFlight, started, lastError := addrs, [], 0, None;
    var now, k := t0, 0;
    while true
      invariant k <= |script| && Possible(addrs, t0, script[..k])
      invariant Racing(addrs, t0, script[..k]) == Pass(waiting, inFlight, started, lastError, now)
      decreases |script| - k
    {
      // every pass starts the next address
      if waiting != [] {
        inFlight := inFlight + [Attempt(started, waiting[0])];
        waiting := waiting[1..];
        started := started + 1;
      }
      PossiblePrefix(addrs, t0, script, k);
      if inFlight == [] {
        assert k == |script| && script[..k] == script;
        return Failed(if lastError.Some? then AttemptFailed(lastError.value) else NotFound);
      }
      if k == |script| {
        assert script[..k] == script;
        return Pending;
      }
      var e := script[k];
      assert script[..k + 1][..k] == script[..k];
      PossiblePrefix(addrs, t0, script, k + 1);
      match e {
        case Connects(number, _) =>
          assert k + 1 == |script| && script[..k + 1] == script;
          var addr := AddrOf(inFlight, number);
          return Connected(addr, StartedBefore(Without(inFlight, number), number));
        case Fails(number, error, at) =>
          inFlight := Without(inFlight, number);
          lastError := Some(error);
          now := at;
        case StaggerRunsOut(at) =>
          now := at;
      }
      k := k + 1;
    }
  }

  // ── What a script says by itself ───────────────────────────────────

  /** The attempts a script has failed. */
  function FailedIn(script: seq<Event>): set<nat> {
    if script == [] then {}
    else
      var e := script[|script| - 1];
      FailedIn(script[..|script| - 1]) + if e.Fails? then {e.number} else {}
  }

  function LastErrorIn(script: seq<Event>): Option<nat> {
    if script == [] then None
    else if script[|script| - 1].Fails? then Some(script[|script| - 1].error)
    else LastErrorIn(script[..|script| - 1])
  }

  /** The first `n` addresses but for those failed, by the order they were started in. */
  function Unfailed(addrs: seq<Addr>, n: nat, failed: set<nat>): (r: seq<Attempt>)
    requires n <= |addrs|
  {
    if n == 0 then []
    else Unfailed(addrs, n - 1, failed) + if n - 1 in failed then [] else [Attempt(n - 1, addrs[n - 1])]
  }

  function Addrs(attempts: seq<Attempt>): seq<Addr> {
    seq(|attempts|, i requires 0 <= i < |attempts| => attempts[i].addr)
  }

  lemma {:induction false} UnfailedHas(addrs: seq<Addr>, n: nat, failed: set<nat>, i: nat)
    requires n <= |addrs|
    ensures InFlight(Unfailed(addrs, n, failed), i) <==> i < n && i !in failed
    ensures i < n && i !in failed ==> AddrOf(Unfailed(addrs, n, failed), i) == addrs[i]
  {
    if n > 0 {
      UnfailedHas(addrs, n - 1, failed, i);
      var a, b := Unfailed(addrs, n - 1, failed), if n - 1 in failed then [] else [Attempt(n - 1, addrs[n - 1])];
      InFlightConcat(a, b, i);
      assert n - 1 !in failed ==> b[0].number == n - 1;
    }
  }

  lemma {:induction false} InFlightConcat(a: seq<Attempt>, b: seq<Attempt>, i: nat)
    ensures InFlight(a + b, i) <==> InFlight(a, i) || InFlight(b, i)
    ensures InFlight(a, i) ==> AddrOf(a + b, i) == AddrOf(a, i)
    ensures !InFlight(a, i) && InFlight(b, i) ==> AddrOf(a + b, i) == AddrOf(b, i)
  {
    if a == [] {
      assert a + b == b;
    } else {
      assert (a + b)[1..] == a[1..] + b;
      InFlightConcat(a[1..], b, i);
      InFlightTail(a, i);
      InFlightTail(a + b, i);
    }
  }

  lemma InFlightTail(a: seq<Attempt>, i: nat)
    requires a != []
    ensures InFlight(a, i) <==> a[0].number == i || InFlight(a[1..], i)
  {
    if InFlight(a[1..], i) {
      var k :| 0 <= k < |a[1..]| && a[1..][k].number == i;
      assert a[k + 1].number == i;
    }
    if InFlight(a, i) && a[0].number != i {
      var k :| 0 <= k < |a| && a[k].number == i;
      assert a[1..][k - 1].number == i;
    }
  }

  lemma {:induction false} WithoutConcat(a: seq<Attempt>, b: seq<Attempt>, i: nat)
    ensures Without(a + b, i) == Without(a, i) + Without(b, i)
  {
    if a == [] {
      assert a + b == b;
    } else {
      assert (a + b)[1..] == a[1..] + b;
      WithoutConcat(a[1..], b, i);
    }
  }

  lemma {:induction false} UnfailedWithout(addrs: seq<Addr>, n: nat, failed: set<nat>, i: nat)
    requires n <= |addrs|
    ensures Without(Unfailed(addrs, n, failed), i) == Unfailed(addrs, n, failed + {i})
  {
    if n > 0 {
      UnfailedWithout(addrs, n - 1, failed, i);
      var b := if n - 1 in failed then [] else [Attempt(n - 1, addrs[n - 1])];
      WithoutConcat(Unfailed(addrs, n - 1, failed), b, i);
    }
  }

  lemma {:induction false} StartedBeforeConcat(a: seq<Attempt>, b: seq<Attempt>, i: nat)
    ensures StartedBefore(a + b, i) == StartedBefore(a, i) + StartedBefore(b, i)
  {
    if a == [] {
      assert a + b == b;
    } else {
      assert (a + b)[1..] == a[1..] + b;
      StartedBeforeConcat(a[1..], b, i);
    }
  }

  lemma {:induction false} AllStartedBefore(addrs: seq<Addr>, n: nat, failed: set<nat>, i: nat)
    requires n <= |addrs| && n <= i
    ensures StartedBefore(Unfailed(addrs, n, failed), i) == Addrs(Unfailed(addrs, n, failed))
  {
    if n > 0 {
      AllStartedBefore(addrs, n - 1, failed, i);
      var b := if n - 1 in failed then [] else [Attempt(n - 1, addrs[n - 1])];
      StartedBeforeConcat(Unfailed(addrs, n - 1, failed), b, i);
      AddrsConcat(Unfailed(addrs, n - 1, failed), b);
    }
  }

  lemma AddrsConcat(a: seq<Attempt>, b: seq<Attempt>)
    ensures Addrs(a + b) == Addrs(a) + Addrs(b)
  {
  }

  lemma {:induction false} UnfailedBefore(addrs: seq<Addr>, n: nat, failed: set<nat>, i: nat)
    requires i <= n <= |addrs|
    ensures StartedBefore(Unfailed(addrs, n, failed), i) == Addrs(Unfailed(addrs, i, failed))
  {
    if i == n {
      AllStartedBefore(addrs, n, failed, i);
    } else {
      UnfailedBefore(addrs, n - 1, failed, i);
      var b := if n - 1 in failed then [] else [Attempt(n - 1, addrs[n - 1])];
      StartedBeforeConcat(Unfailed(addrs, n - 1, failed), b, i);
    }
  }

  lemma {:induction false} UnfailedAlike(addrs: seq<Addr>, n: nat, a: set<nat>, b: set<nat>)
    requires n <= |addrs|
    requires forall i | 0 <= i < n :: i in a <==> i in b
    ensures Unfailed(addrs, n, a) == Unfailed(addrs, n, b)
  {
    if n > 0 {
      UnfailedAlike(addrs, n - 1, a, b);
    }
  }

  // ── The loop's bookkeeping ─────────────────────────────────────────

  function StartedAfter(addrs: seq<Addr>, script: seq<Event>): nat {
    Min(|addrs|, |script| + 1)
  }

  /** Where a script leaves the loop, told from the script alone: one address is started per pass,
      in order and each once; in flight are those started and not failed; and it is over only once
      every address has failed, or one has connected. */
  lemma {:induction false} RacingIs(addrs: seq<Addr>, t0: int, script: seq<Event>)
    requires Possible(addrs, t0, script)
    ensures forall i | i in FailedIn(script) :: i < StartedAfter(addrs, script)
    ensures
      var l, n, failed := Racing(addrs, t0, script), StartedAfter(addrs, script), FailedIn(script);
      && (l.Waiting? ==> WaitsWith(l, addrs, n, failed))
      && (l.Done? && l.outcome.Failed? ==> Unfailed(addrs, |addrs|, failed) == [] && n == |addrs|)
  {
    if script == [] {
      PassGetsTo(addrs, 0, {}, None, t0);
      assert addrs[0..] == addrs;
    } else {
      var before, e := script[..|script| - 1], script[|script| - 1];
      RacingIs(addrs, t0, before);
      RacingStep(addrs, Racing(addrs, t0, before), e, StartedAfter(addrs, before), FailedIn(before));
    }
  }

  /** The rest of what the loop keeps: the last failure, when its wait began, and how it ends. */
  lemma {:induction false} RacingRemembers(addrs: seq<Addr>, t0: int, script: seq<Event>)
    requires Possible(addrs, t0, script)
    ensures
      var l := Racing(addrs, t0, script);
      && (l.Waiting? ==>
            && l.lastError == LastErrorIn(script)
            && l.since == if script == [] then t0 else script[|script| - 1].at)
      && (l.Done? && l.outcome.Failed? ==>
            l.outcome.error ==
            if LastErrorIn(script).Some? then AttemptFailed(LastErrorIn(script).value) else NotFound)
      && (l.Done? && l.outcome.Connected? ==> script != [] && script[|script| - 1].Connects?)
      && (l.Done? ==> !l.outcome.Pending?)
  {
    if script != [] {
      RacingRemembers(addrs, t0, script[..|script| - 1]);
    }
  }

  /** What one event does to the bookkeeping, for each kind of event. */
  lemma AfterStagger(addrs: seq<Addr>, n: nat, failed: set<nat>)
    requires n < |addrs| && forall i | i in failed :: i < n
    ensures addrs[n..][1..] == addrs[n + 1..] && addrs[n..][0] == addrs[n]
    ensures Unfailed(addrs, n + 1, failed) == Unfailed(addrs, n, failed) + [Attempt(n, addrs[n])]
  {
    assert n !in failed;
  }

  lemma AfterFailure(addrs: seq<Addr>, n: nat, failed: set<nat>, number: nat)
    requires n <= |addrs| && (forall i | i in failed :: i < n) && InFlight(Unfailed(addrs, n, failed), number)
    ensures number < n
    ensures Without(Unfailed(addrs, n, failed), number) == Unfailed(addrs, n, failed + {number})
  {
    UnfailedWithout(addrs, n, failed, number);
    UnfailedHas(addrs, n, failed, number);
  }

  /** The loop waits with `n` addresses started and those in `failed` failed. */
  ghost predicate WaitsWith(l: Loop, addrs: seq<Addr>, n: nat, failed: set<nat>) {
    && l.Waiting? && n <= |addrs|
    && (forall i | i in failed :: i < n)
    && l.started == n && l.waiting == addrs[n..] && l.inFlight == Unfailed(addrs, n, failed) && l.inFlight != []
  }

  /** Where a pass gets to from there. */
  lemma PassGetsTo(addrs: seq<Addr>, n: nat, failed: set<nat>, lastError: Option<nat>, now: int)
    requires n <= |addrs| && forall i | i in failed :: i < n
    ensures
      var l := Pass(addrs[n..], Unfailed(addrs, n, failed), n, lastError, now);
      if n == |addrs| && Unfailed(addrs, n, failed) == [] then l.Done? && l.outcome.Failed?
      else WaitsWith(l, addrs, Min(|addrs|, n + 1), failed) && l.lastError == lastError && l.since == now
  {
    if n < |addrs| {
      AfterStagger(addrs, n, failed);
    }
  }

  lemma RacingStep(addrs: seq<Addr>, l: Loop, e: Event, n: nat, failed: set<nat>)
    requires CanHappen(l, e) && WaitsWith(l, addrs, n, failed)
    ensures
      var l', failed' := Step(l, e), failed + if e.Fails? then {e.number} else {};
      && (forall i | i in failed' :: i < n)
      && (l'.Waiting? ==> WaitsWith(l', addrs, Min(|addrs|, n + 1), failed'))
      && (l'.Done? && l'.outcome.Failed? ==> Unfailed(addrs, |addrs|, failed') == [] && n == |addrs|)
  {
    match e
    case Connects(_, _) =>
    case Fails(number, error, at) =>
      AfterFailure(addrs, n, failed, number);
      PassGetsTo(addrs, n, failed + {number}, Some(error), at);
    case StaggerRunsOut(at) =>
      assert failed + {} == failed;
      PassGetsTo(addrs, n, failed, l.lastError, at);
  }

  /** On success: the winner is an address that was started and had not failed, and `abandoned` is
      exactly, in the order they were started, those before it that had neither connected nor
      failed. */
  lemma ConnectedTo(addrs: seq<Addr>, t0: int, script: seq<Event>)
    requires Possible(addrs, t0, script) && Racing(addrs, t0, script).Done?
    requires Racing(addrs, t0, script).outcome.Connected?
    ensures script != [] && script[|script| - 1].Connects?
    ensures
      var w, outcome := script[|script| - 1].number, Racing(addrs, t0, script).outcome;
      && w < Min(|addrs|, |script|)
      && w !in FailedIn(script)
      && outcome == Connected(addrs[w], Addrs(Unfailed(addrs, w, FailedIn(script))))
  {
    RacingRemembers(addrs, t0, script);
    var before, e := script[..|script| - 1], script[|script| - 1];
    RacingIs(addrs, t0, before);
    WinnerIs(addrs, StartedAfter(addrs, before), FailedIn(before), e.number);
    assert FailedIn(script) == FailedIn(before);
  }

  lemma WinnerIs(addrs: seq<Addr>, n: nat, failed: set<nat>, w: nat)
    requires n <= |addrs| && InFlight(Unfailed(addrs, n, failed), w)
    ensures w < n && w !in failed && AddrOf(Unfailed(addrs, n, failed), w) == addrs[w]
    ensures StartedBefore(Without(Unfailed(addrs, n, failed), w), w) == Addrs(Unfailed(addrs, w, failed))
  {
    UnfailedHas(addrs, n, failed, w);
    UnfailedWithout(addrs, n, failed, w);
    UnfailedBefore(addrs, n, failed + {w}, w);
    UnfailedAlike(addrs, w, failed + {w}, failed);
  }

  /** On failure: every address has failed, and the error is the last failure seen, or that there
      was no address to try. While one has not failed, the dial has not. */
  lemma FailsOnlyWhenAllHave(addrs: seq<Addr>, t0: int, script: seq<Event>)
    requires Possible(addrs, t0, script)
    ensures
      var l := Racing(addrs, t0, script);
      (l.Done? && l.outcome.Failed?) <==>
      ((forall i | 0 <= i < |addrs| :: i in FailedIn(script)) && !(l.Done? && l.outcome.Connected?))
    ensures
      var l := Racing(addrs, t0, script);
      l.Done? && l.outcome.Failed? ==>
        l.outcome.error == if addrs == [] then NotFound else AttemptFailed(LastErrorIn(script).value)
  {
    RacingIs(addrs, t0, script);
    RacingRemembers(addrs, t0, script);
    FailedHasError(script);
    var l, failed := Racing(addrs, t0, script), FailedIn(script);
    if l.Waiting? {
      SomeUnfailed(addrs, l.started, failed);
    } else if l.outcome.Failed? {
      forall i | 0 <= i < |addrs| ensures i in failed {
        UnfailedHas(addrs, |addrs|, failed, i);
      }
    }
  }

  lemma SomeUnfailed(addrs: seq<Addr>, n: nat, failed: set<nat>)
    requires n <= |addrs| && Unfailed(addrs, n, failed) != []
    ensures exists i :: 0 <= i < n && i !in failed
  {
    var a := Unfailed(addrs, n, failed)[0];
    UnfailedHas(addrs, n, failed, a.number);
    assert InFlight(Unfailed(addrs, n, failed), a.number);
  }

  lemma {:induction false} FailedHasError(script: seq<Event>)
    ensures FailedIn(script) != {} ==> LastErrorIn(script).Some?
  {
    if script != [] {
      FailedHasError(script[..|script| - 1]);
    }
  }

  // ── What can happen next ───────────────────────────────────────────

  /** When the last address was started, or the last event came. */
  function LastTime(t0: int, script: seq<Event>): int {
    if script == [] then t0 else script[|script| - 1].at
  }

  /** The loop rules nothing out: while it waits, any attempt started and not failed may connect or
      fail at any time from now on, and with an address still to start the stagger runs out when it is
      over and not before; and nothing else can happen. */
  lemma NextIsExactly(addrs: seq<Addr>, t0: int, script: seq<Event>, e: Event)
    requires Possible(addrs, t0, script)
    ensures Possible(addrs, t0, script + [e]) <==>
              && Racing(addrs, t0, script).Waiting?
              && match e
                 case Connects(number, at) =>
                   number < StartedAfter(addrs, script) && number !in FailedIn(script) && at >= LastTime(t0, script)
                 case Fails(number, _, at) =>
                   number < StartedAfter(addrs, script) && number !in FailedIn(script) && at >= LastTime(t0, script)
                 case StaggerRunsOut(at) =>
                   StartedAfter(addrs, script) < |addrs| && at >= LastTime(t0, script) + CONNECT_ATTEMPT_DELAY
  {
    assert (script + [e])[..|script|] == script;
    RacingIs(addrs, t0, script);
    RacingRemembers(addrs, t0, script);
    if !e.StaggerRunsOut? {
      UnfailedHas(addrs, StartedAfter(addrs, script), FailedIn(script), e.number);
    }
  }

  /** The loop goes on waiting until an attempt connects or the last one fails. */
  lemma WaitsUntil(addrs: seq<Addr>, t0: int, script: seq<Event>)
    requires Possible(addrs, t0, script) && addrs != []
    ensures Racing(addrs, t0, script).Waiting? <==>
              && !(script != [] && script[|script| - 1].Connects?)
              && exists i :: 0 <= i < |addrs| && i !in FailedIn(script)
  {
    RacingIs(addrs, t0, script);
    RacingRemembers(addrs, t0, script);
    FailsOnlyWhenAllHave(addrs, t0, script);
    var l := Racing(addrs, t0, script);
    if l.Waiting? {
      SomeUnfailed(addrs, l.started, FailedIn(script));
      WaitingHasNotConnected(addrs, t0, script);
    }
  }

  lemma WaitingHasNotConnected(addrs: seq<Addr>, t0: int, script: seq<Event>)
    requires Possible(addrs, t0, script) && Racing(addrs, t0, script).Waiting?
    ensures script != [] ==> !script[|script| - 1].Connects?
  {
  }

  // ── Termination ────────────────────────────────────────────────────

  function Measure(l: Loop): nat {
    if l.Done? then 0 else 2 * |l.waiting| + |l.inFlight|
  }

  lemma {:induction false} WithoutIsShorter(inFlight: seq<Attempt>, number: nat)
    requires InFlight(inFlight, number)
    ensures |Without(inFlight, number)| < |inFlight|
  {
    if inFlight[0].number != number {
      InFlightTail(inFlight, number);
      WithoutIsShorter(inFlight[1..], number);
    }
  }

  /** Whatever happens brings the end nearer, so a dial whose attempts all finish is over after at
      most twice as many events as there are addresses. */
  lemma {:induction false} RaceEnds(addrs: seq<Addr>, t0: int, script: seq<Event>)
    requires Possible(addrs, t0, script) && Racing(addrs, t0, script).Waiting?
    ensures |script| + Measure(Racing(addrs, t0, script)) < 2 * |addrs|
  {
    if script != [] {
      var before, e := script[..|script| - 1], script[|script| - 1];
      RaceEnds(addrs, t0, before);
      if e.Fails? {
        WithoutIsShorter(Racing(addrs, t0, before).inFlight, e.number);
      }
    }
  }

  // ── Timing ─────────────────────────────────────────────────────────

  /** When the `k`-th address is started. */
  function StartTime(t0: int, script: seq<Event>, k: nat): int
    requires k <= |script|
  {
    if k == 0 then t0 else script[k - 1].at
  }

  /** The dial is polled no later than `late` after its stagger runs out. */
  predicate OnTime(addrs: seq<Addr>, t0: int, script: seq<Event>, late: nat)
    requires Possible(addrs, t0, script)
  {
    script == [] ||
    (var before := script[..|script| - 1];
     && OnTime(addrs, t0, before, late)
     && StillWaitingAt(Racing(addrs, t0, before), script[|script| - 1].at, late))
  }

  /** The dial can still be waiting at `now`: its stagger, if it has one, has not run out by more than
      `late`. */
  predicate StillWaitingAt(l: Loop, now: int, late: nat) {
    l.Waiting? && (l.waiting != [] ==> now <= l.since + CONNECT_ATTEMPT_DELAY + late)
  }

  lemma {:induction false} OnTimePrefix(addrs: seq<Addr>, t0: int, script: seq<Event>, late: nat, k: nat)
    requires Possible(addrs, t0, script) && OnTime(addrs, t0, script, late) && k < |script|
    ensures Possible(addrs, t0, script[..k])
    ensures StillWaitingAt(Racing(addrs, t0, script[..k]), script[k].at, late)
  {
    if k < |script| - 1 {
      OnTimePrefix(addrs, t0, script[..|script| - 1], late, k);
      assert script[..|script| - 1][..k] == script[..k];
    }
  }

  lemma NextStart(addrs: seq<Addr>, t0: int, script: seq<Event>, late: nat, k: nat)
    requires Possible(addrs, t0, script) && OnTime(addrs, t0, script, late) && 0 < k < |addrs| && k <= |script|
    ensures StartTime(t0, script, k) <= StartTime(t0, script, k - 1) + CONNECT_ATTEMPT_DELAY + late
  {
    OnTimePrefix(addrs, t0, script, late, k - 1);
    RacingIs(addrs, t0, script[..k - 1]);
    RacingRemembers(addrs, t0, script[..k - 1]);
  }

  lemma {:induction false} StartsInTime(addrs: seq<Addr>, t0: int, script: seq<Event>, late: nat, k: nat)
    requires Possible(addrs, t0, script) && OnTime(addrs, t0, script, late) && k < |addrs| && k <= |script|
    ensures StartTime(t0, script, k) <= t0 + k * (CONNECT_ATTEMPT_DELAY + late)
  {
    if k > 0 {
      StartsInTime(addrs, t0, script, late, k - 1);
      NextStart(addrs, t0, script, late, k);
    }
  }

  /** While nothing has connected the `k`-th address is started within `k` staggers, each as late as
      it is polled: at the first event after the address before it, be that a failure or its stagger
      running out. */
  lemma StartedInTime(addrs: seq<Addr>, t0: int, script: seq<Event>, late: nat, k: nat)
    requires Possible(addrs, t0, script) && OnTime(addrs, t0, script, late) && k < |addrs| && k <= |script|
    ensures StartTime(t0, script, k) <= t0 + k * (CONNECT_ATTEMPT_DELAY + late)
    ensures Racing(addrs, t0, script).Waiting? ==> Racing(addrs, t0, script).started > k
  {
    RacingIs(addrs, t0, script);
    StartsInTime(addrs, t0, script, late, k);
  }

  /** However many silent addresses come first, by `k` staggers in the `k`-th address has been
      started; for the interleaved addresses the first of the other family within one. */
  lemma OtherFamilyIsTried(addrs: seq<Addr>, t0: int, script: seq<Event>, late: nat, now: int, k: nat)
    requires addrs != [] && k < |addrs| && Possible(Interleaved(addrs), t0, script)
    requires OnTime(Interleaved(addrs), t0, script, late)
    requires StillWaitingAt(Racing(Interleaved(addrs), t0, script), now, late)
    ensures now > t0 + k * (CONNECT_ATTEMPT_DELAY + late) ==> Racing(Interleaved(addrs), t0, script).started > k
    ensures now > t0 + CONNECT_ATTEMPT_DELAY + late && Family(addrs, !addrs[0].v6) != [] ==>
              && Racing(Interleaved(addrs), t0, script).started > 1
              && Interleaved(addrs)[1] == Family(addrs, !addrs[0].v6)[0]
  {
    var ordered := Interleaved(addrs);
    InterleavingKeeps(addrs);
    InterleavingAlternates(addrs, 0);
    assert |ordered| == |addrs| by {
      assert |multiset(ordered)| == |multiset(addrs)|;
    }
    NotYetStartedIsEarly(ordered, t0, script, late, now, k);
    if |addrs| > 1 {
      NotYetStartedIsEarly(ordered, t0, script, late, now, 1);
    }
  }

  lemma NotYetStartedIsEarly(addrs: seq<Addr>, t0: int, script: seq<Event>, late: nat, now: int, k: nat)
    requires Possible(addrs, t0, script) && OnTime(addrs, t0, script, late) && k < |addrs|
    requires StillWaitingAt(Racing(addrs, t0, script), now, late)
    ensures Racing(addrs, t0, script).started <= k ==> now <= t0 + k * (CONNECT_ATTEMPT_DELAY + late)
  {
    RacingIs(addrs, t0, script);
    RacingRemembers(addrs, t0, script);
    var l := Racing(addrs, t0, script);
    if l.started <= k {
      StartedInTime(addrs, t0, script, late, |script|);
      StaggersAdd(l.started, k, CONNECT_ATTEMPT_DELAY + late);
    }
  }

  lemma StaggersAdd(m: nat, n: nat, d: nat)
    requires 0 < m <= n
    ensures (m - 1) * d + d <= n * d
  {
    assert (m - 1) * d + d == m * d;
    assert n * d == m * d + (n - m) * d;
  }
}
