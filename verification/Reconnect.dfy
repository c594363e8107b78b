/** The reconnect loop (`run`): the URL it dials next, how long it waits first, and the
    credentials it has to authenticate with. */
module Reconnect {
  import opened Limits
  import opened Link

  /** How one pass of the loop came out: no session, or a session and its end. */
  datatype Outcome = ConnectFailed | Session(end: End)

  predicate EndedCleanly(o: Outcome) {
    o.Session? && o.end.AuthenticatedThenClosed?
  }

  predicate EndsRun(o: Outcome) {
    o.Session? && o.end.ShutdownRequested?
  }

  /** The loop's attempt counter after a pass that does not end the run. It is a saturating u32. */
  function NextAttempt(attempt: nat, o: Outcome): (r: nat)
    requires attempt <= U32_MAX
  {
    Min((if EndedCleanly(o) then 0 else attempt) + 1, U32_MAX)
  }

  /** `ReconnectBackoff::delay_for_attempt`, in seconds. */
  function DelayForAttempt(steps: seq<nat>, attempt: nat): (delay: nat)
    ensures steps != [] ==> delay in steps
  {
    if steps == [] then 5 else steps[Min(Max(attempt, 1) - 1, |steps| - 1)]
  }

  /** One pass, and whether shutdown was asked for right after it or during the wait. */
  datatype Pass = Pass(outcome: Outcome, cancelled: bool, cancelledInBackoff: bool)

  predicate Waits(p: Pass) {
    !EndsRun(p.outcome) && !p.cancelled
  }

  predicate GoesOn(p: Pass) {
    Waits(p) && !p.cancelledInBackoff
  }

  function AttemptAfter(passes: seq<Pass>): (r: nat)
    ensures r <= U32_MAX
  {
    if passes == [] then 0
    else NextAttempt(AttemptAfter(passes[..|passes| - 1]), passes[|passes| - 1].outcome)
  }

  /** The index of the last pass that ended in a clean close. */
  function LastClean(passes: seq<Pass>): Option<nat> {
    if passes == [] then None
    else if EndedCleanly(passes[|passes| - 1].outcome) then Some(|passes| - 1)
    else LastClean(passes[..|passes| - 1])
  }

  /** How many passes there have been since the last clean close, that one included. */
  function Streak(passes: seq<Pass>): nat {
    if LastClean(passes).Some? then |passes| - LastCleanIndex(passes) else |passes|
  }

  function LastCleanIndex(passes: seq<Pass>): (r: nat)
    requires LastClean(passes).Some?
    ensures r < |passes|
    ensures EndedCleanly(passes[r].outcome)
    ensures forall k | r < k < |passes| :: !EndedCleanly(passes[k].outcome)
  {
    if EndedCleanly(passes[|passes| - 1].outcome) then |passes| - 1
    else LastCleanIndex(passes[..|passes| - 1])
  }

  /** The URL the `k`-th pass dials: they are taken in turn, by a cursor that wraps as a usize. */
  function UrlOf(k: nat, urls: nat): nat
    requires urls > 0
  {
    k % USIZE_COUNT % urls
  }

  /** The URLs are taken in the order they are configured, from the first, round and round. */
  lemma UrlsInTurn(k: nat, urls: nat)
    requires urls > 0
    ensures UrlOf(0, urls) == 0 && UrlOf(k, urls) < urls
    ensures k % USIZE_COUNT + 1 < USIZE_COUNT ==> UrlOf(k + 1, urls) == (UrlOf(k, urls) + 1) % urls
  {
    CursorNext(k);
    if k % USIZE_COUNT + 1 < USIZE_COUNT {
      NextInTurn(k % USIZE_COUNT, urls);
    }
  }

  lemma {:induction false} CursorAhead(k: nat, d: nat)
    requires k % USIZE_COUNT + d < USIZE_COUNT
    ensures (k + d) % USIZE_COUNT == k % USIZE_COUNT + d
  {
    if d > 0 {
      CursorAhead(k, d - 1);
      CursorNext(k + d - 1);
    }
  }

  lemma {:induction false} AheadInTurn(n: nat, d: nat, m: nat)
    requires m > 0
    ensures (n + d) % m == (n % m + d) % m
  {
    if d == 0 {
      ModIs(n % m, m, 0, n % m);
    } else {
      AheadInTurn(n, d - 1, m);
      NextInTurn(n + (d - 1), m);
      NextInTurn(n % m + (d - 1), m);
    }
  }

  lemma UrlAhead(k: nat, d: nat, urls: nat)
    requires urls > 0 && k % USIZE_COUNT + d < USIZE_COUNT
    ensures UrlOf(k + d, urls) == (UrlOf(k, urls) + d) % urls
  {
    CursorAhead(k, d);
    AheadInTurn(k % USIZE_COUNT, d, urls);
  }

  /** So each is dialled within any as many passes in a row as there are, up to the wrap of the cursor
      after 2^64. */
  lemma EveryUrlIsDialled(k: nat, urls: nat, u: nat) returns (j: nat)
    requires u < urls && k % USIZE_COUNT + urls <= USIZE_COUNT
    ensures k <= j < k + urls && UrlOf(j, urls) == u
  {
    var a := UrlOf(k, urls);
    UrlsInTurn(k, urls);
    var d := if u >= a then u - a else u + urls - a;
    j := k + d;
    UrlAhead(k, d, urls);
    ModIs(a + d, urls, if u >= a then 0 else 1, u);
  }

  lemma CursorNext(k: nat)
    ensures k % USIZE_COUNT + 1 < USIZE_COUNT ==> (k + 1) % USIZE_COUNT == k % USIZE_COUNT + 1
  {
  }

  lemma NextInTurn(n: nat, m: nat)
    requires m > 0
    ensures (n + 1) % m == (n % m + 1) % m
  {
    var q, r := n / m, n % m;
    assert n == q * m + r;
    if r + 1 < m {
      ModIs(n + 1, m, q, r + 1);
      ModIs(r + 1, m, 0, r + 1);
    } else {
      OneMoreTimes(q, m);
      ModIs(n + 1, m, q + 1, 0);
      ModIs(r + 1, m, 1, 0);
    }
  }

  lemma OneMoreTimes(q: nat, m: nat)
    ensures (q + 1) * m == q * m + m
  {
  }

  lemma ModIs(n: nat, m: nat, q: nat, r: nat)
    requires m > 0 && n == q * m + r && r < m
    ensures n % m == r
  {
    var q', r' := n / m, n % m;
    assert (q - q') * m == r' - r;
    MultiplesAreFar(q - q', m);
  }

  lemma MultiplesAreFar(d: int, m: nat)
    ensures d >= 1 ==> d * m >= m
    ensures d <= -1 ==> d * m + m <= 0
  {
    if d >= 1 {
      assert d * m == (d - 1) * m + m;
    } else if d <= -1 {
      assert d * m == (d + 1) * m - m;
    }
  }

  /** The wait after the last of some passes. */
  function DelayAfter(steps: seq<nat>, passes: seq<Pass>): nat {
    DelayForAttempt(steps, AttemptAfter(passes))
  }

  lemma CursorStep(k: nat)
    ensures (k % USIZE_COUNT + 1) % USIZE_COUNT == (k + 1) % USIZE_COUNT
  {
  }

  lemma AttemptStep(passes: seq<Pass>, k: nat)
    requires k < |passes|
    ensures AttemptAfter(passes[..k + 1]) == NextAttempt(AttemptAfter(passes[..k]), passes[k].outcome)
  {
    assert passes[..k + 1][..k] == passes[..k];
  }

  /** How many of the passes the loop makes: those up to the first that does not go on. */
  function PassesMade(passes: seq<Pass>): (n: nat)
    ensures n <= |passes|
  {
    if passes == [] then 0 else if GoesOn(passes[0]) then 1 + PassesMade(passes[1..]) else 1
  }

  lemma {:induction false} MadeUpTo(passes: seq<Pass>, k: nat)
    requires k < |passes| && forall j | 0 <= j < k :: GoesOn(passes[j])
    ensures !GoesOn(passes[k]) ==> PassesMade(passes) == k + 1
    ensures k + 1 == |passes| ==> PassesMade(passes) == k + 1
  {
    if k > 0 {
      assert forall j | 0 <= j < k - 1 :: passes[1..][j] == passes[j + 1];
      MadeUpTo(passes[1..], k - 1);
    }
  }

  method Run(urls: nat, steps: seq<nat>, passes: seq<Pass>) returns (dialled: seq<nat>, delays: seq<nat>)
    requires urls > 0
    ensures |dialled| == PassesMade(passes)
    ensures forall k | 0 <= k < |dialled| :: dialled[k] == UrlOf(k, urls)
    ensures |delays| == if dialled != [] && !Waits(passes[|dialled| - 1]) then |dialled| - 1 else |dialled|
    ensures forall k | 0 <= k < |delays| :: delays[k] == DelayAfter(steps, passes[..k + 1])
  {
    dialled, delays := [], [];
    var urlCursor, attempt := 0, 0;
    var k := 0;
    while k < |passes|
      invariant k <= |passes| && |dialled| == |delays| == k
      invariant k == |passes| ==> PassesMade(passes) == k
      invariant urlCursor == k % USIZE_COUNT
      invariant attempt == AttemptAfter(passes[..k])
      invariant forall j | 0 <= j < k :: GoesOn(passes[j])
      invariant forall j | 0 <= j < k :: dialled[j] == UrlOf(j, urls)
      invariant forall j | 0 <= j < k :: delays[j] == DelayAfter(steps, passes[..j + 1])
    {
      var p := passes[k];
      MadeUpTo(passes, k);
      AttemptStep(passes, k);
      CursorStep(k);
      dialled := dialled + [urlCursor % urls];
      if p.outcome.Session? && p.outcome.end.AuthenticatedThenClosed? {
        attempt := 0;
      } else if p.outcome.Session? && p.outcome.end.ShutdownRequested? {
        return;
      }
      if p.cancelled {
        return;
      }
      urlCursor := (urlCursor + 1) % USIZE_COUNT;
      attempt := Min(attempt + 1, U32_MAX);
      delays := delays + [DelayForAttempt(steps, attempt)];
      k := k + 1;
      if p.cancelledInBackoff {
        return;
      }
    }
  }

  /** A pass is made exactly if none before it ended in a shutdown or was followed by one: closed,
      lost or failed, the loop goes on. */
  lemma {:induction false} MadeExactly(passes: seq<Pass>, k: nat)
    ensures k < PassesMade(passes) <==>
              && k < |passes|
              && forall j | 0 <= j < k ::
                   && passes[j].outcome != Session(ShutdownRequested)
                   && !passes[j].cancelled && !passes[j].cancelledInBackoff
  {
    if passes != [] && k > 0 {
      MadeExactly(passes[1..], k - 1);
      assert forall j | 0 <= j < k - 1 && j < |passes[1..]| :: passes[1..][j] == passes[j + 1];
      assert forall j | 0 < j < k && j < |passes| :: passes[j] == passes[1..][j - 1];
    }
  }

  lemma {:induction false} AttemptIsStreak(passes: seq<Pass>)
    ensures AttemptAfter(passes) == Min(Streak(passes), U32_MAX)
  {
    if passes != [] {
      var before := passes[..|passes| - 1];
      AttemptIsStreak(before);
      if LastClean(before).Some? && !EndedCleanly(passes[|passes| - 1].outcome) {
        assert LastCleanIndex(passes) == LastCleanIndex(before);
      }
    }
  }

  /** The wait after each pass depends only on how many passes there have been since the last clean
      close: the first step right after one, one step further for each pass since, and the last
      step for good (5 s always, with no steps). Losing a session, however long it lasted, resets
      nothing. */
  lemma DelayByStreak(steps: seq<nat>, passes: seq<Pass>)
    requires passes != []
    ensures steps == [] ==> DelayAfter(steps, passes) == 5
    ensures steps != [] ==>
              DelayAfter(steps, passes) == steps[Min(Min(Streak(passes), U32_MAX), |steps|) - 1]
    ensures steps != [] && EndedCleanly(passes[|passes| - 1].outcome) ==> DelayAfter(steps, passes) == steps[0]
  {
    AttemptIsStreak(passes);
  }

  // ── Credentials ────────────────────────────────────────────────────

  datatype Credentials = Credentials(nodeId: Option<string>, nodeSecret: Option<string>, token: Option<string>)

  datatype AuthFrame = AuthReconnect(nodeId: string, nodeSecret: string) | AuthRegister(token: string)

  /** What `GatewayConfig::validate` demands of the credentials. */
  predicate Validated(c: Credentials) {
    && (c.nodeId.Some? <==> c.nodeSecret.Some?)
    && (c.nodeId.Some? || c.token.Some?)
  }

  /** The frame a connection authenticates with, or `None` for the error that there is none. */
  function ChooseAuth(c: Credentials): Option<AuthFrame> {
    if c.nodeId.Some? && c.nodeSecret.Some? then Some(AuthReconnect(c.nodeId.value, c.nodeSecret.value))
    else if c.token.Some? then Some(AuthRegister(c.token.value))
    else None
  }

  /** The manager's replies, in order: the node's identity if it registered, else none. */
  function AfterReplies(c: Credentials, replies: seq<Option<(string, string)>>): Credentials {
    if replies == [] then c
    else
      var before := AfterReplies(c, replies[..|replies| - 1]);
      var reply := replies[|replies| - 1];
      if reply.Some? then Credentials(Some(reply.value.0), Some(reply.value.1), None) else before
  }

  lemma {:induction false} NoIdentityNoChange(c: Credentials, replies: seq<Option<(string, string)>>)
    requires forall k | 0 <= k < |replies| :: replies[k].None?
    ensures AfterReplies(c, replies) == c
  {
    if replies != [] {
      NoIdentityNoChange(c, replies[..|replies| - 1]);
    }
  }

  /** Registering spends the token: once an identity has been given the client has no token left. */
  lemma {:induction false} RegisteringSpendsToken(c: Credentials, replies: seq<Option<(string, string)>>, k: nat)
    requires k < |replies| && replies[k].Some?
    ensures AfterReplies(c, replies).token.None?
  {
    if k < |replies| - 1 {
      RegisteringSpendsToken(c, replies[..|replies| - 1], k);
    }
  }

  /** Until it is given an identity a client offers the one it was configured with, or else its
      token. */
  lemma OffersWhatItHas(c: Credentials, replies: seq<Option<(string, string)>>)
    requires Validated(c) && forall k | 0 <= k < |replies| :: replies[k].None?
    ensures ChooseAuth(AfterReplies(c, replies)) == Some(
              if c.nodeId.Some? then AuthReconnect(c.nodeId.value, c.nodeSecret.value)
              else AuthRegister(c.token.value))
  {
    NoIdentityNoChange(c, replies);
  }

  /** A validated client can always authenticate, and once it has registered it never offers its
      token again but the identity it was last given. */
  lemma {:induction false} CanAlwaysAuthenticate(c: Credentials, replies: seq<Option<(string, string)>>)
    requires Validated(c)
    ensures Validated(AfterReplies(c, replies))
    ensures ChooseAuth(AfterReplies(c, replies)).Some?
    ensures c.nodeId.Some? || (exists k :: 0 <= k < |replies| && replies[k].Some?) ==>
              ChooseAuth(AfterReplies(c, replies)).value.AuthReconnect?
    ensures forall k | 0 <= k < |replies| && replies[k].Some? && (forall j | k < j < |replies| :: replies[j].None?) ::
              ChooseAuth(AfterReplies(c, replies)).value == AuthReconnect(replies[k].value.0, replies[k].value.1)
  {
    if replies != [] {
      CanAlwaysAuthenticate(c, replies[..|replies| - 1]);
      if (exists k :: 0 <= k < |replies| && replies[k].Some?) && replies[|replies| - 1].None? {
        var k :| 0 <= k < |replies| && replies[k].Some?;
        assert replies[..|replies| - 1][k].Some?;
      }
    }
  }
}
