/** How often the manager pings, and the silence that is taken for its death
    (`InboundCadence`). The class updates its fields in place; the functions on `State` say what
    each method does, and the lemmas are about them. Times are in milliseconds. */
module Cadence {
  import opened Limits

  /** The fields, as a value. */
  datatype State = State(started: int, lastFrame: int, lastPing: Option<int>, gaps: seq<nat>)

  function Since(now: int, then_: int): (r: nat) {
    if now >= then_ then now - then_ else 0
  }

  function Gap(now: int, since: int): (r: nat)
    ensures r <= MAX_PING_GAP
  {
    Min(Since(now, since), MAX_PING_GAP)
  }

  function Fresh(now: int): State {
    State(now, now, None, [])
  }

  function AfterFrame(s: State, now: int): State {
    s.(lastFrame := now)
  }

  function AfterPing(s: State, now: int): State {
    var gap := Gap(now, if s.lastPing.Some? then s.lastPing.value else s.started);
    var kept := if |s.gaps| == PING_GAPS_KEPT then s.gaps[1..] else s.gaps;
    State(s.started, now, Some(now), kept + [gap])
  }

  // ── Sorting ────────────────────────────────────────────────────────

  predicate Sorted(s: seq<nat>) {
    forall i, j | 0 <= i < j < |s| :: s[i] <= s[j]
  }

  function Insert(x: nat, s: seq<nat>): (r: seq<nat>)
    ensures |r| == |s| + 1
  {
    if s == [] || x <= s[0] then [x] + s else [s[0]] + Insert(x, s[1..])
  }

  /** What `sort_unstable` makes of a vector of gaps. */
  function Sort(s: seq<nat>): (r: seq<nat>)
    ensures |r| == |s|
  {
    if s == [] then [] else Insert(s[0], Sort(s[1..]))
  }

  /** The upper median of the gaps held. */
  function Median(gaps: seq<nat>): nat
    requires gaps != []
  {
    Sort(gaps)[|gaps| / 2]
  }

  function SilenceLimitOf(s: State): Option<nat> {
    if s.gaps == [] then None
    else Some(Max(SILENCE_FLOOR, Median(s.gaps) * SILENCE_PINGS))
  }

  /** The silence and the limit it is past, if it is past one. */
  function DeadAt(s: State, now: int): Option<(nat, nat)> {
    var limit := SilenceLimitOf(s);
    var silent := Since(now, s.lastFrame);
    if limit.Some? && silent > limit.value then Some((silent, limit.value)) else None
  }

  class InboundCadence {
    const started: int
    var lastFrame: int
    var lastPing: Option<int>
    var gaps: seq<nat>

    function View(): State
      reads this
    {
      State(started, lastFrame, lastPing, gaps)
    }

    constructor (now: int)
      ensures View() == Fresh(now)
    {
      started := now;
      lastFrame := now;
      lastPing := None;
      gaps := [];
    }

    method OnFrame(now: int)
      modifies this`lastFrame
      ensures View() == AfterFrame(old(View()), now)
    {
      lastFrame := now;
    }

    method OnPing(now: int)
      modifies this
      ensures View() == AfterPing(old(View()), now)
    {
      OnFrame(now);
      var since := if lastPing.Some? then lastPing.value else started;
      var gap := Gap(now, since);
      if |gaps| == PING_GAPS_KEPT {
        gaps := gaps[1..];
      }
      gaps := gaps + [gap];
      lastPing := Some(now);
    }

    method SilenceLimit() returns (limit: Option<nat>)
      ensures limit == SilenceLimitOf(View())
    {
      var sorted := Sort(gaps);
      if |sorted| / 2 >= |sorted| {
        return None;
      }
      var median := sorted[|sorted| / 2];
      limit := Some(Max(SILENCE_FLOOR, median * SILENCE_PINGS));
    }

    method DeadFor(now: int) returns (dead: Option<(nat, nat)>)
      ensures dead == DeadAt(View(), now)
    {
      var limit := SilenceLimit();
      if limit.None? {
        return None;
      }
      var silent := Since(now, lastFrame);
      dead := if silent > limit.value then Some((silent, limit.value)) else None;
    }
  }

  // ── The median by counting ─────────────────────────────────────────

  function CountAbove(s: seq<nat>, bound: nat): (n: nat)
    ensures n <= |s|
  {
    if s == [] then 0 else (if s[0] > bound then 1 else 0) + CountAbove(s[1..], bound)
  }

  lemma {:induction false} InsertKeeps(x: nat, s: seq<nat>)
    ensures multiset(Insert(x, s)) == multiset(s) + multiset{x}
  {
    if s != [] && x > s[0] {
      InsertKeeps(x, s[1..]);
      assert s == [s[0]] + s[1..];
    } else {
      assert Insert(x, s) == [x] + s;
    }
  }

  lemma {:induction false} InsertBounded(x: nat, s: seq<nat>, low: nat)
    requires low <= x && forall i | 0 <= i < |s| :: low <= s[i]
    ensures forall i | 0 <= i < |Insert(x, s)| :: low <= Insert(x, s)[i]
  {
    if s != [] && x > s[0] {
      InsertBounded(x, s[1..], low);
    }
  }

  lemma {:induction false} InsertSorts(x: nat, s: seq<nat>)
    requires Sorted(s)
    ensures Sorted(Insert(x, s))
  {
    if s != [] && x > s[0] {
      InsertSorts(x, s[1..]);
      InsertBounded(x, s[1..], s[0]);
    }
  }

  /** `Sort` sorts, and keeps exactly what it was given. */
  lemma {:induction false} SortSorts(s: seq<nat>)
    ensures Sorted(Sort(s))
    ensures multiset(Sort(s)) == multiset(s)
  {
    if s != [] {
      SortSorts(s[1..]);
      InsertSorts(s[0], Sort(s[1..]));
      InsertKeeps(s[0], Sort(s[1..]));
      assert s == [s[0]] + s[1..];
    }
  }

  lemma {:induction false} InsertCounts(x: nat, s: seq<nat>, bound: nat)
    ensures CountAbove(Insert(x, s), bound) == CountAbove(s, bound) + if x > bound then 1 else 0
  {
    if s != [] && x > s[0] {
      InsertCounts(x, s[1..], bound);
      assert Insert(x, s)[1..] == Insert(x, s[1..]);
    } else {
      assert Insert(x, s)[1..] == s;
    }
  }

  lemma {:induction false} SortCounts(s: seq<nat>, bound: nat)
    ensures CountAbove(Sort(s), bound) == CountAbove(s, bound)
  {
    if s != [] {
      SortCounts(s[1..], bound);
      InsertCounts(s[0], Sort(s[1..]), bound);
    }
  }

  lemma {:induction false} CountInSorted(s: seq<nat>, bound: nat, k: nat)
    requires Sorted(s) && k < |s|
    ensures s[k] > bound <==> CountAbove(s, bound) >= |s| - k
  {
    if s[0] > bound {
      AllAbove(s, bound);
    } else if k > 0 {
      CountInSorted(s[1..], bound, k - 1);
    }
  }

  lemma {:induction false} AllAbove(s: seq<nat>, bound: nat)
    requires forall i | 0 <= i < |s| :: s[i] > bound
    ensures CountAbove(s, bound) == |s|
  {
    if s != [] {
      AllAbove(s[1..], bound);
    }
  }

  /** The upper median is past a bound exactly when at least `k - k/2` of the `k` gaps are: so one
      stall, or any minority of them, cannot move it past. */
  lemma MedianByCounting(gaps: seq<nat>, bound: nat)
    requires gaps != []
    ensures Median(gaps) > bound <==> CountAbove(gaps, bound) >= |gaps| - |gaps| / 2
  {
    SortSorts(gaps);
    SortCounts(gaps, bound);
    CountInSorted(Sort(gaps), bound, |gaps| / 2);
  }

  function CountBelow(s: seq<nat>, bound: nat): (n: nat) {
    if bound == 0 then 0 else |s| - CountAbove(s, bound - 1)
  }

  lemma {:induction false} CountBelowCounts(s: seq<nat>, bound: nat)
    ensures CountBelow(s, bound) ==
            if s == [] then 0 else (if s[0] < bound then 1 else 0) + CountBelow(s[1..], bound)
  {
  }

  /** Robustness of the limit, from above and from below, and its range. */
  lemma LimitIsRobust(s: State, a: nat, b: nat)
    requires s.gaps != []
    ensures CountAbove(s.gaps, b) <= |s.gaps| - 1 - |s.gaps| / 2 ==>
              SilenceLimitOf(s).value <= Max(SILENCE_FLOOR, SILENCE_PINGS * b)
    ensures CountBelow(s.gaps, a) <= |s.gaps| / 2 ==>
              SilenceLimitOf(s).value >= Max(SILENCE_FLOOR, SILENCE_PINGS * a)
    ensures (forall i | 0 <= i < |s.gaps| :: s.gaps[i] <= MAX_PING_GAP) ==>
              SILENCE_FLOOR <= SilenceLimitOf(s).value <= SILENCE_PINGS * MAX_PING_GAP
  {
    MedianByCounting(s.gaps, b);
    if a > 0 {
      MedianByCounting(s.gaps, a - 1);
    }
    MedianIsAGap(s.gaps);
  }

  lemma MedianIsAGap(gaps: seq<nat>)
    requires gaps != []
    ensures Median(gaps) in gaps
  {
    SortSorts(gaps);
    assert Median(gaps) in multiset(Sort(gaps));
  }

  // ── The window, over the whole history ─────────────────────────────

  /** Something the reader stamps: any frame, or a ping. */
  datatype Stamp = Frame(at: int) | Ping(at: int)

  function AfterStamp(s: State, stamp: Stamp): State {
    match stamp
    case Frame(at) => AfterFrame(s, at)
    case Ping(at) => AfterPing(s, at)
  }

  function AfterStamps(started: int, stamps: seq<Stamp>): State {
    if stamps == [] then Fresh(started)
    else AfterStamp(AfterStamps(started, stamps[..|stamps| - 1]), stamps[|stamps| - 1])
  }

  /** When the last ping of a history came, or when the session started. */
  function LastPingOr(started: int, stamps: seq<Stamp>): int {
    if stamps == [] then started
    else if stamps[|stamps| - 1].Ping? then stamps[|stamps| - 1].at
    else LastPingOr(started, stamps[..|stamps| - 1])
  }

  /** Every capped gap of a history, the first measured from the start of the session. */
  function AllGaps(started: int, stamps: seq<Stamp>): (r: seq<nat>)
    ensures forall i | 0 <= i < |r| :: r[i] <= MAX_PING_GAP
  {
    if stamps == [] then []
    else
      var before := stamps[..|stamps| - 1];
      var stamp := stamps[|stamps| - 1];
      AllGaps(started, before) +
      if stamp.Ping? then [Gap(stamp.at, LastPingOr(started, before))] else []
  }

  function LastOf(s: seq<nat>, n: nat): seq<nat> {
    if |s| <= n then s else s[|s| - n..]
  }

  /** The deque is a window on the history: it holds exactly its last eight capped gaps. */
  lemma {:induction false} WindowOnHistory(started: int, stamps: seq<Stamp>)
    ensures
      var s := AfterStamps(started, stamps);
      && s.gaps == LastOf(AllGaps(started, stamps), PING_GAPS_KEPT)
      && s.started == started
      && s.lastFrame == (if stamps == [] then started else stamps[|stamps| - 1].at)
      && (s.lastPing.Some? <==> AllGaps(started, stamps) != [])
      && LastPingOr(started, stamps) == (if s.lastPing.Some? then s.lastPing.value else started)
  {
    if stamps != [] {
      WindowOnHistory(started, stamps[..|stamps| - 1]);
    }
  }
}
