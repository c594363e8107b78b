/** The install root as the upgrader sees it, the garbage collection of old versions as a function,
    and what it keeps. */
module Versions {
  import opened Limits

  /** How far a version directory's contents have got. Only `Ready` has the whole tarball and the
      binary in its place. */
  datatype Content = Incomplete | Extracted | Ready

  datatype Dir = Dir(content: Content, mtime: int)

  /** Where a symlink points: at a directory under `versions`, by an absolute path or a relative
      one, or somewhere else altogether. */
  datatype Target = Version(absolute: bool, name: string) | Elsewhere

  type Dirs = map<string, Dir>

  const PARTIAL: string := ".partial"

  function PartialName(v: string): string {
    v + PARTIAL
  }

  predicate IsPartial(name: string) {
    |name| >= |PARTIAL| && name[|name| - |PARTIAL|..] == PARTIAL
  }

  /** `current` points at a complete version, if it points at a version at all. */
  predicate Safe(dirs: Dirs, current: Option<Target>) {
    current.Some? && current.value.Version? ==>
      current.value.name in dirs && dirs[current.value.name].content.Ready?
  }

  // ── gc_versions ────────────────────────────────────────────────────

  /** A directory listing: each name once, in any order. */
  ghost predicate Lists(listing: seq<string>, names: set<string>) {
    && (forall n :: n in listing <==> n in names)
    && (forall i, j | 0 <= i < j < |listing| :: listing[i] != listing[j])
  }

  /** What garbage collection considers: neither the pinned version nor a partial directory. */
  function Candidates(listing: seq<string>, pinned: string): (r: seq<string>)
    ensures forall n :: n in r <==> n in listing && n != pinned && !IsPartial(n)
    ensures |r| <= |listing|
  {
    if listing == [] then []
    else
      (if listing[0] == pinned || IsPartial(listing[0]) then [] else [listing[0]])
      + Candidates(listing[1..], pinned)
  }

  function InsertNewestFirst(n: string, sorted: seq<string>, dirs: Dirs): (r: seq<string>)
    requires n in dirs && forall x | x in sorted :: x in dirs
    ensures |r| == |sorted| + 1
    ensures forall x :: x in r <==> x == n || x in sorted
  {
    if sorted == [] || dirs[sorted[0]].mtime <= dirs[n].mtime then [n] + sorted
    else
      var rest := InsertNewestFirst(n, sorted[1..], dirs);
      assert forall x :: x in sorted <==> x == sorted[0] || x in sorted[1..];
      [sorted[0]] + rest
  }

  /** What the stable sort by reversed mtime makes of a listing. */
  function NewestFirst(s: seq<string>, dirs: Dirs): (r: seq<string>)
    requires forall x | x in s :: x in dirs
    ensures |r| == |s|
    ensures forall x :: x in r <==> x in s
  {
    if s == [] then []
    else
      assert forall x :: x in s <==> x == s[0] || x in s[1..];
      InsertNewestFirst(s[0], NewestFirst(s[1..], dirs), dirs)
  }

  /** The candidates garbage collection leaves, and those it removes. */
  function Kept(listing: seq<string>, dirs: Dirs, pinned: string, keep: nat): (r: seq<string>)
    requires forall x | x in listing :: x in dirs
  {
    var sorted := NewestFirst(Candidates(listing, pinned), dirs);
    sorted[..Min(keep, |sorted|)]
  }

  function Removed(listing: seq<string>, dirs: Dirs, pinned: string, keep: nat): (r: seq<string>)
    requires forall x | x in listing :: x in dirs
  {
    var sorted := NewestFirst(Candidates(listing, pinned), dirs);
    sorted[Min(keep, |sorted|)..]
  }

  function Collected(listing: seq<string>, dirs: Dirs, pinned: string, keep: nat): (r: Dirs)
    requires forall x | x in listing :: x in dirs
  {
    var removed := Removed(listing, dirs, pinned, keep);
    map n | n in dirs && (n == pinned || !IsPartial(n)) && n !in removed :: dirs[n]
  }

  // ── The order among equals ─────────────────────────────────────────

  function WithMtime(s: seq<string>, dirs: Dirs, t: int): seq<string>
    requires forall x | x in s :: x in dirs
  {
    if s == [] then []
    else
      assert forall x | x in s[1..] :: x in s;
      (if dirs[s[0]].mtime == t then [s[0]] else []) + WithMtime(s[1..], dirs, t)
  }

  lemma {:induction false} InsertIsStable(n: string, s: seq<string>, dirs: Dirs, t: int)
    requires n in dirs && forall x | x in s :: x in dirs
    requires forall i, j | 0 <= i < j < |s| :: dirs[s[i]].mtime >= dirs[s[j]].mtime
    ensures WithMtime(InsertNewestFirst(n, s, dirs), dirs, t) ==
            (if dirs[n].mtime == t then [n] else []) + WithMtime(s, dirs, t)
  {
    if s != [] && dirs[s[0]].mtime > dirs[n].mtime {
      assert forall x | x in s[1..] :: x in s;
      InsertIsStable(n, s[1..], dirs, t);
      assert InsertNewestFirst(n, s, dirs)[1..] == InsertNewestFirst(n, s[1..], dirs);
      if dirs[n].mtime == t {
        assert dirs[s[0]].mtime != t;
      }
    } else {
      assert InsertNewestFirst(n, s, dirs)[1..] == s;
    }
  }

  /** The sort is stable: versions as new as each other keep the order they were listed in. */
  lemma {:induction false} NewestFirstIsStable(s: seq<string>, dirs: Dirs, t: int)
    requires forall x | x in s :: x in dirs
    ensures WithMtime(NewestFirst(s, dirs), dirs, t) == WithMtime(s, dirs, t)
  {
    if s != [] {
      assert forall x | x in s[1..] :: x in s;
      NewestFirstIsStable(s[1..], dirs, t);
      NewestFirstSorts(s[1..], dirs);
      InsertIsStable(s[0], NewestFirst(s[1..], dirs), dirs, t);
    }
  }

  // ── What it keeps ──────────────────────────────────────────────────

  ghost predicate SortedNewestFirst(s: seq<string>, dirs: Dirs)
    requires forall x | x in s :: x in dirs
  {
    forall i, j | 0 <= i < j < |s| :: dirs[s[i]].mtime >= dirs[s[j]].mtime
  }

  ghost predicate Distinct(s: seq<string>) {
    forall i, j | 0 <= i < j < |s| :: s[i] != s[j]
  }

  lemma {:induction false} InsertSorts(n: string, s: seq<string>, dirs: Dirs)
    requires n in dirs && (forall x | x in s :: x in dirs) && SortedNewestFirst(s, dirs)
    ensures SortedNewestFirst(InsertNewestFirst(n, s, dirs), dirs)
  {
    if s != [] && dirs[s[0]].mtime > dirs[n].mtime {
      var tail := s[1..];
      assert forall i | 0 <= i < |tail| :: tail[i] == s[i + 1] && tail[i] in s;
      InsertSorts(n, tail, dirs);
      var rest := InsertNewestFirst(n, tail, dirs);
      forall i | 0 <= i < |rest| ensures dirs[rest[i]].mtime <= dirs[s[0]].mtime {
        assert rest[i] in rest;
        assert rest[i] == n || rest[i] in tail;
      }
    }
  }

  lemma DistinctCons(n: string, rest: seq<string>)
    requires Distinct(rest) && n !in rest
    ensures Distinct([n] + rest)
  {
    var s := [n] + rest;
    forall i, j | 0 <= i < j < |s| ensures s[i] != s[j] {
      assert s[j] == rest[j - 1] && s[j] in rest;
      assert i > 0 ==> s[i] == rest[i - 1];
    }
  }

  lemma DistinctTail(s: seq<string>)
    requires Distinct(s) && s != []
    ensures Distinct(s[1..]) && s[0] !in s[1..]
  {
  }

  lemma {:induction false} InsertDistinct(n: string, s: seq<string>, dirs: Dirs)
    requires n in dirs && (forall x | x in s :: x in dirs) && Distinct(s) && n !in s
    ensures Distinct(InsertNewestFirst(n, s, dirs))
  {
    if s != [] && dirs[s[0]].mtime > dirs[n].mtime {
      DistinctTail(s);
      InsertDistinct(n, s[1..], dirs);
      DistinctCons(s[0], InsertNewestFirst(n, s[1..], dirs));
    } else {
      DistinctCons(n, s);
    }
  }

  lemma {:induction false} NewestFirstSorts(s: seq<string>, dirs: Dirs)
    requires forall x | x in s :: x in dirs
    ensures SortedNewestFirst(NewestFirst(s, dirs), dirs)
  {
    if s != [] {
      assert forall x | x in s[1..] :: x in s;
      NewestFirstSorts(s[1..], dirs);
      InsertSorts(s[0], NewestFirst(s[1..], dirs), dirs);
    }
  }

  lemma {:induction false} NewestFirstDistinct(s: seq<string>, dirs: Dirs)
    requires (forall x | x in s :: x in dirs) && Distinct(s)
    ensures Distinct(NewestFirst(s, dirs))
  {
    if s != [] {
      DistinctTail(s);
      assert forall x | x in s[1..] :: x in s;
      NewestFirstDistinct(s[1..], dirs);
      InsertDistinct(s[0], NewestFirst(s[1..], dirs), dirs);
    }
  }

  lemma {:induction false} CandidatesDistinct(listing: seq<string>, pinned: string)
    requires Distinct(listing)
    ensures Distinct(Candidates(listing, pinned))
  {
    if listing != [] {
      DistinctTail(listing);
      CandidatesDistinct(listing[1..], pinned);
      DistinctCons(listing[0], Candidates(listing[1..], pinned));
      assert [] + Candidates(listing[1..], pinned) == Candidates(listing[1..], pinned);
    }
  }

  /** How many of some names are at least, or strictly, as new as a time. */
  function AtLeastAsNew(s: seq<string>, dirs: Dirs, t: int): (n: nat)
    requires forall x | x in s :: x in dirs
  {
    if s == [] then 0
    else
      assert forall x | x in s[1..] :: x in s;
      (if dirs[s[0]].mtime >= t then 1 else 0) + AtLeastAsNew(s[1..], dirs, t)
  }

  lemma {:induction false} InsertCounts(n: string, s: seq<string>, dirs: Dirs, t: int)
    requires n in dirs && forall x | x in s :: x in dirs
    ensures AtLeastAsNew(InsertNewestFirst(n, s, dirs), dirs, t) ==
            AtLeastAsNew(s, dirs, t) + if dirs[n].mtime >= t then 1 else 0
  {
    if s != [] && dirs[s[0]].mtime > dirs[n].mtime {
      assert forall x | x in s[1..] :: x in s;
      InsertCounts(n, s[1..], dirs, t);
      assert InsertNewestFirst(n, s, dirs)[1..] == InsertNewestFirst(n, s[1..], dirs);
    } else {
      assert InsertNewestFirst(n, s, dirs)[1..] == s;
    }
  }

  lemma {:induction false} NewestFirstCounts(s: seq<string>, dirs: Dirs, t: int)
    requires forall x | x in s :: x in dirs
    ensures AtLeastAsNew(NewestFirst(s, dirs), dirs, t) == AtLeastAsNew(s, dirs, t)
  {
    if s != [] {
      assert forall x | x in s[1..] :: x in s;
      NewestFirstCounts(s[1..], dirs, t);
      InsertCounts(s[0], NewestFirst(s[1..], dirs), dirs, t);
    }
  }

  lemma {:induction false} CountInSorted(s: seq<string>, dirs: Dirs, t: int, k: nat)
    requires (forall x | x in s :: x in dirs) && SortedNewestFirst(s, dirs) && k < |s|
    ensures dirs[s[k]].mtime >= t <==> k < AtLeastAsNew(s, dirs, t)
  {
    var tail := s[1..];
    assert forall i | 0 <= i < |tail| :: tail[i] == s[i + 1] && tail[i] in s;
    if dirs[s[0]].mtime < t {
      NoneAsNew(tail, dirs, t);
    } else if k > 0 {
      CountInSorted(tail, dirs, t, k - 1);
    }
  }

  lemma {:induction false} NoneAsNew(s: seq<string>, dirs: Dirs, t: int)
    requires (forall x | x in s :: x in dirs) && forall i | 0 <= i < |s| :: dirs[s[i]].mtime < t
    ensures AtLeastAsNew(s, dirs, t) == 0
  {
    if s != [] {
      assert forall x | x in s[1..] :: x in s;
      NoneAsNew(s[1..], dirs, t);
    }
  }

  /** The order splits into what is kept and what is removed. */
  lemma KeptOrRemoved(listing: seq<string>, dirs: Dirs, pinned: string, keep: nat)
    requires Lists(listing, dirs.Keys)
    ensures
      var kept, removed := Kept(listing, dirs, pinned, keep), Removed(listing, dirs, pinned, keep);
      && Distinct(kept) && |kept| == Min(keep, |Candidates(listing, pinned)|)
      && (forall n :: n in kept || n in removed <==> n in Candidates(listing, pinned))
      && (forall n :: n in kept ==> n !in removed)
  {
    var candidates := Candidates(listing, pinned);
    var sorted := NewestFirst(candidates, dirs);
    CandidatesDistinct(listing, pinned);
    NewestFirstDistinct(candidates, dirs);
    SplitAt(sorted, Min(keep, |sorted|));
  }

  lemma SplitAt(sorted: seq<string>, k: nat)
    requires Distinct(sorted) && k <= |sorted|
    ensures Distinct(sorted[..k])
    ensures forall n :: n in sorted[..k] || n in sorted[k..] <==> n in sorted
    ensures forall n :: n in sorted[..k] ==> n !in sorted[k..]
  {
    assert sorted == sorted[..k] + sorted[k..];
    forall n ensures n in sorted[..k] ==> n !in sorted[k..] {
      SplitMembers(sorted[..k], sorted[k..], n);
    }
  }

  lemma KeptIsNewer(listing: seq<string>, dirs: Dirs, pinned: string, keep: nat, a: string, b: string)
    requires Lists(listing, dirs.Keys)
    requires a in Kept(listing, dirs, pinned, keep) && b in Removed(listing, dirs, pinned, keep)
    ensures a in dirs && b in dirs && dirs[a].mtime >= dirs[b].mtime
  {
    var candidates := Candidates(listing, pinned);
    var sorted := NewestFirst(candidates, dirs);
    var kept, removed := Kept(listing, dirs, pinned, keep), Removed(listing, dirs, pinned, keep);
    NewestFirstSorts(candidates, dirs);
    var i :| 0 <= i < |kept| && kept[i] == a;
    var j :| 0 <= j < |removed| && removed[j] == b;
    assert sorted[i] == a && sorted[|kept| + j] == b;
    assert a in sorted && b in sorted;
  }

  /** Garbage collection keeps the pinned version and the `keep` most recent of the others (all of
      them if there are fewer), and nothing newer than one it keeps is removed. */
  lemma CollectionKeepsNewest(listing: seq<string>, dirs: Dirs, pinned: string, keep: nat)
    requires Lists(listing, dirs.Keys)
    ensures
      var kept := Kept(listing, dirs, pinned, keep);
      var collected := Collected(listing, dirs, pinned, keep);
      && Distinct(kept) && |kept| == Min(keep, |Candidates(listing, pinned)|)
      && (forall n :: n in collected <==> (n == pinned && n in dirs) || n in kept)
      && (forall n | n in collected :: n in dirs && collected[n] == dirs[n])
      && (forall n | n in collected && n != pinned :: !IsPartial(n))
      && (forall a, b | a in kept && b in dirs && b !in collected && !IsPartial(b) ::
            a in dirs && dirs[a].mtime >= dirs[b].mtime)
  {
    KeptOrRemoved(listing, dirs, pinned, keep);
    forall a, b | a in Kept(listing, dirs, pinned, keep) && b in Removed(listing, dirs, pinned, keep)
      ensures a in dirs && b in dirs && dirs[a].mtime >= dirs[b].mtime
    {
      KeptIsNewer(listing, dirs, pinned, keep, a, b);
    }
  }

  lemma SplitMembers(kept: seq<string>, removed: seq<string>, n: string)
    ensures n in kept + removed <==> n in kept || n in removed
    ensures Distinct(kept + removed) && n in kept ==> n !in removed
  {
    if n in kept && n in removed {
      var i :| 0 <= i < |kept| && kept[i] == n;
      var j :| 0 <= j < |removed| && removed[j] == n;
      assert (kept + removed)[i] == (kept + removed)[|kept| + j];
    }
  }

  lemma RankAmong(candidates: seq<string>, dirs: Dirs, t: int, k: nat)
    requires (forall x | x in candidates :: x in dirs) && k < |candidates|
    ensures NewestFirst(candidates, dirs)[k] in dirs
    ensures dirs[NewestFirst(candidates, dirs)[k]].mtime >= t <==> k < AtLeastAsNew(candidates, dirs, t)
  {
    NewestFirstSorts(candidates, dirs);
    NewestFirstCounts(candidates, dirs, t);
    CountInSorted(NewestFirst(candidates, dirs), dirs, t, k);
  }

  /** Where a candidate comes in the order, by counting. */
  lemma RankOf(candidates: seq<string>, dirs: Dirs, n: string, k: nat)
    requires forall x | x in candidates :: x in dirs
    requires k < |candidates| && NewestFirst(candidates, dirs)[k] == n
    ensures n in dirs
    ensures AtLeastAsNew(candidates, dirs, dirs[n].mtime + 1) <= k < AtLeastAsNew(candidates, dirs, dirs[n].mtime)
  {
    assert n in NewestFirst(candidates, dirs);
    RankAmong(candidates, dirs, dirs[n].mtime, k);
    RankAmong(candidates, dirs, dirs[n].mtime + 1, k);
  }

  /** So a version survives if, itself included, at most `keep` candidates are at least as new, and
      only if fewer than `keep` are newer. */
  lemma SurvivesIfRecent(listing: seq<string>, dirs: Dirs, pinned: string, keep: nat, n: string)
    requires Lists(listing, dirs.Keys) && n in Candidates(listing, pinned)
    ensures n in dirs
    ensures AtLeastAsNew(Candidates(listing, pinned), dirs, dirs[n].mtime) <= keep ==>
              n in Collected(listing, dirs, pinned, keep)
    ensures n in Collected(listing, dirs, pinned, keep) ==>
              AtLeastAsNew(Candidates(listing, pinned), dirs, dirs[n].mtime + 1) < keep
  {
    var candidates := Candidates(listing, pinned);
    var sorted, kept := NewestFirst(candidates, dirs), Kept(listing, dirs, pinned, keep);
    CollectionKeepsNewest(listing, dirs, pinned, keep);
    var k :| 0 <= k < |sorted| && sorted[k] == n;
    RankOf(candidates, dirs, n, k);
    assert k < |kept| ==> kept[k] == n;
    if n in kept {
      var i :| 0 <= i < |kept| && kept[i] == n;
      RankOf(candidates, dirs, n, i);
    }
  }
}
