/** What the upgrade lifecycle promises over runs of its operations: a failed upgrade undoes itself,
    sequences do not go back, and only a version seen healthy is finalised. */
module Lifecycle {
  import opened Limits
  import opened Versions
  import opened Upgrade
  import Install

  // ── Boots, whatever fails ──────────────────────────────────────────

  /** The root after boots whose calls come out as `fates` says, and what the last of them came to. */
  function Boots(root: Root, cfg: Config, fates: seq<BootFate>): Root {
    if fates == [] then root else Boot(Boots(root, cfg, fates[..|fates| - 1]), cfg, fates[|fates| - 1]).0
  }

  function OutcomeOf(root: Root, cfg: Config, fates: seq<BootFate>): BootOutcome
    requires fates != []
  {
    Boot(Boots(root, cfg, fates[..|fates| - 1]), cfg, fates[|fates| - 1]).1
  }

  /** `n` boots in which every call works. */
  function Works(n: nat): (fates: seq<BootFate>)
    ensures |fates| == n && CountedAndSaved(fates)
    ensures forall k | 0 <= k < n :: fates[k] == WORKS
  {
    seq(n, _ => WORKS)
  }

  /** Every boot is counted and every save made; moving the link may fail. */
  predicate CountedAndSaved(fates: seq<BootFate>) {
    forall k | 0 <= k < |fates| :: fates[k].bump.Bumped? && fates[k].saved.Written?
  }

  predicate NoneTorn(fates: seq<BootFate>) {
    forall k | 0 <= k < |fates| :: !fates[k].bump.Torn?
  }

  predicate IsPending(root: Root) {
    root.file.Readable? && root.file.state.status.PendingHealth?
  }

  /** The count of boots after some, from `n`. */
  function Counted(n: nat, fates: seq<BootFate>): nat {
    if fates == [] then n
    else
      var c, bump := Counted(n, fates[..|fates| - 1]), fates[|fates| - 1].bump;
      if bump.Bumped? || bump.NotSynced? then Min(c + 1, U32_MAX) else c
  }

  /** The last of some boots finds itself past the limit. */
  predicate PastLimit(n: nat, cfg: Config, fates: seq<BootFate>) {
    fates != [] && fates[|fates| - 1].bump.Bumped? && Counted(n, fates) > cfg.maxBootAttempts
  }

  /** Some boot past the limit has moved the link. */
  predicate Moved(n: nat, cfg: Config, fates: seq<BootFate>) {
    fates != [] &&
    (Moved(n, cfg, fates[..|fates| - 1]) || (PastLimit(n, cfg, fates) && fates[|fates| - 1].pointed))
  }

  /** The boot that decides: the first past the limit whose save is made. */
  function Decision(n: nat, cfg: Config, fates: seq<BootFate>): (d: Option<nat>)
    ensures d.Some? ==> d.value < |fates|
  {
    if fates == [] then None
    else
      var before := Decision(n, cfg, fates[..|fates| - 1]);
      if before.Some? then before
      else if PastLimit(n, cfg, fates) && fates[|fates| - 1].saved.Written? then Some(|fates| - 1)
      else None
  }

  /** The disk of a pending version once its rollback has moved the link, or not. */
  function DiskAfter(root: Root, moved: bool): Install.Snapshot
    requires root.file.Readable?
  {
    if moved && CanRevert(root, root.file.state)
    then root.disk.(current := Some(Version(true, root.file.state.previousVersion.value)))
    else root.disk
  }

  /** Until a boot decides, the record stays as it was but for the count: a rollback whose save fails
      is tried again by the next boot. The link may have moved already. */
  lemma {:induction false} StillPending(root: Root, cfg: Config, fates: seq<BootFate>)
    requires cfg.enabled && IsPending(root) && NoneTorn(fates)
    requires Decision(root.file.state.bootAttempts, cfg, fates).None?
    ensures
      var s := root.file.state;
      Boots(root, cfg, fates) == Root(
        DiskAfter(root, Moved(s.bootAttempts, cfg, fates)),
        Readable(s.(bootAttempts := Counted(s.bootAttempts, fates))))
  {
    if fates != [] {
      StillPending(root, cfg, fates[..|fates| - 1]);
    }
  }

  /** What the deciding boot records: the version before, if its directory is there and the link
      moved, else still the failed one. */
  function Recorded(root: Root, pointed: bool): State
    requires root.file.Readable?
  {
    var s := root.file.state;
    if pointed && CanRevert(root, s)
    then s.(currentVersion := s.previousVersion.value, previousVersion := Some(s.currentVersion))
    else s
  }

  predicate SameVersions(s: State, t: State) {
    s.currentVersion == t.currentVersion && s.previousVersion == t.previousVersion && s.lastSequence == t.lastSequence
  }

  predicate SavedFrom(fates: seq<BootFate>, from: nat) {
    exists k | from <= k < |fates| :: fates[k].saved.Written?
  }

  lemma DecidingBoot(root: Root, cfg: Config, fates: seq<BootFate>)
    requires cfg.enabled && IsPending(root) && NoneTorn(fates) && fates != []
    requires Decision(root.file.state.bootAttempts, cfg, fates) == Some(|fates| - 1)
    ensures
      var r := Boots(root, cfg, fates);
      && r.file.Readable? && r.file.state.status.RolledBack?
      && SameVersions(r.file.state, Recorded(root, fates[|fates| - 1].pointed))
      && r.disk == DiskAfter(root, Moved(root.file.state.bootAttempts, cfg, fates))
      && OutcomeOf(root, cfg, fates) == ExitForRespawn
  {
    StillPending(root, cfg, fates[..|fates| - 1]);
  }

  /** Once a boot has decided nothing moves any more: the first save after it settles the record to
      stable, on whatever version the decision left. */
  lemma {:induction false} Decided(root: Root, cfg: Config, fates: seq<BootFate>)
    requires cfg.enabled && IsPending(root) && Decision(root.file.state.bootAttempts, cfg, fates).Some?
    requires NoneTorn(fates[..Decision(root.file.state.bootAttempts, cfg, fates).value + 1])
    ensures
      var n := root.file.state.bootAttempts;
      var d := Decision(n, cfg, fates).value;
      var r := Boots(root, cfg, fates);
      && r.file.Readable?
      && r.file.state.status == (if SavedFrom(fates, d + 1) then Stable else RolledBack)
      && SameVersions(r.file.state, Recorded(root, fates[d].pointed))
      && r.disk == DiskAfter(root, Moved(n, cfg, fates[..d + 1]))
  {
    var n := root.file.state.bootAttempts;
    var before, d := fates[..|fates| - 1], Decision(n, cfg, fates).value;
    if Decision(n, cfg, before).Some? {
      assert before[..d + 1] == fates[..d + 1];
      Decided(root, cfg, before);
      LaterSave(before, fates, d + 1);
    } else {
      assert fates[..d + 1] == fates;
      DecidingBoot(root, cfg, fates);
    }
  }

  lemma LaterSave(before: seq<BootFate>, fates: seq<BootFate>, from: nat)
    requires fates != [] && before == fates[..|fates| - 1] && from < |fates|
    ensures SavedFrom(fates, from) <==> SavedFrom(before, from) || fates[|fates| - 1].saved.Written?
  {
    if SavedFrom(before, from) {
      var k :| from <= k < |before| && before[k].saved.Written?;
      assert fates[k].saved.Written?;
    }
    if SavedFrom(fates, from) && !fates[|fates| - 1].saved.Written? {
      var k :| from <= k < |fates| && fates[k].saved.Written?;
      assert before[k].saved.Written?;
    }
  }

  lemma {:induction false} UnreadableStays(root: Root, cfg: Config, fates: seq<BootFate>)
    requires !root.file.Readable?
    ensures Boots(root, cfg, fates) == root
  {
    if fates != [] {
      UnreadableStays(root, cfg, fates[..|fates| - 1]);
    }
  }

  lemma {:induction false} BootsOn(root: Root, cfg: Config, a: seq<BootFate>, b: seq<BootFate>)
    ensures Boots(root, cfg, a + b) == Boots(Boots(root, cfg, a), cfg, b)
  {
    if b == [] {
      assert a + b == a;
    } else {
      assert (a + b)[..|a + b| - 1] == a + b[..|b| - 1];
      BootsOn(root, cfg, a, b[..|b| - 1]);
    }
  }

  /** A count torn before a boot has decided leaves nothing to be read: whatever boots follow, the
      failed version is never rolled back. */
  lemma TornCountIsNeverUndone(root: Root, cfg: Config, before: seq<BootFate>, torn: BootFate, more: seq<BootFate>)
    requires cfg.enabled && IsPending(root) && NoneTorn(before) && torn.bump.Torn?
    requires Decision(root.file.state.bootAttempts, cfg, before).None?
    ensures Boots(root, cfg, before + [torn] + more) ==
            Root(DiskAfter(root, Moved(root.file.state.bootAttempts, cfg, before)), Unreadable)
  {
    StillPending(root, cfg, before);
    assert (before + [torn])[..|before|] == before;
    BootsOn(root, cfg, before + [torn], more);
    UnreadableStays(Boots(root, cfg, before + [torn]), cfg, more);
  }

  // ── Boots that are counted and saved ───────────────────────────────

  /** How many more boots a pending version is let go on. */
  function BootsLeft(s: State, cfg: Config): nat {
    Max(cfg.maxBootAttempts - s.bootAttempts, 0)
  }

  lemma {:induction false} NotYetDecided(n: nat, cfg: Config, fates: seq<BootFate>)
    requires cfg.maxBootAttempts <= U32_MAX && |fates| <= Max(cfg.maxBootAttempts - n, 0)
    requires forall k | 0 <= k < |fates| :: fates[k].bump.Bumped?
    ensures Counted(n, fates) == n + |fates|
    ensures !PastLimit(n, cfg, fates) && !Moved(n, cfg, fates) && Decision(n, cfg, fates).None?
  {
    if fates != [] {
      NotYetDecided(n, cfg, fates[..|fates| - 1]);
    }
  }

  /** With every boot counted and saved, the one past the limit decides. */
  lemma {:induction false} DecidedPastTheLimit(n: nat, cfg: Config, fates: seq<BootFate>)
    requires cfg.maxBootAttempts < U32_MAX && CountedAndSaved(fates)
    requires |fates| > Max(cfg.maxBootAttempts - n, 0)
    ensures
      var left := Max(cfg.maxBootAttempts - n, 0);
      && Decision(n, cfg, fates) == Some(left)
      && Moved(n, cfg, fates[..left + 1]) == fates[left].pointed
  {
    var left, before := Max(cfg.maxBootAttempts - n, 0), fates[..|fates| - 1];
    if |before| > left {
      DecidedPastTheLimit(n, cfg, before);
      assert before[..left + 1] == fates[..left + 1];
    } else {
      assert fates[..left + 1] == fates;
      NotYetDecided(n, cfg, before);
    }
  }

  /** Up to the limit every boot of a pending version is let go on, and only counted. */
  lemma BootsAreCounted(root: Root, cfg: Config, fates: seq<BootFate>)
    requires cfg.enabled && IsPending(root) && |fates| <= BootsLeft(root.file.state, cfg)
    requires cfg.maxBootAttempts <= U32_MAX && forall k | 0 <= k < |fates| :: fates[k].bump.Bumped?
    ensures Boots(root, cfg, fates) ==
            root.(file := Readable(root.file.state.(bootAttempts := root.file.state.bootAttempts + |fates|)))
    ensures fates != [] ==> OutcomeOf(root, cfg, fates) == Pending(root.file.state.bootAttempts + |fates|)
  {
    NotYetDecided(root.file.state.bootAttempts, cfg, fates);
    StillPending(root, cfg, fates);
    if fates != [] {
      var before := fates[..|fates| - 1];
      NotYetDecided(root.file.state.bootAttempts, cfg, before);
      StillPending(root, cfg, before);
    }
  }

  /** The boot past the limit is the one that rolls back: `current` and the recorded version go back
      to the version before, exactly when its directory is still there and the link moves; if not,
      nothing goes back. Either way the boot after that settles to stable, on whatever is then
      recorded. */
  lemma PastTheLimit(root: Root, cfg: Config, fates: seq<BootFate>)
    requires cfg.enabled && IsPending(root) && cfg.maxBootAttempts < U32_MAX
    requires CountedAndSaved(fates) && |fates| == BootsLeft(root.file.state, cfg) + 2
    ensures
      var n := |fates| - 1;
      var back, settled := Boots(root, cfg, fates[..n]), Boots(root, cfg, fates);
      && OutcomeOf(root, cfg, fates[..n]) == ExitForRespawn
      && back.file.Readable? && back.file.state.status.RolledBack?
      && SameVersions(back.file.state, Recorded(root, fates[n - 1].pointed))
      && back.disk == DiskAfter(root, fates[n - 1].pointed)
      && settled == back.(file := Readable(back.file.state.(status := Stable, bootAttempts := 0)))
      && OutcomeOf(root, cfg, fates) ==
         Reported(Unknown(back.file.state.previousVersion), back.file.state.currentVersion)
  {
    var n := |fates| - 1;
    DecidedPastTheLimit(root.file.state.bootAttempts, cfg, fates[..n]);
    assert fates[..n][..n] == fates[..n];
    DecidingBoot(root, cfg, fates[..n]);
  }

  /** The version boots end on: the one before if a pending version's rollback finds it and moves the
      link, else the one recorded. */
  function Fallback(root: Root, pointed: bool): string
    requires root.file.Readable?
  {
    if root.file.state.status.PendingHealth? then Recorded(root, pointed).currentVersion
    else root.file.state.currentVersion
  }

  lemma {:induction false} SettledStays(root: Root, cfg: Config, fates: seq<BootFate>)
    requires root.file.Readable? && (root.file.state.status.Stable? || root.file.state.status.StagedManual?)
    ensures Boots(root, cfg, fates) == root
  {
    if fates != [] {
      SettledStays(root, cfg, fates[..|fates| - 1]);
    }
  }

  /** However things stand, two boots past the limit everything has settled on the fallback, and
      `current` has moved only if it was rolled back. */
  lemma FailedBootsSettle(root: Root, cfg: Config, fates: seq<BootFate>)
    requires cfg.enabled && cfg.maxBootAttempts < U32_MAX && root.file.Readable?
    requires CountedAndSaved(fates) && |fates| >= cfg.maxBootAttempts + 2
    ensures
      var s := root.file.state;
      var pointed := fates[BootsLeft(s, cfg)].pointed;
      var settled := Boots(root, cfg, fates);
      && settled.file.Readable?
      && settled.file.state.currentVersion == Fallback(root, pointed)
      && settled.file.state.status == (if s.status.StagedManual? then StagedManual else Stable)
      && settled.disk == DiskAfter(root, s.status.PendingHealth? && pointed)
      && (s.status.PendingHealth? ==> SameVersions(settled.file.state, Recorded(root, pointed)))
  {
    match root.file.state.status
    case Stable | StagedManual => SettledStays(root, cfg, fates);
    case RolledBack =>
      assert fates == fates[..1] + fates[1..];
      BootsOn(root, cfg, fates[..1], fates[1..]);
      assert fates[..1][..0] == [];
      SettledStays(Boots(root, cfg, fates[..1]), cfg, fates[1..]);
    case PendingHealth =>
      var left := BootsLeft(root.file.state, cfg);
      DecidedPastTheLimit(root.file.state.bootAttempts, cfg, fates);
      Decided(root, cfg, fates);
      assert fates[left + 1].saved.Written?;
  }

  /** With the limit at the largest u32 the counter saturates short of passing it: such a version is
      never rolled back, however many boots fail and whatever else does. */
  lemma NeverPastTheLargestLimit(root: Root, cfg: Config, fates: seq<BootFate>)
    requires cfg.enabled && IsPending(root) && cfg.maxBootAttempts >= U32_MAX && NoneTorn(fates)
    ensures Boots(root, cfg, fates) ==
            root.(file := Readable(root.file.state.(bootAttempts := Counted(root.file.state.bootAttempts, fates))))
  {
    NeverDecided(root.file.state.bootAttempts, cfg, fates);
    StillPending(root, cfg, fates);
  }

  lemma {:induction false} NeverDecided(n: nat, cfg: Config, fates: seq<BootFate>)
    requires cfg.maxBootAttempts >= U32_MAX
    ensures Decision(n, cfg, fates).None? && !Moved(n, cfg, fates)
  {
    if fates != [] {
      NeverDecided(n, cfg, fates[..|fates| - 1]);
    }
  }

  // ── Failed boots undo a stage ──────────────────────────────────────

  /** The root once `stage` has staged a version, every call working. */
  ghost function AfterStage(root: Root, cfg: Config, running: string, r: Request, readDir: set<string> -> seq<string>)
    : (out: (Root, StageResult))
    requires forall names :: Lists(readDir(names), names)
  {
    Stage(root, cfg, running, r, Applied(true, Install.Staged(root.disk, r.version, r.now, readDir)), Written)
  }

  /** The version a stage records as the one before: the one recorded, or with no record that can be
      read the one running. */
  function Before(file: File, running: string): string {
    if file.Readable? then file.state.currentVersion else running
  }

  lemma StagedRoot(root: Root, cfg: Config, running: string, r: Request, readDir: set<string> -> seq<string>)
    requires forall names :: Lists(readDir(names), names)
    requires Gate(root.file, cfg, r).None?
    ensures
      var (staged, result) := AfterStage(root, cfg, running, r, readDir);
      && result.Staged?
      && IsPending(staged) && staged.file.state.bootAttempts == 0
      && staged.disk.current == Some(Version(true, r.version))
      && staged.file.state.currentVersion == r.version
      && staged.file.state.stagedAt == r.now && staged.file.state.lastHealthAt.None?
      && staged.file.state.previousVersion == Some(Before(root.file, running))
      && staged.file.state.lastSequence == r.admitted.value
      && (root.file.Readable? ==> r.admitted.value > root.file.state.lastSequence)
      && (CanRevert(staged, staged.file.state) <==> Before(root.file, running) in staged.disk.dirs)
  {
    StagedIsCurrent(root.disk, r.version, r.now, readDir);
  }

  /** A version just staged, with `before` recorded as the one before it. */
  predicate JustStaged(root: Root, v: string, before: string) {
    && IsPending(root) && root.file.state.bootAttempts == 0
    && root.disk.current == Some(Version(true, v))
    && root.file.state.currentVersion == v
    && root.file.state.previousVersion == Some(before)
  }

  lemma JustStagedUndone(staged: Root, cfg: Config, v: string, before: string, fates: seq<BootFate>)
    requires cfg.enabled && cfg.maxBootAttempts < U32_MAX && JustStaged(staged, v, before)
    requires CountedAndSaved(fates) && |fates| == cfg.maxBootAttempts + 2
    ensures
      var n := cfg.maxBootAttempts + 1;
      var back := Boots(staged, cfg, fates[..n]);
      var undone := before in staged.disk.dirs && fates[n - 1].pointed;
      var left := if undone then before else v;
      && OutcomeOf(staged, cfg, fates[..n]) == ExitForRespawn
      && back.file.Readable?
      && back.disk.current == Some(Version(true, left)) && back.file.state.currentVersion == left
      && back.file.state.previousVersion == Some(if undone then v else before)
      && Boots(staged, cfg, fates) == back.(file := Readable(back.file.state.(status := Stable, bootAttempts := 0)))
  {
    PastTheLimit(staged, cfg, fates);
  }

  lemma JustStagedCounted(staged: Root, cfg: Config, v: string, before: string, fates: seq<BootFate>)
    requires cfg.enabled && cfg.maxBootAttempts < U32_MAX && JustStaged(staged, v, before)
    requires CountedAndSaved(fates) && |fates| >= cfg.maxBootAttempts
    ensures forall n | 0 < n <= cfg.maxBootAttempts :: OutcomeOf(staged, cfg, fates[..n]) == Pending(n)
  {
    forall n | 0 < n <= cfg.maxBootAttempts ensures OutcomeOf(staged, cfg, fates[..n]) == Pending(n) {
      BootsAreCounted(staged, cfg, fates[..n]);
    }
  }

  lemma StageJustStages(root: Root, cfg: Config, running: string, r: Request, readDir: set<string> -> seq<string>)
    requires forall names :: Lists(readDir(names), names)
    requires Gate(root.file, cfg, r).None?
    ensures
      var staged := AfterStage(root, cfg, running, r, readDir).0;
      JustStaged(staged, r.version, Before(root.file, running)) && r.version in staged.disk.dirs
  {
    StagedIsCurrent(root.disk, r.version, r.now, readDir);
  }

  /** Boots up to the limit are only counted; exactly the one past it rolls back, which goes back to
      `before` exactly if that is there and the link moves (or was `v` itself), and otherwise leaves
      everything at `v`; and the next settles to stable. */
  predicate BootsUndo(staged: Root, cfg: Config, v: string, before: string, fates: seq<BootFate>)
    requires |fates| == cfg.maxBootAttempts + 2
  {
    var n := cfg.maxBootAttempts + 1;
    var back := Boots(staged, cfg, fates[..n]);
    && (forall k | 0 < k <= cfg.maxBootAttempts :: OutcomeOf(staged, cfg, fates[..k]) == Pending(k))
    && OutcomeOf(staged, cfg, fates[..n]) == ExitForRespawn
    && back.file.Readable?
    && ((before in staged.disk.dirs && fates[n - 1].pointed) || before == v <==>
          && back.disk.current == Some(Version(true, before))
          && back.file.state.currentVersion == before)
    && (back.disk.current != Some(Version(true, before)) ==>
          back.disk == staged.disk && back.file.state.currentVersion == v)
    && Boots(staged, cfg, fates) == back.(file := Readable(back.file.state.(status := Stable, bootAttempts := 0)))
  }

  lemma JustStagedIsUndone(staged: Root, cfg: Config, v: string, before: string, fates: seq<BootFate>)
    requires cfg.enabled && cfg.maxBootAttempts < U32_MAX && JustStaged(staged, v, before)
    requires CountedAndSaved(fates) && |fates| == cfg.maxBootAttempts + 2
    ensures BootsUndo(staged, cfg, v, before, fates)
  {
    JustStagedCounted(staged, cfg, v, before, fates);
    JustStagedUndone(staged, cfg, v, before, fates);
    NotUndoneIsLeft(staged, cfg, v, before, fates);
  }

  /** Stage, then fail every boot, with every boot counted and every save made: exactly the boot past
      the limit rolls back, and then `current` and the recorded version are what they were before the
      stage exactly when the version before survived the stage's garbage collection and that boot
      could move the link; else both stay at the failed version. The next boot settles to stable.
      With no record that can be read, as before the first upgrade, the version before is the one
      running. */
  lemma StageThenFailedBootsUndo(root: Root, cfg: Config, running: string, r: Request,
                                 readDir: set<string> -> seq<string>, fates: seq<BootFate>)
    requires forall names :: Lists(readDir(names), names)
    requires cfg.enabled && cfg.maxBootAttempts < U32_MAX && Gate(root.file, cfg, r).None?
    requires root.disk.current == Some(Version(true, Before(root.file, running)))
    requires CountedAndSaved(fates) && |fates| == cfg.maxBootAttempts + 2
    ensures BootsUndo(AfterStage(root, cfg, running, r, readDir).0, cfg, r.version, Before(root.file, running), fates)
  {
    StageJustStages(root, cfg, running, r, readDir);
    JustStagedIsUndone(AfterStage(root, cfg, running, r, readDir).0, cfg, r.version, Before(root.file, running), fates);
  }

  lemma NotUndoneIsLeft(staged: Root, cfg: Config, v: string, before: string, fates: seq<BootFate>)
    requires cfg.enabled && cfg.maxBootAttempts < U32_MAX && JustStaged(staged, v, before)
    requires CountedAndSaved(fates) && |fates| == cfg.maxBootAttempts + 2
    ensures
      var back := Boots(staged, cfg, fates[..cfg.maxBootAttempts + 1]);
      back.disk.current != Some(Version(true, before)) ==> back.disk == staged.disk
  {
    PastTheLimit(staged, cfg, fates);
  }

  /** What boots after a stage come to, whatever fails in them short of a torn count: until a boot
      past the limit has saved its rollback the new version is still recorded, pending; and from then
      on `before` is, exactly if it was there and that boot moved the link. */
  predicate BootsComeTo(staged: Root, end: Root, cfg: Config, v: string, before: string, fates: seq<BootFate>) {
    var d := Decision(0, cfg, fates);
    var there := before in staged.disk.dirs;
    && end.file.Readable?
    && (d.None? ==> end.file.state.status.PendingHealth? && end.file.state.currentVersion == v)
    && (d.Some? ==>
          && end.file.state.status == (if SavedFrom(fates, d.value + 1) then Stable else RolledBack)
          && end.file.state.currentVersion == (if there && fates[d.value].pointed then before else v))
    && end.disk.current == Some(Version(true,
         if there && Moved(0, cfg, if d.Some? then fates[..d.value + 1] else fates) then before else v))
  }

  lemma StageThenAnyBoots(root: Root, cfg: Config, running: string, r: Request,
                          readDir: set<string> -> seq<string>, fates: seq<BootFate>)
    requires forall names :: Lists(readDir(names), names)
    requires cfg.enabled && Gate(root.file, cfg, r).None? && NoneTorn(fates)
    ensures
      var staged := AfterStage(root, cfg, running, r, readDir).0;
      BootsComeTo(staged, Boots(staged, cfg, fates), cfg, r.version, Before(root.file, running), fates)
  {
    StageJustStages(root, cfg, running, r, readDir);
    JustStagedThenAny(AfterStage(root, cfg, running, r, readDir).0, cfg, r.version, Before(root.file, running), fates);
  }

  lemma JustStagedThenAny(staged: Root, cfg: Config, v: string, before: string, fates: seq<BootFate>)
    requires cfg.enabled && JustStaged(staged, v, before) && NoneTorn(fates)
    ensures BootsComeTo(staged, Boots(staged, cfg, fates), cfg, v, before, fates)
  {
    if Decision(0, cfg, fates).Some? {
      Decided(staged, cfg, fates);
    } else {
      StillPending(staged, cfg, fates);
    }
  }

  /** A failed stage leaves things as if it had not been made exactly when the version recorded at it
      was not itself pending, or had nothing else to go back to. If it was, failed boots without the
      stage would have gone back one version further: with it they end on a version never seen
      healthy. */
  lemma FailedStageUndoneExactly(root: Root, cfg: Config, running: string, r: Request,
                                 readDir: set<string> -> seq<string>)
    requires forall names :: Lists(readDir(names), names)
    requires cfg.enabled && cfg.maxBootAttempts < U32_MAX && Gate(root.file, cfg, r).None?
    requires root.file.Readable? && root.disk.current == Some(Version(true, root.file.state.currentVersion))
    ensures
      var staged := AfterStage(root, cfg, running, r, readDir).0;
      var after := Boots(staged, cfg, Works(cfg.maxBootAttempts + 2));
      var without := Boots(root, cfg, Works(cfg.maxBootAttempts + 2));
      && after.file.Readable? && after.file.state.status.Stable? && without.file.Readable?
      && after.disk.current == Some(Version(true, after.file.state.currentVersion))
      && without.disk.current == Some(Version(true, without.file.state.currentVersion))
      && (root.file.state.currentVersion in staged.disk.dirs ==>
            (after.file.state.currentVersion == without.file.state.currentVersion <==>
             !(root.file.state.status.PendingHealth? && CanRevert(root, root.file.state))
             || root.file.state.previousVersion == Some(root.file.state.currentVersion)))
      && (root.file.state.currentVersion !in staged.disk.dirs ==> after.file.state.currentVersion == r.version)
  {
    StagedRoot(root, cfg, running, r, readDir);
    FailedBootsSettle(AfterStage(root, cfg, running, r, readDir).0, cfg, Works(cfg.maxBootAttempts + 2));
    FailedBootsSettle(root, cfg, Works(cfg.maxBootAttempts + 2));
  }

  lemma JustStagedSettles(staged: Root, cfg: Config, v: string, before: string)
    requires cfg.enabled && cfg.maxBootAttempts < U32_MAX && JustStaged(staged, v, before)
    ensures
      var end := Boots(staged, cfg, Works(cfg.maxBootAttempts + 2));
      var left := if before in staged.disk.dirs then before else v;
      && end.file.Readable? && end.file.state.status.Stable?
      && end.file.state.currentVersion == left && end.disk.current == Some(Version(true, left))
      && end.file.state.previousVersion == Some(if before in staged.disk.dirs then v else before)
  {
    FailedBootsSettle(staged, cfg, Works(cfg.maxBootAttempts + 2));
  }

  /** Two stages with nothing in between, over whatever was there: failed boots then settle, stable,
      on the first of the two, which never ran healthy, or on the second if the first was collected.
      The version before both is recorded nowhere; and staging one version twice makes it its own
      version before, so that nothing undoes it. */
  lemma StagedTwiceForgets(root: Root, cfg: Config, running: string, r1: Request, r2: Request,
                           readDir: set<string> -> seq<string>)
    requires forall names :: Lists(readDir(names), names)
    requires cfg.enabled && cfg.maxBootAttempts < U32_MAX && Gate(root.file, cfg, r1).None?
    requires Gate(AfterStage(root, cfg, running, r1, readDir).0.file, cfg, r2).None?
    ensures
      var once := AfterStage(root, cfg, running, r1, readDir).0;
      var twice := AfterStage(once, cfg, running, r2, readDir).0;
      var end := Boots(twice, cfg, Works(cfg.maxBootAttempts + 2));
      var left := if r1.version in twice.disk.dirs then r1.version else r2.version;
      && end.file.Readable? && end.file.state.status.Stable?
      && end.file.state.currentVersion == left && end.disk.current == Some(Version(true, left))
      && end.file.state.previousVersion ==
         Some(if r1.version in twice.disk.dirs then r2.version else r1.version)
      && (r1.version == r2.version ==> left == r1.version)
  {
    var once := AfterStage(root, cfg, running, r1, readDir).0;
    StageJustStages(root, cfg, running, r1, readDir);
    StageJustStages(once, cfg, running, r2, readDir);
    JustStagedSettles(AfterStage(once, cfg, running, r2, readDir).0, cfg, r2.version, r1.version);
  }

  /** Staging swaps `current` before it saves the state. Cut off in between, or with a save that
      fails, a stage over a stable version, or over no record that can be read, leaves the new version
      current and nothing that could undo it: whatever boots follow, none counts and none rolls back. */
  lemma UnsavedStageIsNeverUndone(root: Root, cfg: Config, running: string, r: Request,
                                  applied: Applied, saved: SaveFate, fates: seq<BootFate>)
    requires Gate(root.file, cfg, r).None? && HasApplied(applied, r.version) && !saved.Written?
    requires root.file.Readable? ==> root.file.state.status.Stable?
    ensures
      var (staged, result) := Stage(root, cfg, running, r, applied, saved);
      && result.NotStaged?
      && Boots(staged, cfg, fates) == staged
      && staged.disk == applied.disk && staged.disk.current == Some(Version(true, r.version))
      && (root.file.Readable? ==> staged.file == root.file) && (!root.file.Readable? ==> !staged.file.Readable?)
  {
    var staged := Stage(root, cfg, running, r, applied, saved).0;
    if root.file.Readable? {
      SettledStays(staged, cfg, fates);
    } else {
      UnreadableStays(staged, cfg, fates);
    }
  }

  /** `stage_new_version` succeeded: `current` points at the new version. */
  predicate HasApplied(applied: Applied, v: string) {
    applied.ok && applied.disk.current == Some(Version(true, v))
  }

  /** Over a record that can be read, that is undone by failed boots exactly when another stage was
      still pending, and its rollback finds another version to go back to and moves the link. */
  lemma UnsavedStageUndoneExactly(root: Root, cfg: Config, running: string, r: Request,
                                  applied: Applied, saved: SaveFate, fates: seq<BootFate>)
    requires Gate(root.file, cfg, r).None? && HasApplied(applied, r.version) && !saved.Written?
    requires root.file.Readable? && cfg.maxBootAttempts < U32_MAX
    requires CountedAndSaved(fates) && |fates| >= cfg.maxBootAttempts + 2
    ensures
      var s := root.file.state;
      var end := Boots(Stage(root, cfg, running, r, applied, saved).0, cfg, fates);
      end.disk.current != Some(Version(true, r.version)) <==>
        && s.status.PendingHealth?
        && s.previousVersion.Some? && s.previousVersion.value in applied.disk.dirs
        && s.previousVersion.value != r.version
        && fates[BootsLeft(s, cfg)].pointed
  {
    FailedBootsSettle(Stage(root, cfg, running, r, applied, saved).0, cfg, fates);
  }

  lemma StagedIsCurrent(s: Install.Snapshot, v: string, now: int, readDir: set<string> -> seq<string>)
    requires forall names :: Lists(readDir(names), names)
    ensures Install.Staged(s, v, now, readDir).current == Some(Version(true, v))
    ensures v in Install.Staged(s, v, now, readDir).dirs
  {
    if !(v in s.dirs && s.current == Some(Version(true, v))) {
      var swapped := Install.Swapped(Install.Unpacked(s, v, now), v);
      var listing := readDir(swapped.dirs.Keys);
      assert Lists(listing, swapped.dirs.Keys);
      CollectionKeepsNewest(listing, swapped.dirs, v, Install.KEEP);
    }
  }

  /** The version before survives the collection if at most two other old versions are at least as
      new as it, and only if at most two are newer. */
  lemma RollbackTargetSurvives(s: Install.Snapshot, v: string, before: string, now: int,
                               readDir: set<string> -> seq<string>)
    requires forall names :: Lists(readDir(names), names)
    requires before in s.dirs && before != v && !IsPartial(before) && s.current != Some(Version(true, v))
    ensures
      var dirs := Install.Unpacked(s, v, now).dirs;
      var others := Candidates(readDir(dirs.Keys), v);
      && (forall n :: n in others <==> n in dirs && n != v && !IsPartial(n))
      && before in dirs && dirs[before] == s.dirs[before]
      && (AtLeastAsNew(others, dirs, s.dirs[before].mtime) <= 3 ==>
            before in Install.Staged(s, v, now, readDir).dirs)
      && (before in Install.Staged(s, v, now, readDir).dirs ==>
            AtLeastAsNew(others, dirs, s.dirs[before].mtime + 1) < 3)
  {
    var dirs := Install.Unpacked(s, v, now).dirs;
    StagedCollects(s, v, now, readDir);
    OldVersionsStay(s, v, before, now, readDir);
    SurvivesIfRecent(readDir(dirs.Keys), dirs, v, Install.KEEP, before);
  }

  lemma OldVersionsStay(s: Install.Snapshot, v: string, before: string, now: int, readDir: set<string> -> seq<string>)
    requires forall names :: Lists(readDir(names), names)
    requires before in s.dirs && before != v && !IsPartial(before)
    ensures
      var dirs := Install.Unpacked(s, v, now).dirs;
      && (forall n :: n in Candidates(readDir(dirs.Keys), v) <==> n in dirs && n != v && !IsPartial(n))
      && before in dirs && dirs[before] == s.dirs[before]
  {
    assert Lists(readDir(Install.Unpacked(s, v, now).dirs.Keys), Install.Unpacked(s, v, now).dirs.Keys);
    PartialIsPartial(v);
  }

  lemma StagedCollects(s: Install.Snapshot, v: string, now: int, readDir: set<string> -> seq<string>)
    requires forall names :: Lists(readDir(names), names)
    requires s.current != Some(Version(true, v))
    ensures
      var dirs := Install.Unpacked(s, v, now).dirs;
      && Lists(readDir(dirs.Keys), dirs.Keys)
      && Install.Staged(s, v, now, readDir).dirs == Collected(readDir(dirs.Keys), dirs, v, Install.KEEP)
  {
    assert Lists(readDir(Install.Unpacked(s, v, now).dirs.Keys), Install.Unpacked(s, v, now).dirs.Keys);
  }

  lemma PartialIsPartial(v: string)
    ensures IsPartial(PartialName(v))
  {
  }

  /** A rollback leaves `current` at a complete version exactly when the one it goes back to is
      complete: it asks only that the directory is there. */
  lemma RevertSafeExactly(root: Root, cfg: Config, fate: BootFate)
    requires Boot(root, cfg, fate).0.disk != root.disk
    ensures root.file.Readable? && CanRevert(root, root.file.state)
    ensures Install.Sound(Boot(root, cfg, fate).0.disk) <==>
            root.disk.dirs[root.file.state.previousVersion.value].content.Ready?
  {
  }

  // ── Runs ───────────────────────────────────────────────────────────

  datatype Op =
    | OpStage(cfg: Config, running: string, request: Request, applied: Applied, saved: SaveFate)
    | OpBoot(cfg: Config, fate: BootFate)
    | OpBeat(now: int, saved: SaveFate)
    | OpFinalise(cfg: Config, now: int, saved: SaveFate)
    | OpManualApply(swap: Applied, saved: SaveFate)

  function Do(root: Root, op: Op): Root {
    match op
    case OpStage(cfg, running, request, applied, saved) => Stage(root, cfg, running, request, applied, saved).0
    case OpBoot(cfg, fate) => Boot(root, cfg, fate).0
    case OpBeat(now, saved) => Beat(root, now, saved)
    case OpFinalise(cfg, now, saved) => Finalise(root, cfg, now, saved)
    case OpManualApply(swap, saved) => ManualApply(root, swap, saved).0
  }

  predicate Accepts(root: Root, op: Op) {
    op.OpStage? && Stage(root, op.cfg, op.running, op.request, op.applied, op.saved).1.Staged?
  }

  /** Any number of operations one after another, any of whose calls may fail. */
  predicate Run(states: seq<Root>, ops: seq<Op>) {
    && |states| == |ops| + 1
    && forall k | 0 <= k < |ops| :: states[k + 1] == Do(states[k], ops[k])
  }

  // ── Sequences do not go back ───────────────────────────────────────

  lemma SequenceStep(root: Root, op: Op)
    requires root.file.Readable? && Do(root, op).file.Readable?
    ensures Do(root, op).file.state.lastSequence >= root.file.state.lastSequence
    ensures Accepts(root, op) ==> Do(root, op).file.state.lastSequence > root.file.state.lastSequence
    ensures !Accepts(root, op) ==> Do(root, op).file.state.lastSequence == root.file.state.lastSequence
  {
  }

  /** No boot's count is cut off in the middle. */
  predicate NoTornCount(ops: seq<Op>) {
    forall k | 0 <= k < |ops| && ops[k].OpBoot? :: !ops[k].fate.bump.Torn?
  }

  /** Nothing else makes a record that can be read unreadable, whatever fails. */
  lemma {:induction false} StaysReadable(states: seq<Root>, ops: seq<Op>, k: nat)
    requires Run(states, ops) && NoTornCount(ops) && k < |states| && states[0].file.Readable?
    ensures states[k].file.Readable?
  {
    if k > 0 {
      StaysReadable(states, ops, k - 1);
      assert states[k] == Do(states[k - 1], ops[k - 1]);
    }
  }

  /** From a record that can be read, with no count torn, the recorded sequence never falls, whatever
      is staged, rolled back or lost to failed calls, and rises at each accepted stage and only then. */
  lemma {:induction false} SequenceNeverFalls(states: seq<Root>, ops: seq<Op>, j: nat, k: nat)
    requires Run(states, ops) && NoTornCount(ops) && j <= k < |states| && states[0].file.Readable?
    ensures states[j].file.Readable? && states[k].file.Readable?
    ensures states[j].file.state.lastSequence <= states[k].file.state.lastSequence
    ensures states[j].file.state.lastSequence == states[k].file.state.lastSequence <==>
            forall m | j <= m < k :: !Accepts(states[m], ops[m])
  {
    StaysReadable(states, ops, j);
    StaysReadable(states, ops, k);
    if j < k {
      SequenceNeverFalls(states, ops, j, k - 1);
      assert states[k] == Do(states[k - 1], ops[k - 1]);
      SequenceStep(states[k - 1], ops[k - 1]);
    }
  }

  /** Without a readable state the check is skipped: a torn bump of the boot attempts is enough for
      an older sequence to be accepted after it. */
  lemma TornStateAcceptsOlder(root: Root, cfg: Config, r: Request, applied: Applied)
    requires cfg.enabled && !cfg.manualOnly && !r.busy && r.channelAllowed && r.admitted.Got? && r.tarball.Got? && applied.ok
    requires root.file.Readable? && root.file.state.status.PendingHealth?
    ensures
      var torn := Do(root, OpBoot(cfg, BootFate(Torn, true, Written)));
      var op := OpStage(cfg, root.file.state.currentVersion, r, applied, Written);
      && torn.file.Unreadable?
      && Accepts(torn, op)
      && Do(torn, op).file.state.lastSequence == r.admitted.value
      && (Accepts(root, op) <==> r.admitted.value > root.file.state.lastSequence)
  {
  }

  // ── Nothing is staged for manual apply ─────────────────────────────

  predicate NotStagedManual(root: Root) {
    root.file.Readable? ==> !root.file.state.status.StagedManual?
  }

  /** Nothing these operations do sets the status a manual apply asks for, `manual_only` staging
      included, which records nothing: from any state without it no manual apply ever succeeds. */
  lemma {:induction false} ManualApplyNeverSucceeds(states: seq<Root>, ops: seq<Op>, k: nat,
                                                    swap: Applied, saved: SaveFate)
    requires Run(states, ops) && k < |states| && NotStagedManual(states[0])
    ensures NotStagedManual(states[k])
    ensures ManualApply(states[k], swap, saved) == (states[k], false)
  {
    if k > 0 {
      ManualApplyNeverSucceeds(states, ops, k - 1, swap, saved);
    }
  }

  // ── Only a version seen healthy is finalised ───────────────────────

  /** The beat on record at `k` was recorded at step `j`, while the version pending at `k` was
      pending, and nothing was staged in between. */
  ghost predicate BeatWhilePending(states: seq<Root>, ops: seq<Op>, j: nat, k: nat)
    requires |states| == |ops| + 1 && k < |states|
  {
    && j < k
    && ops[j].OpBeat? && ops[j].saved.Written?
    && states[j].file.Readable? && states[j].file.state.status.PendingHealth?
    && states[k].file.Readable?
    && states[k].file.state.lastHealthAt == Some(ops[j].now)
    && states[k].file.state.currentVersion == states[j].file.state.currentVersion
    && forall i | j <= i < k :: !Accepts(states[i], ops[i])
  }

  predicate NoOldBeat(root: Root) {
    root.file.Readable? && (root.file.state.status.PendingHealth? || root.file.state.status.StagedManual?) ==>
      root.file.state.lastHealthAt.None?
  }

  ghost predicate HasBeat(states: seq<Root>, ops: seq<Op>, k: nat)
    requires |states| == |ops| + 1 && k < |states|
  {
    exists j :: BeatWhilePending(states, ops, j, k)
  }

  /** How an operation can leave a pending version with a beat on record. */
  lemma PendingWithBeat(root: Root, op: Op)
    requires Do(root, op).file.Readable?
    requires Do(root, op).file.state.status.PendingHealth? && Do(root, op).file.state.lastHealthAt.Some?
    ensures !Accepts(root, op) && root.file.Readable?
    ensures Do(root, op).file.state.currentVersion == root.file.state.currentVersion
    ensures root.file.state.status.PendingHealth? || root.file.state.status.StagedManual?
    ensures Do(root, op).file.state.lastHealthAt != root.file.state.lastHealthAt ==>
              && op.OpBeat? && op.saved.Written? && root.file.state.status.PendingHealth?
              && Do(root, op).file.state.lastHealthAt == Some(op.now)
  {
  }

  lemma {:induction false} BeatsOnRecordWereRecorded(states: seq<Root>, ops: seq<Op>, k: nat)
    requires Run(states, ops) && k < |states| && NoOldBeat(states[0]) && NotStagedManual(states[0])
    requires states[k].file.Readable? && states[k].file.state.status.PendingHealth?
    requires states[k].file.state.lastHealthAt.Some?
    ensures HasBeat(states, ops, k)
  {
    assert k > 0;
    var root, op := states[k - 1], ops[k - 1];
    PendingWithBeat(root, op);
    ManualApplyNeverSucceeds(states, ops, k - 1, Applied(true, root.disk), Written);
    if root.file.state.lastHealthAt == states[k].file.state.lastHealthAt {
      BeatsOnRecordWereRecorded(states, ops, k - 1);
      var j :| BeatWhilePending(states, ops, j, k - 1);
      assert BeatWhilePending(states, ops, j, k);
    } else {
      assert BeatWhilePending(states, ops, k - 1, k);
    }
  }

  /** A version becomes stable by finalising only if it was staged at least the health window ago
      and a healthy beat was recorded while it was pending, in the last minute and with no other
      stage since. */
  lemma FinalisedOnlyIfHealthy(states: seq<Root>, ops: seq<Op>, k: nat)
    requires Run(states, ops) && k < |ops| && NoOldBeat(states[0]) && NotStagedManual(states[0])
    requires ops[k].OpFinalise? && states[k + 1] != states[k]
    ensures states[k + 1].file.Readable? && states[k + 1].file.state.status.Stable?
    ensures ops[k].cfg.healthWindowSecs == 0 ||
            ops[k].now >= states[k].file.state.stagedAt + ops[k].cfg.healthWindowSecs
    ensures exists j: nat :: BeatWhilePending(states, ops, j, k) && ops[k].now - ops[j].now <= 60
  {
    assert states[k + 1] == Do(states[k], ops[k]);
    BeatsOnRecordWereRecorded(states, ops, k);
    var j: nat :| BeatWhilePending(states, ops, j, k);
    assert ops[k].now - ops[j].now <= 60;
  }
}
