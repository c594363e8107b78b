/** What holds over whole histories of the upgrade lifecycle: beats between failing boots change
    nothing, the record says what `current` points at, and `current` stays at a complete version. */
module Histories {
  import opened Limits
  import opened Versions
  import opened Upgrade
  import opened Lifecycle
  import Install

  // ── Beats between failing boots ────────────────────────────────────

  /** A root but for when its version was last healthy. */
  function WithoutBeat(root: Root): Root {
    if root.file.Readable? then root.(file := Readable(root.file.state.(lastHealthAt := None))) else root
  }

  predicate BootsAndBeats(ops: seq<Op>, cfg: Config) {
    forall k | 0 <= k < |ops| :: ops[k].OpBeat? || (ops[k].OpBoot? && ops[k].cfg == cfg)
  }

  /** How the calls of each boot among some operations come out. */
  function FatesIn(ops: seq<Op>): (fates: seq<BootFate>)
    ensures |fates| <= |ops|
  {
    if ops == [] then []
    else FatesIn(ops[..|ops| - 1]) + if ops[|ops| - 1].OpBoot? then [ops[|ops| - 1].fate] else []
  }

  lemma FatesOneMore(ops: seq<Op>, k: nat)
    requires k < |ops|
    ensures FatesIn(ops[..k + 1]) == FatesIn(ops[..k]) + if ops[k].OpBoot? then [ops[k].fate] else []
  {
    assert ops[..k + 1][..k] == ops[..k];
  }

  lemma BeatChangesOnlyItself(root: Root, now: int, saved: SaveFate)
    ensures WithoutBeat(Beat(root, now, saved)) == WithoutBeat(root)
  {
  }

  lemma BootIgnoresBeats(root: Root, cfg: Config, fate: BootFate)
    ensures Boot(WithoutBeat(root), cfg, fate).0 == WithoutBeat(Boot(root, cfg, fate).0)
    ensures Boot(WithoutBeat(root), cfg, fate).1 == Boot(root, cfg, fate).1
  {
  }

  lemma BootsOneMore(root: Root, cfg: Config, fates: seq<BootFate>, fate: BootFate)
    ensures Boots(root, cfg, fates + [fate]) == Boot(Boots(root, cfg, fates), cfg, fate).0
    ensures OutcomeOf(root, cfg, fates + [fate]) == Boot(Boots(root, cfg, fates), cfg, fate).1
  {
    assert (fates + [fate])[..|fates|] == fates;
  }

  /** However many beats a version gets between its boots, whether or not they are saved, and whatever
      fails in the boots, they come out as they would have without them. */
  lemma {:induction false} BeatsBetweenBoots(states: seq<Root>, ops: seq<Op>, cfg: Config, k: nat)
    requires Run(states, ops) && BootsAndBeats(ops, cfg) && k < |states|
    ensures WithoutBeat(states[k]) == Boots(WithoutBeat(states[0]), cfg, FatesIn(ops[..k]))
    ensures k < |ops| && ops[k].OpBoot? ==>
              FatesIn(ops[..k + 1]) != [] &&
              Boot(states[k], cfg, ops[k].fate).1 == OutcomeOf(WithoutBeat(states[0]), cfg, FatesIn(ops[..k + 1]))
  {
    if k > 0 {
      BeatsBetweenBoots(states, ops, cfg, k - 1);
      BeatOrBoot(states, ops, cfg, k - 1);
    }
    if k < |ops| && ops[k].OpBoot? {
      FatesOneMore(ops, k);
      BootsOneMore(WithoutBeat(states[0]), cfg, FatesIn(ops[..k]), ops[k].fate);
      BootIgnoresBeats(states[k], cfg, ops[k].fate);
    }
  }

  lemma BeatOrBoot(states: seq<Root>, ops: seq<Op>, cfg: Config, k: nat)
    requires Run(states, ops) && BootsAndBeats(ops, cfg) && k < |ops|
    requires WithoutBeat(states[k]) == Boots(WithoutBeat(states[0]), cfg, FatesIn(ops[..k]))
    ensures WithoutBeat(states[k + 1]) == Boots(WithoutBeat(states[0]), cfg, FatesIn(ops[..k + 1]))
  {
    FatesOneMore(ops, k);
    assert states[k + 1] == Do(states[k], ops[k]);
    if ops[k].OpBeat? {
      assert FatesIn(ops[..k]) + [] == FatesIn(ops[..k]);
      BeatChangesOnlyItself(states[k], ops[k].now, ops[k].saved);
    } else {
      BootsOneMore(WithoutBeat(states[0]), cfg, FatesIn(ops[..k]), ops[k].fate);
      BootIgnoresBeats(states[k], cfg, ops[k].fate);
    }
  }

  /** So a version that reports healthy and still keeps failing is undone all the same: in any
      history of boots and beats after its stage, short of a torn count, the first boot past the limit
      that saves its rollback goes back to the version before, exactly if that is there and the link
      moves. */
  lemma BeatsDoNotSave(root: Root, cfg: Config, running: string, r: Request, readDir: set<string> -> seq<string>,
                       states: seq<Root>, ops: seq<Op>, k: nat)
    requires forall names :: Lists(readDir(names), names)
    requires cfg.enabled && Gate(root.file, cfg, r).None?
    requires Run(states, ops) && BootsAndBeats(ops, cfg) && k < |states|
    requires states[0] == AfterStage(root, cfg, running, r, readDir).0
    requires NoneTorn(FatesIn(ops[..k]))
    ensures BootsComeTo(states[0], states[k], cfg, r.version, Before(root.file, running), FatesIn(ops[..k]))
  {
    StageJustStages(root, cfg, running, r, readDir);
    assert WithoutBeat(states[0]) == states[0];
    BeatsBetweenBoots(states, ops, cfg, k);
    JustStagedThenAny(states[0], cfg, r.version, Before(root.file, running), FatesIn(ops[..k]));
    BeatsDoNotShow(states[0], states[k], cfg, r.version, Before(root.file, running), FatesIn(ops[..k]));
  }

  lemma BeatsDoNotShow(staged: Root, end: Root, cfg: Config, v: string, before: string, fates: seq<BootFate>)
    ensures BootsComeTo(staged, WithoutBeat(end), cfg, v, before, fates) <==>
            BootsComeTo(staged, end, cfg, v, before, fates)
  {
  }

  // ── The record and `current` ───────────────────────────────────────

  /** Every call of an operation works. */
  ghost predicate CallsWork(root: Root, op: Op, readDir: set<string> -> seq<string>)
    requires forall names :: Lists(readDir(names), names)
  {
    match op
    case OpStage(_, _, r, applied, saved) =>
      saved.Written? && applied == Applied(true, Install.Staged(root.disk, r.version, r.now, readDir))
    case OpBoot(_, fate) => fate == WORKS
    case OpBeat(_, saved) => saved.Written?
    case OpFinalise(_, _, saved) => saved.Written?
    case OpManualApply(swap, saved) =>
      && saved.Written?
      && (root.file.Readable? ==> swap == Applied(true, Install.Swapped(root.disk, root.file.state.currentVersion)))
  }

  predicate RecordIsCurrent(root: Root) {
    root.file.Readable? ==> root.disk.current == Some(Version(true, root.file.state.currentVersion))
  }

  lemma RecordStep(root: Root, op: Op, readDir: set<string> -> seq<string>)
    requires forall names :: Lists(readDir(names), names)
    requires RecordIsCurrent(root) && CallsWork(root, op, readDir)
    ensures RecordIsCurrent(Do(root, op))
  {
    if op.OpStage? {
      StagedIsCurrent(root.disk, op.request.version, op.request.now, readDir);
    }
  }

  /** Over every run in which calls work, the recorded version is the one `current` points at, by an
      absolute path. */
  lemma {:induction false} RecordStaysCurrent(states: seq<Root>, ops: seq<Op>, k: nat,
                                              readDir: set<string> -> seq<string>)
    requires forall names :: Lists(readDir(names), names)
    requires Run(states, ops) && k < |states| && RecordIsCurrent(states[0])
    requires forall i | 0 <= i < |ops| :: CallsWork(states[i], ops[i], readDir)
    ensures RecordIsCurrent(states[k])
  {
    if k > 0 {
      RecordStaysCurrent(states, ops, k - 1, readDir);
      RecordStep(states[k - 1], ops[k - 1], readDir);
    }
  }

  // ── `current` stays sound ──────────────────────────────────────────

  /** A call on the upgrader, and the operation it comes to. */
  datatype Call =
    | CallStage(cfg: Config, request: Request)
    | CallBoot(cfg: Config)
    | CallBeat(now: int)
    | CallFinalise(cfg: Config, now: int)
    | CallManualApply

  predicate Makes(call: Call, op: Op, running: string) {
    match call
    case CallStage(cfg, request) => op.OpStage? && op.cfg == cfg && op.request == request && op.running == running
    case CallBoot(cfg) => op.OpBoot? && op.cfg == cfg
    case CallBeat(now) => op.OpBeat? && op.now == now
    case CallFinalise(cfg, now) => op.OpFinalise? && op.cfg == cfg && op.now == now
    case CallManualApply => op.OpManualApply?
  }

  /** An operation that keeps out of the one way each kind has of breaking `current`: a stage spares
      what it points at, and a rollback or a manual apply goes to a complete version. */
  predicate Careful(root: Root, op: Op) {
    match op
    case OpStage(_, _, r, _, _) => Install.Spares(root.disk.current, r.version)
    case OpBoot(cfg, fate) =>
      IsPending(root) && CanRevert(root, root.file.state) ==>
        root.disk.dirs[root.file.state.previousVersion.value].content.Ready?
    case OpBeat(_, _) | OpFinalise(_, _, _) => true
    case OpManualApply(_, _) =>
      Applies(root) ==> root.disk.dirs[root.file.state.currentVersion].content.Ready?
  }

  lemma BootStaysSound(root: Root, cfg: Config, fate: BootFate)
    requires Install.Sound(root.disk) && Careful(root, OpBoot(cfg, fate))
    ensures Install.Sound(Boot(root, cfg, fate).0.disk)
  {
  }

  /** Any number of calls on the upgrader, any of whose file-system calls may fail, make a run of the
      operations; and if each is careful, `current` points at a complete version at every moment the
      disk passes through, wherever any of them is cut off. */
  method Play(up: Upgrader, calls: seq<Call>) returns (ghost states: seq<Root>, ghost ops: seq<Op>)
    requires up.Valid()
    modifies up.disk, up.store
    ensures up.Valid() && old(up.disk.log) <= up.disk.log
    ensures Run(states, ops) && |ops| == |calls| && states[0] == old(up.View()) && states[|ops|] == up.View()
    ensures forall k | 0 <= k < |calls| :: Makes(calls[k], ops[k], up.running)
    ensures Install.Sound(states[0].disk) && (forall k | 0 <= k < |ops| :: Careful(states[k], ops[k])) ==>
              Install.SoundSince(old(up.disk.log), up.disk.log) && Install.Sound(up.disk.View())
  {
    ghost var from := up.disk.log;
    states, ops := [up.View()], [];
    var i := 0;
    while i < |calls|
      invariant i <= |calls| && |ops| == i && up.Valid() && from <= up.disk.log
      invariant Run(states, ops) && states[0] == old(up.View()) && states[i] == up.View()
      invariant forall k | 0 <= k < i :: Makes(calls[k], ops[k], up.running)
      invariant Install.Sound(states[0].disk) && (forall k | 0 <= k < i :: Careful(states[k], ops[k])) ==>
                  Install.SoundSince(from, up.disk.log) && Install.Sound(up.disk.View())
    {
      ghost var mid := up.disk.log;
      ghost var op := PlayOne(up, calls[i]);
      Install.SoundOn(from, mid, up.disk.log);
      RunOneMore(states, ops, op);
      ghost var had := states;
      states, ops := states + [up.View()], ops + [op];
      assert forall k | 0 <= k <= i :: states[k] == had[k];
      i := i + 1;
    }
  }

  lemma RunOneMore(states: seq<Root>, ops: seq<Op>, op: Op)
    requires Run(states, ops)
    ensures Run(states + [Do(states[|ops|], op)], ops + [op])
  {
  }

  method PlayOne(up: Upgrader, call: Call) returns (ghost op: Op)
    requires up.Valid()
    modifies up.disk, up.store
    ensures up.Valid() && old(up.disk.log) <= up.disk.log
    ensures Makes(call, op, up.running) && up.View() == Do(old(up.View()), op)
    ensures Install.Sound(old(up.disk.View())) && Careful(old(up.View()), op) ==>
              Install.SoundSince(old(up.disk.log), up.disk.log) && Install.Sound(up.disk.View())
  {
    match call {
      case CallStage(cfg, request) =>
        var _, applied, saved := up.StageVersion(cfg, request);
        op := OpStage(cfg, up.running, request, applied, saved);
        Install.LastIsSound(old(up.disk.log), up.disk.log, up.disk.View());
      case CallBoot(cfg) =>
        var _, fate := up.RunBootWatchdog(cfg);
        op := OpBoot(cfg, fate);
        if Install.Sound(old(up.disk.View())) && Careful(old(up.View()), op) {
          BootStaysSound(old(up.View()), cfg, fate);
        }
      case CallBeat(now) =>
        var saved := up.RecordHealthyBeat(now);
        op := OpBeat(now, saved);
      case CallFinalise(cfg, now) =>
        var saved := up.FinalizeIfStable(cfg, now);
        op := OpFinalise(cfg, now, saved);
      case CallManualApply =>
        var _, swap, saved := up.ManualApplyPending();
        op := OpManualApply(swap, saved);
    }
  }

  // ── A rollback to an incomplete version ────────────────────────────

  /** The care is needed. Over a pending version, staging the version before it again fails part-way
      in removing it; the record still names it, its directory is still there, and the boot past the
      limit goes back to what is left of it. */
  method RollBackToIncomplete(up: Upgrader, cfg: Config, r: Request, v: string)
    requires up.Valid() && up.store.Faultless() && JustStaged(up.View(), v, r.version)
    requires Install.Sound(up.disk.View()) && Install.StartsByRemoving(up.disk.View(), r.version)
    requires cfg.enabled && cfg.maxBootAttempts < U32_MAX && Gate(up.store.file, cfg, r).None?
    requires forall k | k >= up.disk.calls ::
               if k == up.disk.calls + 1 then up.disk.fate(k).FailsPartWay? else up.disk.fate(k).Works?
    modifies up.disk, up.store
    ensures up.Valid() && up.store.file.Readable? && up.store.file.state.currentVersion == r.version
    ensures up.disk.current == Some(Version(true, r.version)) && r.version in up.disk.dirs
    ensures up.disk.dirs[r.version].content.Incomplete? && !Install.Sound(up.disk.View())
  {
    var _, applied, saved := up.StageVersion(cfg, r);
    ghost var left := up.View();
    assert JustStaged(left, v, r.version);
    var n := 0;
    ghost var fates: seq<BootFate> := [];
    while n < cfg.maxBootAttempts + 1
      invariant n <= cfg.maxBootAttempts + 1 && up.Valid() && up.Faultless()
      invariant fates == Works(n) && up.View() == Boots(left, cfg, fates)
    {
      var _, fate := up.RunBootWatchdog(cfg);
      assert Works(n + 1) == fates + [WORKS];
      BootsOneMore(left, cfg, fates, WORKS);
      fates := fates + [fate];
      n := n + 1;
    }
    RolledBackPastTheLimit(left, cfg, v, r.version);
  }

  lemma RolledBackPastTheLimit(staged: Root, cfg: Config, v: string, before: string)
    requires cfg.enabled && cfg.maxBootAttempts < U32_MAX
    requires JustStaged(staged, v, before) && before in staged.disk.dirs
    ensures
      var back := Boots(staged, cfg, Works(cfg.maxBootAttempts + 1));
      && back.file.Readable? && back.file.state.currentVersion == before
      && back.disk == staged.disk.(current := Some(Version(true, before)))
  {
    var fates := Works(cfg.maxBootAttempts + 1);
    DecidedPastTheLimit(0, cfg, fates);
    assert fates[..|fates|] == fates;
    DecidingBoot(staged, cfg, fates);
  }

  const ONE: string := "1.0.0"
  const TWO: string := "1.1.0"

  lemma NamesDiffer()
    ensures ONE != TWO && !IsPartial(ONE) && !IsPartial(TWO)
    ensures PartialName(ONE) != ONE && PartialName(ONE) != TWO
  {
    assert |PartialName(ONE)| == 13;
  }

  /** A fresh install of one version, and the next staged over it. */
  method StageOnce(readDir: set<string> -> seq<string>, cfg: Config) returns (up: Upgrader)
    requires forall names :: Lists(readDir(names), names)
    requires cfg.enabled && !cfg.manualOnly
    ensures up.Valid() && JustStaged(up.View(), TWO, ONE) && up.store.file.state.lastSequence == 1
    ensures up.disk.dirs.Keys == {ONE, TWO}
    ensures up.disk.dirs[ONE].content.Ready? && up.disk.dirs[TWO].content.Ready?
  {
    var works: nat -> Install.Fate := _ => Install.Works;
    var disk := new Install.Disk(map[ONE := Dir(Ready, 0)], Some(Version(true, ONE)), None, None, works, readDir);
    var store := new StateFile(Missing, works);
    up := new Upgrader(disk, store, ONE);
    ghost var start := up.View();
    var next := Request(TWO, false, true, Got(1), Got(()), 10);
    var _, applied, saved := up.StageVersion(cfg, next);
    NamesDiffer();
    StagedRoot(start, cfg, ONE, next, readDir);
    OneOtherSurvives(start.disk, ONE, TWO, 10, readDir);
  }

  /** And such a state is reached, from a fresh install of one version: stage the next, restart, and
      stage the first again. */
  method ReachIncomplete(readDir: set<string> -> seq<string>, cfg: Config) returns (up: Upgrader)
    requires forall names :: Lists(readDir(names), names)
    requires cfg.enabled && !cfg.manualOnly && cfg.maxBootAttempts < U32_MAX
    ensures up.Valid() && !Install.Sound(up.disk.View())
    ensures up.store.file.Readable? && up.disk.current == Some(Version(true, up.store.file.state.currentVersion))
  {
    var before := StageOnce(readDir, cfg);
    NamesDiffer();
    // the process restarts, over the same disk
    var fails: nat -> Install.Fate := k => if k == 1 then Install.FailsPartWay else Install.Works;
    var works: nat -> Install.Fate := _ => Install.Works;
    var was := before.disk;
    var disk := new Install.Disk(was.dirs, was.current, was.previous, was.tmp, fails, readDir);
    var store := new StateFile(before.store.file, works);
    up := new Upgrader(disk, store, TWO);
    RollBackToIncomplete(up, cfg, Request(ONE, false, true, Got(2), Got(()), 20), TWO);
  }

  lemma OneOtherSurvives(s: Install.Snapshot, one: string, two: string, now: int, readDir: set<string> -> seq<string>)
    requires forall names :: Lists(readDir(names), names)
    requires s.dirs.Keys == {one} && one != two && !IsPartial(one) && !IsPartial(two)
    requires s.current == Some(Version(true, one)) && s.dirs[one].content.Ready?
    ensures
      var dirs := Install.Staged(s, two, now, readDir).dirs;
      dirs.Keys == {one, two} && dirs[one].content.Ready? && dirs[two].content.Ready?
  {
    var swapped := Install.Swapped(Install.Unpacked(s, two, now), two);
    var listing := readDir(swapped.dirs.Keys);
    assert Lists(listing, swapped.dirs.Keys);
    var others := Candidates(listing, two);
    CollectionKeepsNewest(listing, swapped.dirs, two, Install.KEEP);
    PartialIsPartial(two);
    CandidatesDistinct(listing, two);
    AtMostOne(others, one);
    KeptOrRemoved(listing, swapped.dirs, two, Install.KEEP);
    assert one in others && swapped.dirs.Keys == {one, two};
    assert Removed(listing, swapped.dirs, two, Install.KEEP) == [];
  }

  lemma AtMostOne(s: seq<string>, n: string)
    requires Distinct(s) && forall x | x in s :: x == n
    ensures |s| <= 1
  {
    assert |s| <= 1 || s[0] != s[1];
    forall i | 0 <= i < |s| ensures s[i] == n {
      assert s[i] in s;
    }
  }

  // ── Runs in which every call works ─────────────────────────────────

  /** No version directory is half made, but for partial ones, and no recorded version is named like
      one of those. */
  ghost predicate Tidy(root: Root) {
    && (forall n | n in root.disk.dirs :: root.disk.dirs[n].content.Ready? || IsPartial(n))
    && (root.file.Readable? ==>
          && !IsPartial(root.file.state.currentVersion)
          && (root.file.state.previousVersion.Some? ==> !IsPartial(root.file.state.previousVersion.value)))
  }

  predicate ProperNames(op: Op) {
    op.OpStage? ==> !IsPartial(op.request.version) && !IsPartial(op.running)
  }

  /** A stage in which every call works makes a complete version and spoils none. */
  lemma StagingKeepsComplete(s: Install.Snapshot, v: string, now: int, readDir: set<string> -> seq<string>, n: string)
    requires forall names :: Lists(readDir(names), names)
    requires n in Install.Staged(s, v, now, readDir).dirs
    ensures
      var d := Install.Staged(s, v, now, readDir).dirs[n];
      d == Dir(Ready, now) || (n in s.dirs && d == s.dirs[n])
  {
    if !(v in s.dirs && s.current == Some(Version(true, v))) {
      var swapped := Install.Swapped(Install.Unpacked(s, v, now), v);
      var listing := readDir(swapped.dirs.Keys);
      assert Lists(listing, swapped.dirs.Keys);
      CollectionKeepsNewest(listing, swapped.dirs, v, Install.KEEP);
    }
  }

  lemma StageStaysTidy(root: Root, op: Op, readDir: set<string> -> seq<string>)
    requires forall names :: Lists(readDir(names), names)
    requires op.OpStage? && Tidy(root) && CallsWork(root, op, readDir) && ProperNames(op)
    ensures Tidy(Do(root, op))
    ensures Do(root, op) != root ==> Install.Sound(Do(root, op).disk)
  {
    var v, now := op.request.version, op.request.now;
    var dirs := Install.Staged(root.disk, v, now, readDir).dirs;
    forall n | n in dirs ensures dirs[n].content.Ready? || IsPartial(n) {
      StagingKeepsComplete(root.disk, v, now, readDir, n);
    }
    StagedIsCurrent(root.disk, v, now, readDir);
  }

  lemma StepStaysSound(root: Root, op: Op, readDir: set<string> -> seq<string>)
    requires forall names :: Lists(readDir(names), names)
    requires Tidy(root) && Install.Sound(root.disk) && CallsWork(root, op, readDir) && ProperNames(op)
    ensures Tidy(Do(root, op)) && Install.Sound(Do(root, op).disk)
  {
    if op.OpStage? {
      StageStaysTidy(root, op, readDir);
    }
  }

  /** Over every run in which calls work, `current` is at a complete version after each operation,
      rollbacks included: no rollback ever has an incomplete version to go back to. */
  lemma {:induction false} TidyStaysSound(states: seq<Root>, ops: seq<Op>, k: nat, readDir: set<string> -> seq<string>)
    requires forall names :: Lists(readDir(names), names)
    requires Run(states, ops) && k < |states| && Tidy(states[0]) && Install.Sound(states[0].disk)
    requires forall i | 0 <= i < |ops| :: CallsWork(states[i], ops[i], readDir) && ProperNames(ops[i])
    ensures Tidy(states[k]) && Install.Sound(states[k].disk)
  {
    if k > 0 {
      TidyStaysSound(states, ops, k - 1, readDir);
      StepStaysSound(states[k - 1], ops[k - 1], readDir);
    }
  }
}
