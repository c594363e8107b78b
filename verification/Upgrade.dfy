/** The upgrade lifecycle (`UpgradeCoordinator::stage`, the boot watchdog, beats, finalising and the
    manual path) over the install root and its `state.json`. The functions say what each operation
    does, given which of its calls fail; the classes do it. */
module Upgrade {
  import opened Limits
  import opened Versions
  import Install

  datatype Status = Stable | PendingHealth | RolledBack | StagedManual

  datatype State = State(
    currentVersion: string,
    previousVersion: Option<string>,
    status: Status,
    bootAttempts: nat,
    stagedAt: int,
    lastHealthAt: Option<int>,
    lastSequence: nat)

  /** `state.json`: not there, there but not a state, or a state. */
  datatype File = Missing | Unreadable | Readable(state: State)

  datatype Root = Root(disk: Install.Snapshot, file: File)

  datatype Config = Config(enabled: bool, manualOnly: bool, maxBootAttempts: nat, healthWindowSecs: nat)

  // ── state.json ─────────────────────────────────────────────────────

  /** How a save comes out. It opens its destination, creating it if need be, before it renames the
      new file over it. */
  datatype SaveFate = Written | NotWritten | LeftEmpty

  function AfterSave(file: File, s: State, fate: SaveFate): File {
    match fate
    case Written => Readable(s)
    case NotWritten => file
    case LeftEmpty => if file.Missing? then Unreadable else file
  }

  /** How the in-place bump of the boot attempts comes out: cut off between emptying the file and
      writing it again, it leaves nothing readable; and it may write the file and then fail to sync. */
  datatype BumpFate = Bumped | NotBumped | Torn | NotSynced

  function BumpedState(s: State): State {
    s.(bootAttempts := Min(s.bootAttempts + 1, U32_MAX))
  }

  function AfterBump(s: State, fate: BumpFate): File {
    match fate
    case Bumped | NotSynced => Readable(BumpedState(s))
    case NotBumped => Readable(s)
    case Torn => Unreadable
  }

  class StateFile {
    var file: File
    const fate: nat -> Install.Fate
    var calls: nat
    ghost var log: seq<File>

    ghost predicate Valid()
      reads this
    {
      log != [] && log[|log| - 1] == file
    }

    ghost predicate Faultless()
      reads this
    {
      forall k | k >= calls :: fate(k).Works?
    }

    constructor (file: File, fate: nat -> Install.Fate)
      ensures Valid() && this.file == file && this.fate == fate && calls == 0
    {
      this.file, this.fate, calls := file, fate, 0;
      log := [file];
    }

    method NextFate() returns (f: Install.Fate)
      modifies this`calls
      ensures f == fate(old(calls)) && calls == old(calls) + 1
    {
      f := fate(calls);
      calls := calls + 1;
    }

    /** Write-then-rename: at every moment a readable file holds the old state or the new one. */
    method Save(s: State) returns (ok: bool, ghost saved: SaveFate)
      requires Valid()
      modifies this`calls, this`file, this`log
      ensures Valid() && old(calls) <= calls && old(log) <= log
      ensures file == AfterSave(old(file), s, saved) && (ok <==> saved.Written?)
      ensures old(Faultless()) ==> ok
      ensures ok ==> file == Readable(s)
      ensures !ok && old(file).Readable? ==> file == old(file)
      ensures old(file).Readable? ==>
                forall k | |old(log)| <= k < |log| :: log[k] in {old(file), Readable(s)}
    {
      ok, saved := false, NotWritten;
      var created := NextFate();  // the temporary file
      if !created.Works? {
        return;
      }
      var destination := NextFate();  // the destination, to lock it
      if destination.Works? && file.Missing? {
        saved := LeftEmpty;
        file := Unreadable;
        log := log + [file];
      }
      var written := NextFate();  // lock, write, flush and sync
      if !written.Works? {
        return;
      }
      var renamed := NextFate();
      if renamed.Works? {
        ok, saved := true, Written;
        file := Readable(s);
      }
      log := log + [file];
    }

    /** In place: cut off in the middle, it leaves a file that cannot be read. */
    method BumpBootAttempts() returns (attempts: Option<nat>, ghost bump: BumpFate)
      requires Valid() && file.Readable?
      modifies this`calls, this`file, this`log
      ensures Valid() && old(calls) <= calls && old(log) <= log
      ensures file == AfterBump(old(file).state, bump)
      ensures attempts == if bump.Bumped? then Some(BumpedState(old(file).state).bootAttempts) else None
      ensures attempts.Some? ==>
                && attempts.value == Min(old(file).state.bootAttempts + 1, U32_MAX)
                && file == Readable(old(file).state.(bootAttempts := attempts.value))
      ensures file in {old(file), Unreadable,
                       Readable(old(file).state.(bootAttempts := Min(old(file).state.bootAttempts + 1, U32_MAX)))}
      ensures old(Faultless()) ==> bump.Bumped?
      ensures old(Faultless()) ==> log == old(log) + [Unreadable, file]
    {
      attempts, bump := None, NotBumped;
      var s := BumpedState(file.state);
      var truncated := NextFate();
      if !truncated.Works? {
        return;
      }
      bump := Torn;
      file := Unreadable;
      log := log + [file];
      var written := NextFate();
      if !written.Works? {
        return;
      }
      bump := NotSynced;
      file := Readable(s);
      log := log + [file];
      var synced := NextFate();
      if synced.Works? {
        bump := Bumped;
        attempts := Some(s.bootAttempts);
      }
    }
  }

  // ── Staging ────────────────────────────────────────────────────────

  /** What fetching and verifying a manifest, or fetching and checking its tarball, yields. */
  datatype Fetched<T> = Got(value: T) | Refused(code: string)

  /** A request to stage. `busy` says whether another stage is under way; `admitted` stands for
      everything up to a verified, validated manifest, which then is for the version requested, and
      yields its sequence; `tarball` for picking and downloading the artefact. */
  datatype Request = Request(
    version: string,
    busy: bool,
    channelAllowed: bool,
    admitted: Fetched<nat>,
    tarball: Fetched<()>,
    now: int)

  datatype StageResult = Staged | NotStaged(code: string)

  /** The first check a request fails, if it fails one. */
  function Gate(file: File, cfg: Config, r: Request): (code: Option<string>) {
    if r.busy then Some("upgrade_in_progress")
    else if !cfg.enabled then Some("upgrade_disabled")
    else if !r.channelAllowed then Some("upgrade_channel_not_allowed")
    else if r.admitted.Refused? then Some(r.admitted.code)
    else if file.Readable? && r.admitted.value <= file.state.lastSequence then Some("upgrade_sequence_too_old")
    else if r.tarball.Refused? then Some(r.tarball.code)
    else if cfg.manualOnly then Some("upgrade_staged_manual")
    else None
  }

  /** What `stage_new_version` left, and whether it succeeded. */
  datatype Applied = Applied(ok: bool, disk: Install.Snapshot)

  /** The state recorded for a version just staged. */
  function StagedState(file: File, running: string, r: Request): State
    requires r.admitted.Got?
  {
    State(r.version, Some(if file.Readable? then file.state.currentVersion else running), PendingHealth, 0,
          r.now, None, r.admitted.value)
  }

  function Stage(root: Root, cfg: Config, running: string, r: Request, applied: Applied, saved: SaveFate)
    : (out: (Root, StageResult))
  {
    var refused := Gate(root.file, cfg, r);
    if refused.Some? then (root, NotStaged(refused.value))
    else if !applied.ok then (Root(applied.disk, root.file), NotStaged("upgrade_extract_failed"))
    else
      (Root(applied.disk, AfterSave(root.file, StagedState(root.file, running, r), saved)),
       if saved.Written? then Staged else NotStaged("upgrade_extract_failed"))
  }

  // ── The boot watchdog ──────────────────────────────────────────────

  datatype BootOutcome =
    | Continue
    | Failed
    | Pending(attempt: nat)
    | Reported(from: string, to: string)
    | ExitForRespawn

  datatype BootFate = BootFate(bump: BumpFate, pointed: bool, saved: SaveFate)

  const WORKS := BootFate(Bumped, true, Written)

  function Unknown(v: Option<string>): string {
    if v.Some? then v.value else "unknown"
  }

  /** Whether `revert_to_previous` finds something to revert to. It asks only that the directory be
      there, not that it be complete. */
  predicate CanRevert(root: Root, s: State) {
    s.previousVersion.Some? && s.previousVersion.value in root.disk.dirs
  }

  function Boot(root: Root, cfg: Config, fate: BootFate): (out: (Root, BootOutcome)) {
    if !cfg.enabled || !root.file.Readable? then (root, Continue)
    else
      var s := root.file.state;
      match s.status
      case Stable | StagedManual => (root, Continue)
      case RolledBack =>
        (root.(file := AfterSave(root.file, s.(status := Stable, bootAttempts := 0), fate.saved)),
         Reported(Unknown(s.previousVersion), s.currentVersion))
      case PendingHealth =>
        var bumped := AfterBump(s, fate.bump);
        var attempt := BumpedState(s).bootAttempts;
        if !fate.bump.Bumped? then (root.(file := bumped), Failed)
        else if attempt <= cfg.maxBootAttempts then (root.(file := bumped), Pending(attempt))
        else if CanRevert(root, s) && fate.pointed then
          var back := s.previousVersion.value;
          var s' := s.(currentVersion := back, previousVersion := Some(s.currentVersion), status := RolledBack);
          (Root(root.disk.(current := Some(Version(true, back))), AfterSave(bumped, s', fate.saved)), ExitForRespawn)
        else
          (root.(file := AfterSave(bumped, s.(status := RolledBack), fate.saved)), ExitForRespawn)
  }

  // ── Beats, finalising and the manual path ──────────────────────────

  function Beat(root: Root, now: int, saved: SaveFate): Root {
    if !root.file.Readable? then root
    else
      var s := root.file.state;
      root.(file := AfterSave(root.file, if s.status.PendingHealth? then s.(lastHealthAt := Some(now)) else s, saved))
  }

  /** Whether a pending version has been healthy long enough, with a beat in the last minute. The
      age is cut to a u32. */
  predicate Finalises(s: State, cfg: Config, now: int) {
    && s.status.PendingHealth?
    && s.lastHealthAt.Some?
    && Max(now - s.stagedAt, 0) % (U32_MAX + 1) >= cfg.healthWindowSecs
    && now - s.lastHealthAt.value <= 60
  }

  function Finalise(root: Root, cfg: Config, now: int, saved: SaveFate): Root {
    if root.file.Readable? && Finalises(root.file.state, cfg, now)
    then root.(file := AfterSave(root.file, root.file.state.(status := Stable), saved))
    else root
  }

  /** Whether there is a version staged for manual apply, on disk. */
  predicate Applies(root: Root) {
    && root.file.Readable? && root.file.state.status.StagedManual?
    && root.file.state.currentVersion in root.disk.dirs
  }

  /** `swap` is what the swap of the symlinks left, and whether it succeeded. */
  function ManualApply(root: Root, swap: Applied, saved: SaveFate): (out: (Root, bool)) {
    if !root.file.Readable? || !root.file.state.status.StagedManual? then (root, false)
    else if root.file.state.currentVersion !in root.disk.dirs then (root, false)
    else if !swap.ok then (root.(disk := swap.disk), false)
    else
      var s := root.file.state.(status := PendingHealth, bootAttempts := 0);
      (Root(swap.disk, AfterSave(root.file, s, saved)), saved.Written?)
  }

  // ── The operations ─────────────────────────────────────────────────

  class Upgrader {
    const disk: Install.Disk
    const store: StateFile
    const running: string

    constructor (disk: Install.Disk, store: StateFile, running: string)
      ensures this.disk == disk && this.store == store && this.running == running
    {
      this.disk, this.store, this.running := disk, store, running;
    }

    ghost predicate Valid()
      reads this, disk, store
    {
      disk.Valid() && store.Valid()
    }

    ghost predicate Faultless()
      reads this, disk, store
    {
      disk.Faultless() && store.Faultless()
    }

    ghost function View(): Root
      reads this, disk, store
    {
      Root(disk.View(), store.file)
    }

    /** Calls are used up and what is logged stays logged. */
    twostate predicate GoneOn()
      reads this, disk, store
    {
      && old(disk.calls) <= disk.calls && old(store.calls) <= store.calls
      && old(disk.log) <= disk.log
    }

    method StageVersion(cfg: Config, r: Request)
      returns (result: StageResult, ghost applied: Applied, ghost saved: SaveFate)
      requires Valid()
      modifies disk, store
      ensures Valid() && GoneOn()
      ensures (View(), result) == Stage(old(View()), cfg, running, r, applied, saved)
      ensures applied.ok ==> applied.disk.current == Some(Version(true, r.version))
      ensures old(Faultless()) ==>
                && saved.Written?
                && applied == Applied(true, Install.Staged(old(disk.View()), r.version, r.now, disk.readDir))
      ensures Safe(old(disk.dirs), old(disk.current)) && Install.Spares(old(disk.current), r.version) ==>
                Install.SoundSince(old(disk.log), disk.log)
      ensures Gate(old(store.file), cfg, r).None? && Install.StartsByRemoving(old(disk.View()), r.version)
              && disk.fate(old(disk.calls)).Works? && disk.fate(old(disk.calls) + 1).FailsPartWay? ==>
                && View() == old(View()).(disk := Install.CutShort(old(disk.View()), r.version))
                && disk.calls == old(disk.calls) + 2
    {
      applied, saved := Applied(true, Install.Staged(disk.View(), r.version, r.now, disk.readDir)), Written;
      var refused := Gate(store.file, cfg, r);
      if refused.Some? {
        return NotStaged(refused.value), applied, saved;
      }
      var ok := disk.StageNewVersion(r.version, r.version, r.now);
      applied := Applied(ok, disk.View());
      if !ok {
        return NotStaged("upgrade_extract_failed"), applied, saved;
      }
      var s := StagedState(store.file, running, r);
      var written: bool;
      written, saved := store.Save(s);
      result := if written then Staged else NotStaged("upgrade_extract_failed");
    }

    method RunBootWatchdog(cfg: Config) returns (outcome: BootOutcome, ghost fate: BootFate)
      requires Valid()
      modifies disk, store
      ensures Valid() && GoneOn()
      ensures (View(), outcome) == Boot(old(View()), cfg, fate)
      ensures old(Faultless()) ==> fate == WORKS
      ensures Install.Sound(old(disk.View())) && Install.Sound(disk.View()) ==>
                Install.SoundSince(old(disk.log), disk.log)
    {
      fate := WORKS;
      if !cfg.enabled || !store.file.Readable? {
        return Continue, fate;
      }
      var s := store.file.state;
      ghost var saved: SaveFate;
      var written: bool;
      match s.status {
        case Stable | StagedManual => return Continue, fate;
        case RolledBack =>
          written, saved := store.Save(s.(status := Stable, bootAttempts := 0));
          fate := fate.(saved := saved);
          return Reported(Unknown(s.previousVersion), s.currentVersion), fate;
        case PendingHealth =>
          var attempts, bump := store.BumpBootAttempts();
          fate := fate.(bump := bump);
          if attempts.None? {
            return Failed, fate;
          }
          if attempts.value <= cfg.maxBootAttempts {
            return Pending(attempts.value), fate;
          }
          var reverted := RevertToPrevious(s);
          fate := fate.(pointed := reverted || !CanRevert(old(View()), s));
          var s' := if reverted
            then s.(currentVersion := s.previousVersion.value, previousVersion := Some(s.currentVersion),
                    status := RolledBack)
            else s.(status := RolledBack);
          written, saved := store.Save(s');
          fate := fate.(saved := saved);
          return ExitForRespawn, fate;
      }
    }

    method RevertToPrevious(s: State) returns (ok: bool)
      requires Valid()
      modifies disk
      ensures disk.Valid() && old(disk.calls) <= disk.calls && old(disk.log) <= disk.log
      ensures ok ==> CanRevert(old(View()), s)
      ensures disk.View() == if ok then old(disk.View()).(current := Some(Version(true, s.previousVersion.value)))
                             else old(disk.View())
      ensures old(disk.Faultless()) ==> (ok <==> CanRevert(old(View()), s))
      ensures Install.Sound(old(disk.View())) && Install.Sound(disk.View()) ==>
                Install.SoundSince(old(disk.log), disk.log)
    {
      if s.previousVersion.None? || s.previousVersion.value !in disk.dirs {
        return false;
      }
      ok := disk.PointCurrentAt(s.previousVersion.value);
    }

    method RecordHealthyBeat(now: int) returns (ghost saved: SaveFate)
      requires Valid()
      modifies store
      ensures Valid() && GoneOn() && View() == Beat(old(View()), now, saved)
      ensures old(Faultless()) ==> saved.Written?
    {
      saved := Written;
      if store.file.Readable? {
        var s := store.file.state;
        if s.status.PendingHealth? {
          s := s.(lastHealthAt := Some(now));
        }
        var written: bool;
        written, saved := store.Save(s);
      }
    }

    method FinalizeIfStable(cfg: Config, now: int) returns (ghost saved: SaveFate)
      requires Valid()
      modifies store
      ensures Valid() && GoneOn() && View() == Finalise(old(View()), cfg, now, saved)
      ensures old(Faultless()) ==> saved.Written?
    {
      saved := Written;
      if !store.file.Readable? || !store.file.state.status.PendingHealth? {
        return;
      }
      var s := store.file.state;
      if s.lastHealthAt.None? {
        return;
      }
      var healthyFor := Max(now - s.stagedAt, 0) % (U32_MAX + 1);
      if healthyFor < cfg.healthWindowSecs {
        return;
      }
      var lag := now - s.lastHealthAt.value;
      if lag > 60 {
        return;
      }
      var written: bool;
      written, saved := store.Save(s.(status := Stable));
    }

    method ManualApplyPending() returns (ok: bool, ghost swap: Applied, ghost saved: SaveFate)
      requires Valid()
      modifies disk, store
      ensures Valid() && GoneOn() && (View(), ok) == ManualApply(old(View()), swap, saved)
      ensures disk.dirs == old(disk.dirs)
      ensures swap.ok && old(Applies(View())) ==> disk.current == Some(Version(true, old(store.file).state.currentVersion))
      ensures !swap.ok ==> disk.current == old(disk.current)
      ensures old(Faultless()) && old(Applies(View())) ==>
                && ok && saved.Written?
                && swap == Applied(true, Install.Swapped(old(disk.View()), old(store.file).state.currentVersion))
      ensures Install.Sound(old(disk.View())) && Install.Sound(disk.View()) ==>
                Install.SoundSince(old(disk.log), disk.log)
    {
      ok, swap, saved := false, Applied(true, disk.View()), Written;
      if !store.file.Readable? || !store.file.state.status.StagedManual? {
        return;
      }
      var s := store.file.state;
      if s.currentVersion !in disk.dirs {
        return;
      }
      var swapped := disk.SwapCurrentSymlink(s.currentVersion);
      swap := Applied(swapped, disk.View());
      if !swapped {
        return;
      }
      ok, saved := store.Save(s.(status := PendingHealth, bootAttempts := 0));
    }
  }
}
