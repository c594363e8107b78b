/** What each operation on the upgrade comes to, told by its conditions alone: when a version is
    staged, and what refuses it; when a boot does nothing; when a beat, a finalise or a manual apply
    takes effect. */
module Outcomes {
  import opened Limits
  import opened Versions
  import opened Upgrade
  import opened Lifecycle
  import Install

  // ── Staging ────────────────────────────────────────────────────────

  /** The manifest's sequence is above that of a record that can be read. */
  predicate NewerSequence(file: File, r: Request) {
    r.admitted.Got? && (file.Readable? ==> r.admitted.value > file.state.lastSequence)
  }

  /** A version is staged exactly if no other stage is under way, upgrades are enabled, the channel is
      allowed, the manifest was got and is newer, the tarball was got, applying is not left to the
      operator, unpacking and swapping worked, and the record was saved. */
  lemma StagedExactly(root: Root, cfg: Config, running: string, r: Request, applied: Applied, saved: SaveFate)
    ensures Stage(root, cfg, running, r, applied, saved).1.Staged? <==>
              && !r.busy && cfg.enabled && r.channelAllowed
              && r.admitted.Got? && NewerSequence(root.file, r)
              && r.tarball.Got? && !cfg.manualOnly
              && applied.ok && saved.Written?
  {
  }

  /** The first check to fail, in the order they are made, gives the refusal its code; and until all
      have passed neither the disk nor the record is touched. */
  lemma FirstRefusal(root: Root, cfg: Config, running: string, r: Request, applied: Applied, saved: SaveFate)
    ensures
      var (after, result) := Stage(root, cfg, running, r, applied, saved);
      if r.busy then after == root && result == NotStaged("upgrade_in_progress")
      else if !cfg.enabled then after == root && result == NotStaged("upgrade_disabled")
      else if !r.channelAllowed then after == root && result == NotStaged("upgrade_channel_not_allowed")
      else if r.admitted.Refused? then after == root && result == NotStaged(r.admitted.code)
      else if !NewerSequence(root.file, r) then after == root && result == NotStaged("upgrade_sequence_too_old")
      else if r.tarball.Refused? then after == root && result == NotStaged(r.tarball.code)
      else if cfg.manualOnly then after == root && result == NotStaged("upgrade_staged_manual")
      else after.disk == applied.disk && (!applied.ok ==> after.file == root.file)
           && (!applied.ok || !saved.Written? ==> result == NotStaged("upgrade_extract_failed"))
  {
  }

  // ── Boots ──────────────────────────────────────────────────────────

  /** A boot touches nothing and goes on unless upgrades are enabled and a readable record is pending
      or rolled back. */
  lemma BootLeavesAlone(root: Root, cfg: Config, fate: BootFate)
    requires !cfg.enabled || !root.file.Readable? || root.file.state.status in {Stable, StagedManual}
    ensures Boot(root, cfg, fate) == (root, Continue)
  {
  }

  /** A boot moves the link only past the limit, and reports or exits only as it settles or rolls
      back. */
  lemma BootActsOnlyThen(root: Root, cfg: Config, fate: BootFate)
    ensures Boot(root, cfg, fate).0.disk != root.disk ==>
              && cfg.enabled && IsPending(root) && CanRevert(root, root.file.state)
              && fate.bump.Bumped? && fate.pointed
              && BumpedState(root.file.state).bootAttempts > cfg.maxBootAttempts
              && Boot(root, cfg, fate).0.disk ==
                 root.disk.(current := Some(Version(true, root.file.state.previousVersion.value)))
    ensures Boot(root, cfg, fate).1.ExitForRespawn? <==>
              && cfg.enabled && IsPending(root) && fate.bump.Bumped?
              && BumpedState(root.file.state).bootAttempts > cfg.maxBootAttempts
    ensures Boot(root, cfg, fate).1.Reported? <==>
              cfg.enabled && root.file.Readable? && root.file.state.status.RolledBack?
    ensures Boot(root, cfg, fate).1.Failed? <==> cfg.enabled && IsPending(root) && !fate.bump.Bumped?
  {
  }

  // ── Beats and finalising ───────────────────────────────────────────

  /** A saved beat shows in the record of a pending version and changes nothing else; any other
      changes nothing. */
  lemma BeatShows(root: Root, now: int, saved: SaveFate)
    ensures IsPending(root) && saved.Written? ==>
              Beat(root, now, saved) == root.(file := Readable(root.file.state.(lastHealthAt := Some(now))))
    ensures !IsPending(root) || !saved.Written? ==> Beat(root, now, saved) == root
  {
  }

  predicate OldEnough(s: State, cfg: Config, now: int) {
    Max(now - s.stagedAt, 0) % (U32_MAX + 1) >= cfg.healthWindowSecs
  }

  /** A finalise whose save works makes a version stable exactly if it is pending, was staged at least
      the health window ago (its age counted as a u32), and the beat on record, made while it was
      pending and since its stage, is from the last minute. */
  lemma FinalisedExactly(states: seq<Root>, ops: seq<Op>, k: nat)
    requires Run(states, ops) && k < |ops| && NoOldBeat(states[0]) && NotStagedManual(states[0])
    requires ops[k].OpFinalise? && ops[k].saved.Written?
    ensures states[k + 1] != states[k] <==>
              && IsPending(states[k]) && OldEnough(states[k].file.state, ops[k].cfg, ops[k].now)
              && exists j: nat :: BeatWhilePending(states, ops, j, k) && ops[k].now - ops[j].now <= 60
    ensures states[k + 1] != states[k] ==>
              states[k].file.Readable? &&
              states[k + 1] == states[k].(file := Readable(states[k].file.state.(status := Stable)))
  {
    assert states[k + 1] == Do(states[k], ops[k]);
    if states[k + 1] != states[k] {
      FinalisedOnlyIfHealthy(states, ops, k);
    }
  }

  // ── Manual apply ───────────────────────────────────────────────────

  /** A manual apply succeeds exactly over a version staged for it whose directory is there, if the
      swap and the save work; and it leaves that version pending, no boot counted. */
  lemma ManualApplyExactly(root: Root, swap: Applied, saved: SaveFate)
    ensures
      var (after, ok) := ManualApply(root, swap, saved);
      && (ok <==>
            && root.file.Readable? && root.file.state.status.StagedManual?
            && root.file.state.currentVersion in root.disk.dirs && swap.ok && saved.Written?)
      && (ok ==> after == Root(swap.disk, Readable(root.file.state.(status := PendingHealth, bootAttempts := 0))))
      && (!Applies(root) ==> after == root)
      && (!ok ==> after.file == root.file)
  {
  }

  // ── The links after a stage ────────────────────────────────────────

  /** Staging with every call working leaves `previous` at what `current` was, unless the version was
      current already, and `current` at the new version. */
  lemma StagedLinks(s: Install.Snapshot, v: string, now: int, readDir: set<string> -> seq<string>)
    requires forall names :: Lists(readDir(names), names)
    ensures
      var after := Install.Staged(s, v, now, readDir);
      && after.current == Some(Version(true, v))
      && (s.current == Some(Version(true, v)) && v in s.dirs ==> after.previous == s.previous)
      && (!(s.current == Some(Version(true, v)) && v in s.dirs) ==>
            after.previous == if s.current.Some? then s.current else s.previous)
      && v in after.dirs && PartialName(v) !in after.dirs
  {
    StagedIsCurrent(s, v, now, readDir);
    PartialIsPartial(v);
    if !(v in s.dirs && s.current == Some(Version(true, v))) {
      var swapped := Install.Swapped(Install.Unpacked(s, v, now), v);
      var listing := readDir(swapped.dirs.Keys);
      assert Lists(listing, swapped.dirs.Keys);
      CollectionKeepsNewest(listing, swapped.dirs, v, Install.KEEP);
    }
  }
}
