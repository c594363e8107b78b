/** The install root on disk (`apply.rs`), one file-system call at a time. Any call may fail, and
    removing or filling a directory may fail part-way; `fate` decides. Every state the disk passes
    through is logged, so what holds of the log holds wherever the process is cut off. */
module Install {
  import opened Limits
  import opened Versions

  datatype Fate = Works | Fails | FailsPartWay

  /** What is on disk at one moment. */
  datatype Snapshot = Snapshot(dirs: Dirs, current: Option<Target>, previous: Option<Target>)

  const KEEP: nat := 3

  predicate Sound(s: Snapshot) {
    Safe(s.dirs, s.current)
  }

  /** Everything logged since was sound. */
  ghost predicate SoundSince(before: seq<Snapshot>, log: seq<Snapshot>) {
    before <= log && forall k | |before| <= k < |log| :: Sound(log[k])
  }

  lemma SoundOn(a: seq<Snapshot>, b: seq<Snapshot>, c: seq<Snapshot>)
    requires a <= b <= c
    ensures SoundSince(a, c) <==> SoundSince(a, b) && SoundSince(b, c)
  {
    assert forall k | 0 <= k < |b| :: b[k] == c[k];
  }

  /** If something was logged since, the last of it was sound. */
  lemma LastIsSound(before: seq<Snapshot>, log: seq<Snapshot>, now: Snapshot)
    requires before != [] && log != [] && log[|log| - 1] == now
    ensures SoundSince(before, log) && Sound(before[|before| - 1]) ==> Sound(now)
  {
  }

  predicate PointsAt(current: Option<Target>, name: string) {
    current.Some? && current.value.Version? && current.value.name == name
  }

  /** Whether staging `v` leaves alone the directory `current` points at: it must not be the
      partial directory of `v`, nor `v` itself by a relative path, which staging does not know for
      the same directory. */
  predicate Spares(current: Option<Target>, v: string) {
    && !PointsAt(current, PartialName(v))
    && (PointsAt(current, v) ==> current.value.absolute)
  }

  // ── Staging, when every call works ─────────────────────────────────

  function Swapped(s: Snapshot, v: string): Snapshot {
    s.(current := Some(Version(true, v)), previous := if s.current.Some? then s.current else s.previous)
  }

  function Unpacked(s: Snapshot, v: string, now: int): Snapshot {
    s.(dirs := (s.dirs - {PartialName(v)})[v := Dir(Ready, now)])
  }

  /** What is left when removing a directory fails part-way. */
  function CutShort(s: Snapshot, name: string): Snapshot
    requires name in s.dirs
  {
    s.(dirs := s.dirs[name := s.dirs[name].(content := Incomplete)])
  }

  /** Staging a version that is there, and that `current` is not known to point at, begins by removing
      it. */
  predicate StartsByRemoving(s: Snapshot, v: string) {
    v in s.dirs && PartialName(v) !in s.dirs && s.current != Some(Version(true, v))
  }

  /** What staging makes of the disk. A version already in place and current is left as it is. */
  ghost function Staged(s: Snapshot, v: string, now: int, readDir: set<string> -> seq<string>): Snapshot
    requires forall names :: Lists(readDir(names), names)
  {
    if v in s.dirs && s.current == Some(Version(true, v)) then s.(dirs := s.dirs - {PartialName(v)})
    else
      var swapped := Swapped(Unpacked(s, v, now), v);
      assert Lists(readDir(swapped.dirs.Keys), swapped.dirs.Keys);
      swapped.(dirs := Collected(readDir(swapped.dirs.Keys), swapped.dirs, v, KEEP))
  }

  class Disk {
    var dirs: Dirs
    var current: Option<Target>
    var previous: Option<Target>
    var tmp: Option<Target>
    const fate: nat -> Fate
    var calls: nat
    const readDir: set<string> -> seq<string>
    ghost var log: seq<Snapshot>

    ghost function View(): Snapshot
      reads this
    {
      Snapshot(dirs, current, previous)
    }

    /** The disk as it is now is the last thing logged, and listings list. */
    ghost predicate Valid()
      reads this
    {
      && log != [] && log[|log| - 1] == View()
      && forall names :: Lists(readDir(names), names)
    }

    /** No call fails from here on. */
    ghost predicate Faultless()
      reads this
    {
      forall k | k >= calls :: fate(k).Works?
    }

    constructor (dirs: Dirs, current: Option<Target>, previous: Option<Target>, tmp: Option<Target>,
                 fate: nat -> Fate, readDir: set<string> -> seq<string>)
      requires forall names :: Lists(readDir(names), names)
      ensures Valid() && View() == Snapshot(dirs, current, previous)
      ensures this.fate == fate && this.readDir == readDir && calls == 0
    {
      this.dirs, this.current, this.previous, this.tmp := dirs, current, previous, tmp;
      this.fate, this.readDir, calls := fate, readDir, 0;
      log := [Snapshot(dirs, current, previous)];
    }

    // ── File-system calls ──────────────────────────────────────────────

    method NextFate() returns (f: Fate)
      modifies this`calls
      ensures f == fate(old(calls)) && calls == old(calls) + 1
    {
      f := fate(calls);
      calls := calls + 1;
    }

    /** Removing a directory and all it holds is many calls: on the way, or if it fails part-way,
        the directory is there and incomplete. */
    method RemoveDirAll(name: string) returns (ok: bool)
      requires Valid()
      modifies this`calls, this`dirs, this`log
      ensures Valid() && calls == old(calls) + 1
      ensures dirs - {name} == old(dirs) - {name}
      ensures fate(old(calls)).FailsPartWay? && name in old(dirs) ==> !ok && View() == CutShort(old(View()), name)
      ensures old(Faultless()) ==> dirs == old(dirs) - {name} && (ok <==> name in old(dirs))
      ensures ok ==> dirs == old(dirs) - {name}
      ensures Safe(old(dirs), current) && !PointsAt(current, name) ==> SoundSince(old(log), log)
      ensures old(Faultless()) && PointsAt(current, name) && name in old(dirs) ==>
                old(log) < log && !Sound(log[|old(log)|])
      ensures old(log) <= log
    {
      var f := NextFate();
      ok := name in dirs && f.Works?;
      if name in dirs && !f.Fails? {
        dirs := dirs[name := dirs[name].(content := Incomplete)];
        log := log + [View()];
        if ok {
          dirs := dirs - {name};
          log := log + [View()];
        }
      }
    }

    method CreateDir(name: string, now: int) returns (ok: bool)
      requires Valid()
      modifies this`calls, this`dirs, this`log
      ensures Valid() && old(calls) < calls && log == old(log) + [View()]
      ensures dirs == if ok then old(dirs)[name := Dir(Incomplete, now)] else old(dirs)
      ensures ok ==> name !in old(dirs)
      ensures old(Faultless()) ==> (ok <==> name !in old(dirs))
      ensures Safe(old(dirs), current) && !PointsAt(current, name) ==> Safe(dirs, current)
    {
      var f := NextFate();
      ok := name !in dirs && f.Works?;
      if ok {
        dirs := dirs[name := Dir(Incomplete, now)];
      }
      log := log + [View()];
    }

    /** Extracting the tarball into a directory, or finding and placing the binary in it. */
    method Fill(name: string, content: Content, now: int) returns (ok: bool)
      requires Valid() && name in dirs
      modifies this`calls, this`dirs, this`log
      ensures Valid() && old(calls) < calls && log == old(log) + [View()]
      ensures ok ==> dirs == old(dirs)[name := Dir(content, now)]
      ensures !ok ==> dirs == old(dirs)[name := old(dirs)[name].(content := Incomplete)]
      ensures old(Faultless()) ==> ok
      ensures Safe(old(dirs), current) && !PointsAt(current, name) ==> Safe(dirs, current)
    {
      var f := NextFate();
      ok := f.Works?;
      dirs := dirs[name := if ok then Dir(content, now) else dirs[name].(content := Incomplete)];
      log := log + [View()];
    }

    method RenameDir(from: string, to: string) returns (ok: bool)
      requires Valid() && from in dirs && from != to
      modifies this`calls, this`dirs, this`log
      ensures Valid() && old(calls) < calls && log == old(log) + [View()]
      ensures dirs == if ok then (old(dirs) - {from})[to := old(dirs)[from]] else old(dirs)
      ensures old(Faultless()) && to !in old(dirs) ==> ok
      ensures Safe(old(dirs), current) && !PointsAt(current, from) && !PointsAt(current, to) ==> Safe(dirs, current)
    {
      var f := NextFate();
      ok := to !in dirs && f.Works?;
      if ok {
        dirs := (dirs - {from})[to := dirs[from]];
      }
      log := log + [View()];
    }

    method RemovePrevious()
      requires Valid()
      modifies this`calls, this`previous, this`log
      ensures Valid() && old(calls) < calls && log == old(log) + [View()]
      ensures old(Faultless()) ==> previous.None?
    {
      var f := NextFate();
      if f.Works? {
        previous := None;
      }
      log := log + [View()];
    }

    method SymlinkPrevious(target: Target) returns (ok: bool)
      requires Valid()
      modifies this`calls, this`previous, this`log
      ensures Valid() && old(calls) < calls && log == old(log) + [View()]
      ensures previous == if ok then Some(target) else old(previous)
      ensures old(Faultless()) && old(previous).None? ==> ok
    {
      var f := NextFate();
      ok := previous.None? && f.Works?;
      if ok {
        previous := Some(target);
      }
      log := log + [View()];
    }

    method RemoveTmp()
      requires Valid()
      modifies this`calls, this`tmp
      ensures Valid() && old(calls) < calls
      ensures old(Faultless()) ==> tmp.None?
    {
      var f := NextFate();
      if f.Works? {
        tmp := None;
      }
    }

    method SymlinkTmp(target: Target) returns (ok: bool)
      requires Valid()
      modifies this`calls, this`tmp
      ensures Valid() && old(calls) < calls
      ensures ok ==> tmp == Some(target)
      ensures old(Faultless()) && old(tmp).None? ==> ok
    {
      var f := NextFate();
      ok := tmp.None? && f.Works?;
      if ok {
        tmp := Some(target);
      }
    }

    method RenameTmpToCurrent() returns (ok: bool)
      requires Valid() && tmp.Some?
      modifies this`calls, this`tmp, this`current, this`log
      ensures Valid() && old(calls) < calls && log == old(log) + [View()]
      ensures current == if ok then old(tmp) else old(current)
      ensures old(Faultless()) ==> ok
    {
      var f := NextFate();
      ok := f.Works?;
      if ok {
        current, tmp := tmp, None;
      }
      log := log + [View()];
    }

    // ── swap_current_symlink ───────────────────────────────────────────

    /** The last two steps of a swap or a revert: a new link beside `current`, renamed over it. */
    method PointCurrentAt(v: string) returns (ok: bool)
      requires Valid()
      modifies this`calls, this`tmp, this`current, this`log
      ensures Valid() && old(calls) < calls
      ensures current == if ok then Some(Version(true, v)) else old(current)
      ensures old(Faultless()) ==> ok
      ensures old(log) <= log
      ensures Safe(dirs, old(current)) && Safe(dirs, current) ==> SoundSince(old(log), log)
    {
      RemoveTmp();
      ok := SymlinkTmp(Version(true, v));
      if ok {
        ok := RenameTmpToCurrent();
      }
    }

    method SwapCurrentSymlink(v: string) returns (ok: bool)
      requires Valid()
      modifies this`calls, this`tmp, this`current, this`previous, this`log
      ensures Valid() && old(calls) < calls
      ensures current == if ok then Some(Version(true, v)) else old(current)
      ensures old(Faultless()) ==> ok && View() == Swapped(old(View()), v)
      ensures ok ==> previous == if old(current).Some? then old(current) else old(previous)
      ensures old(log) <= log
      ensures Safe(dirs, old(current)) && Safe(dirs, current) ==> SoundSince(old(log), log)
    {
      if current.Some? {
        RemovePrevious();
        ok := SymlinkPrevious(current.value);
        if !ok {
          return;
        }
      }
      ok := PointCurrentAt(v);
    }

    // ── gc_versions ────────────────────────────────────────────────────

    /** Removing a directory other than the pinned one, come what may. */
    method Discard(name: string, ghost at: Dirs, ghost pinned: string)
      requires Valid() && name != pinned && Pinned(at, dirs, pinned)
      modifies this`calls, this`dirs, this`log
      ensures Valid() && old(calls) <= calls
      ensures old(Faultless()) ==> dirs == old(dirs) - {name}
      ensures Pinned(at, dirs, pinned)
      ensures old(log) <= log
      ensures Safe(old(dirs), current) && PointsAt(current, pinned) ==> SoundSince(old(log), log) && Safe(dirs, current)
    {
      var _ := RemoveDirAll(name);
      PinnedStays(at, old(dirs), dirs, pinned, name);
    }

    /** The first pass of `gc_versions`: partial directories go, and the rest is collected. */
    method RemovePartials(listing: seq<string>, pinned: string) returns (entries: seq<string>)
      requires Valid()
      modifies this`calls, this`dirs, this`log
      ensures Valid() && old(calls) <= calls
      ensures entries == Candidates(listing, pinned)
      ensures old(Faultless()) ==> dirs == WithoutPartials(old(dirs), listing, pinned)
      ensures Pinned(old(dirs), dirs, pinned)
      ensures old(log) <= log
      ensures Safe(old(dirs), current) && PointsAt(current, pinned) ==> SoundSince(old(log), log) && Safe(dirs, current)
    {
      ghost var at := dirs;
      var k := 0;
      entries := [];
      while k < |listing|
        invariant k <= |listing| && Valid() && old(calls) <= calls
        invariant entries == Candidates(listing[..k], pinned)
        invariant Pinned(at, dirs, pinned)
        invariant old(Faultless()) ==> dirs == WithoutPartials(at, listing[..k], pinned)
        invariant old(log) <= log
        invariant Safe(at, current) && PointsAt(current, pinned) ==> SoundSince(old(log), log) && Safe(dirs, current)
      {
        CandidatesStep(listing, k, pinned);
        WithoutPartialsStep(at, listing, k, pinned);
        ghost var before := log;
        entries := Visit(listing[k], entries, at, pinned);
        SoundOn(old(log), before, log);
        k := k + 1;
      }
      assert listing[..k] == listing;
    }

    method Visit(name: string, entries: seq<string>, ghost at: Dirs, pinned: string) returns (more: seq<string>)
      requires Valid() && Pinned(at, dirs, pinned)
      modifies this`calls, this`dirs, this`log
      ensures Valid() && old(calls) <= calls
      ensures more == entries + if name == pinned || IsPartial(name) then [] else [name]
      ensures old(Faultless()) ==> dirs == if name != pinned && IsPartial(name) then old(dirs) - {name} else old(dirs)
      ensures Pinned(at, dirs, pinned)
      ensures old(log) <= log
      ensures Safe(old(dirs), current) && PointsAt(current, pinned) ==> SoundSince(old(log), log) && Safe(dirs, current)
    {
      more := entries;
      if name != pinned {
        if IsPartial(name) {
          Discard(name, at, pinned);
        } else {
          more := more + [name];
        }
      }
    }

    /** The second pass: all but the first `keep` go. */
    method RemoveAfter(sorted: seq<string>, keep: nat, ghost pinned: string)
      requires Valid() && pinned !in sorted
      modifies this`calls, this`dirs, this`log
      ensures Valid() && old(calls) <= calls
      ensures old(Faultless()) ==> dirs == old(dirs) - (set n | n in sorted[Min(keep, |sorted|)..])
      ensures Pinned(old(dirs), dirs, pinned)
      ensures old(log) <= log
      ensures Safe(old(dirs), current) && PointsAt(current, pinned) ==> SoundSince(old(log), log) && Safe(dirs, current)
    {
      ghost var at := dirs;
      var from := Min(keep, |sorted|);
      var r := from;
      while r < |sorted|
        invariant from <= r <= |sorted| && Valid() && old(calls) <= calls
        invariant Pinned(at, dirs, pinned)
        invariant old(Faultless()) ==> dirs == at - (set n | n in sorted[from..r])
        invariant old(log) <= log
        invariant Safe(at, current) && PointsAt(current, pinned) ==> SoundSince(old(log), log) && Safe(dirs, current)
      {
        assert sorted[r] in sorted;
        Discard(sorted[r], at, pinned);
        assert sorted[from..r + 1] == sorted[from..r] + [sorted[r]];
        r := r + 1;
      }
      assert sorted[from..r] == sorted[from..];
    }

    method GcVersions(pinned: string, keep: nat)
      requires Valid()
      modifies this`calls, this`dirs, this`log
      ensures Valid() && old(calls) <= calls
      ensures old(Faultless()) ==>
                Lists(readDir(old(dirs).Keys), old(dirs).Keys) &&
                dirs == Collected(readDir(old(dirs).Keys), old(dirs), pinned, keep)
      ensures Pinned(old(dirs), dirs, pinned)
      ensures old(log) <= log
      ensures Safe(old(dirs), current) && PointsAt(current, pinned) ==> SoundSince(old(log), log)
    {
      var f := NextFate();
      if !f.Works? {
        return;
      }
      var listing, at := readDir(dirs.Keys), dirs;
      assert Lists(listing, at.Keys);
      var entries := RemovePartials(listing, pinned);
      ghost var mid := log;
      var sorted := NewestFirst(entries, at);
      RemoveAfter(sorted, keep, pinned);
      SoundOn(old(log), mid, log);
      PassesCollect(at, listing, pinned, keep);
    }

    // ── stage_new_version ──────────────────────────────────────────────

    /** Unpacking the tarball beside the versions, and renaming it into place. */
    method Unpack(v: string, now: int) returns (ok: bool)
      requires Valid() && v !in dirs && PartialName(v) !in dirs
      modifies this`calls, this`dirs, this`log
      ensures Valid() && old(calls) <= calls
      ensures ok ==> dirs == old(dirs)[v := Dir(Ready, now)]
      ensures old(Faultless()) ==> ok
      ensures old(log) <= log
      ensures Safe(old(dirs), current) && !PointsAt(current, v) && !PointsAt(current, PartialName(v)) ==>
                SoundSince(old(log), log)
    {
      var partial := PartialName(v);
      ok := CreateDir(partial, now);
      if !ok {
        return;
      }
      ok := Fill(partial, Extracted, now);
      if !ok {
        return;
      }
      ok := Fill(partial, Ready, now);
      if !ok {
        return;
      }
      assert dirs == old(dirs)[partial := Dir(Ready, now)];
      ok := RenameDir(partial, v);
    }

    /** Making room for a version: its partial directory goes, and so does the version itself
        unless it is the one `current` is known to point at. */
    method MakeRoom(v: string) returns (ok: bool, inPlace: bool)
      requires Valid()
      modifies this`calls, this`dirs, this`log
      ensures Valid() && old(calls) <= calls && old(log) <= log
      ensures Safe(old(dirs), current) && Spares(current, v) ==> SoundSince(old(log), log) && Safe(dirs, current)
      ensures Safe(old(dirs), current) && !Spares(current, v) && old(Faultless()) ==> !SoundSince(old(log), log)
      ensures old(Faultless()) ==> ok
      ensures StartsByRemoving(old(View()), v) && fate(old(calls)).FailsPartWay? ==>
                !ok && calls == old(calls) + 1 && View() == CutShort(old(View()), v)
      ensures ok ==> (inPlace <==> v in old(dirs) && current == Some(Version(true, v)))
      ensures ok ==> dirs == old(dirs) - (if inPlace then {PartialName(v)} else {v, PartialName(v)})
    {
      var partial := PartialName(v);
      ok, inPlace := true, false;
      if partial in dirs {
        ok := RemoveDirAll(partial);
        if !ok {
          return;
        }
      }
      assert dirs == old(dirs) - {partial};
      if v in dirs {
        inPlace := current == Some(Version(true, v));
        if !inPlace {
          ok := RemoveDirAll(v);
        }
      }
    }

    /** Staging a version. However many of its calls fail, and wherever it is cut off, `current`
        still points at a complete version if staging spares what it points at; and if it does not,
        a run in which every call works passes through a state where it does not. */
    method StageNewVersion(v: string, manifestVersion: string, now: int) returns (ok: bool)
      requires Valid()
      modifies this`calls, this`dirs, this`tmp, this`current, this`previous, this`log
      ensures Valid() && old(calls) <= calls && old(log) <= log
      ensures Safe(old(dirs), old(current)) && Spares(old(current), v) ==> SoundSince(old(log), log)
      ensures Safe(old(dirs), old(current)) && !Spares(old(current), v) && old(Faultless()) && v == manifestVersion ==>
                !SoundSince(old(log), log)
      ensures ok ==> v == manifestVersion && current == Some(Version(true, v))
      ensures old(Faultless()) ==> (ok <==> v == manifestVersion)
      ensures old(Faultless()) && ok ==> View() == Staged(old(View()), v, now, readDir)
      ensures v == manifestVersion && StartsByRemoving(old(View()), v)
              && fate(old(calls)).Works? && fate(old(calls) + 1).FailsPartWay? ==>
                !ok && calls == old(calls) + 2 && View() == CutShort(old(View()), v)
    {
      if v != manifestVersion {
        return false;
      }
      var f := NextFate();  // create_dir_all of `versions`
      if !f.Works? {
        return false;
      }
      var inPlace: bool;
      ok, inPlace := MakeRoom(v);
      if !ok || inPlace {
        return;
      }
      ghost var roomy := View();
      ghost var made := log;
      assert Unpacked(old(View()), v, now).dirs == roomy.dirs[v := Dir(Ready, now)];
      ok := PutInPlace(v, now);
      SoundOn(old(log), made, log);
    }

    /** The rest of staging, with room made: unpack, swap, and collect old versions. */
    method PutInPlace(v: string, now: int) returns (ok: bool)
      requires Valid() && v !in dirs && PartialName(v) !in dirs
      modifies this`calls, this`dirs, this`tmp, this`current, this`previous, this`log
      ensures Valid() && old(calls) <= calls && old(log) <= log
      ensures Safe(old(dirs), old(current)) ==> SoundSince(old(log), log)
      ensures ok ==> current == Some(Version(true, v))
      ensures old(Faultless()) ==> ok
      ensures old(Faultless()) ==>
                var swapped := Swapped(old(View()).(dirs := old(dirs)[v := Dir(Ready, now)]), v);
                && Lists(readDir(swapped.dirs.Keys), swapped.dirs.Keys)
                && View() == swapped.(dirs := Collected(readDir(swapped.dirs.Keys), swapped.dirs, v, KEEP))
    {
      ok := Unpack(v, now);
      if !ok {
        return;
      }
      ok := SwapCurrentSymlink(v);
      if !ok {
        return;
      }
      GcVersions(v, KEEP);
    }
  }

  /** The pinned version is as it was. */
  ghost predicate Pinned(at: Dirs, dirs: Dirs, pinned: string) {
    && (pinned in at <==> pinned in dirs)
    && (pinned in at ==> dirs[pinned] == at[pinned])
  }

  lemma PinnedStays(at: Dirs, was: Dirs, dirs: Dirs, pinned: string, name: string)
    requires Pinned(at, was, pinned) && dirs - {name} == was - {name} && name != pinned
    ensures Pinned(at, dirs, pinned)
  {
    assert pinned in dirs <==> pinned in dirs - {name};
    assert pinned in was <==> pinned in was - {name};
    assert pinned in dirs ==> dirs[pinned] == (dirs - {name})[pinned];
  }

  ghost function WithoutPartials(at: Dirs, seen: seq<string>, pinned: string): Dirs {
    map n | n in at && !(n in seen && n != pinned && IsPartial(n)) :: at[n]
  }

  /** The two passes together collect. */
  lemma PassesCollect(at: Dirs, listing: seq<string>, pinned: string, keep: nat)
    requires Lists(listing, at.Keys)
    ensures
      var sorted := NewestFirst(Candidates(listing, pinned), at);
      WithoutPartials(at, listing, pinned) - (set n | n in sorted[Min(keep, |sorted|)..])
      == Collected(listing, at, pinned, keep)
  {
  }

  lemma WithoutPartialsStep(at: Dirs, listing: seq<string>, k: nat, pinned: string)
    requires k < |listing|
    ensures WithoutPartials(at, listing[..k + 1], pinned) ==
            if listing[k] != pinned && IsPartial(listing[k])
            then WithoutPartials(at, listing[..k], pinned) - {listing[k]}
            else WithoutPartials(at, listing[..k], pinned)
  {
    assert listing[..k + 1] == listing[..k] + [listing[k]];
  }

  lemma {:induction false} CandidatesConcat(a: seq<string>, b: seq<string>, pinned: string)
    ensures Candidates(a + b, pinned) == Candidates(a, pinned) + Candidates(b, pinned)
  {
    if a == [] {
      assert a + b == b;
    } else {
      assert (a + b)[1..] == a[1..] + b;
      CandidatesConcat(a[1..], b, pinned);
    }
  }

  lemma CandidatesStep(listing: seq<string>, k: nat, pinned: string)
    requires k < |listing|
    ensures Candidates(listing[..k + 1], pinned) ==
            Candidates(listing[..k], pinned)
            + if listing[k] == pinned || IsPartial(listing[k]) then [] else [listing[k]]
  {
    assert listing[..k + 1] == listing[..k] + [listing[k]];
    CandidatesConcat(listing[..k], [listing[k]], pinned);
  }
}
