/**
 The Node.js runtime of builder/src/prepare_node.c: unpacking an archive beside the
 installed runtime and exchanging the two with rollback, as steps on a disk.
 */
module NodeRuntime {
  import opened FileSystem

  const RUNTIMES := "runtimes"
  const NODE: Path := [RUNTIMES, "node"]
  const INSTALL_PREFIX := ".node-install.tmp."
  const BACKUP_PREFIX := ".node-backup.tmp."

  /** Names of temporary siblings carry a stamp made of the process id and the time. */
  function TemporaryRoot(stamp: string): Path { [RUNTIMES, INSTALL_PREFIX + stamp] }
  function BackupRoot(stamp: string): Path { [RUNTIMES, BACKUP_PREFIX + stamp] }

  /** The runtime that was at the root is still there, or whole in the backup with nothing at the root. */
  ghost predicate Kept(before: Files, now: Files, root: Path, backup: Path) {
    Below(now, root) == Below(before, root) || SetAside(before, now, root, backup)
  }

  ghost predicate SetAside(before: Files, now: Files, root: Path, backup: Path) {
    Below(now, root) == map[] && Below(now, backup) == Below(before, root)
  }

  /** Where a failed exchange leaves the old runtime: at the root, unless putting it back failed. */
  ghost predicate Restored(before: Files, now: Files, root: Path, backup: Path, restoreFailed: bool) {
    if restoreFailed then SetAside(before, now, root, backup) else Below(now, root) == Below(before, root)
  }

  ghost predicate SameOutsideThree(a: Files, b: Files, temporary: Path, root: Path, backup: Path) {
    forall p | !(temporary <= p) && !(root <= p) && !(backup <= p) :: SameAt(a, b, p)
  }

  /** Sets the runtime at the root aside and puts the new one there, or restores the old one. */
  method ExchangeRuntimes(disk: Disk, temporary: Path, root: Path, backup: Path, hadExistingRuntime: bool)
    returns (ok: bool, ghost commit: nat, ghost restoreFailed: bool)
    requires disk.Recorded() && Apart(temporary, root) && Apart(temporary, backup) && Apart(root, backup)
    requires Below(disk.files, backup) == map[] && hadExistingRuntime == (Below(disk.files, root) != map[])
    modifies disk
    ensures disk.Recorded() && old(disk.passed) <= disk.passed && |old(disk.passed)| <= commit <= |disk.passed|
    ensures forall i | |old(disk.passed)| <= i < commit :: Kept(old(disk.files), disk.passed[i], root, backup)
    ensures forall i | commit <= i < |disk.passed| :: Below(disk.passed[i], root) == Below(old(disk.files), temporary)
    ensures ok <==> commit < |disk.passed|
    ensures if ok then Below(disk.files, root) == Below(old(disk.files), temporary)
            else Restored(old(disk.files), disk.files, root, backup, restoreFailed)
    ensures restoreFailed ==> !ok && hadExistingRuntime
    ensures forall i | |old(disk.passed)| <= i < |disk.passed| ::
      SameOutsideThree(old(disk.files), disk.passed[i], temporary, root, backup)
    ensures SameOutsideThree(old(disk.files), disk.files, temporary, root, backup)
  {
    hide Below, Moved, SameOutside, SameOutsideThree;
    ghost var before := disk.files;
    Unchanged(before, temporary, root, backup);
    commit, restoreFailed := |disk.passed|, false;
    if hadExistingRuntime {
      ok := disk.RenameDirectory(root, backup);
      if !ok {
        return;
      }
      MovedArrives(before, root, backup);
      MovedElsewhere(before, root, backup, temporary);
      MovedOutside(before, before, root, backup, temporary, root, backup);
      commit := |disk.passed|;
    }
    ghost var aside := disk.files;
    ok := disk.RenameDirectory(temporary, root);
    if !ok {
      if hadExistingRuntime {
        var restored := disk.RenameDirectory(backup, root);
        restoreFailed := !restored;
        if restored {
          MovedArrives(aside, backup, root);
          MovedOutside(before, aside, backup, root, temporary, root, backup);
          commit := |disk.passed|;
        }
      }
      return;
    }
    MovedArrives(aside, temporary, root);
    MovedOutside(before, aside, temporary, root, temporary, root, backup);
  }

  /**
   The swap of a runtime: up to the commit the old runtime is whole at the root or in the
   backup, from the commit on the new one is whole at the root.  A failure leaves the old
   one at the root, or in the backup when the rename that was to restore it failed as well.
   */
  method ReplaceNodeRuntimeAtomically(disk: Disk, temporary: Path, root: Path, backup: Path)
    returns (ok: bool, ghost commit: nat, ghost restoreFailed: bool)
    requires disk.Recorded() && Apart(temporary, root) && Apart(temporary, backup) && Apart(root, backup)
    modifies disk
    ensures disk.Recorded() && old(disk.passed) <= disk.passed && |old(disk.passed)| <= commit <= |disk.passed|
    ensures forall i | |old(disk.passed)| <= i < commit :: Kept(old(disk.files), disk.passed[i], root, backup)
    ensures forall i | commit <= i < |disk.passed| :: Below(disk.passed[i], root) == Below(old(disk.files), temporary)
    ensures ok <==> commit < |disk.passed|
    ensures if ok then Below(disk.files, root) == Below(old(disk.files), temporary)
            else Restored(old(disk.files), disk.files, root, backup, restoreFailed)
    ensures restoreFailed ==> !ok && Below(old(disk.files), root) != map[]
    ensures forall i | |old(disk.passed)| <= i < |disk.passed| ::
      SameOutsideThree(old(disk.files), disk.passed[i], temporary, root, backup)
    ensures SameOutsideThree(old(disk.files), disk.files, temporary, root, backup)
  {
    hide Below, Moved, SameOutside, SameOutsideThree;
    ghost var before := disk.files;
    Unchanged(before, temporary, root, backup);
    AllRemoved(before, before, backup, temporary, root, backup);
    AllElsewhere(before, backup, root);
    restoreFailed := false;
    ok := disk.RemoveRecursive(backup);
    RemovalElsewhere(before, disk.files, backup, temporary);
    commit := |disk.passed|;
    if !ok {
      return;
    }
    var hadExistingRuntime := Below(disk.files, root) != map[];
    ghost var cleared := disk.files;
    AllChained(before, cleared, temporary, root, backup);
    ok, commit, restoreFailed := ExchangeRuntimes(disk, temporary, root, backup, hadExistingRuntime);
    if ok && hadExistingRuntime {
      ghost var installed := disk.files;
      AllRemoved(before, installed, backup, temporary, root, backup);
      AllElsewhere(installed, backup, root);
      var _ := disk.RemoveRecursive(backup);
    }
  }

  /** The old runtime is whole at the root or in the backup, or the new one is whole at the root. */
  ghost predicate EitherRuntime(before: Files, now: Files, entries: seq<(Path, string)>, stamp: string) {
    Kept(before, now, NODE, BackupRoot(stamp)) || Below(now, NODE) == Tree(entries)
  }

  ghost predicate SameButRuntime(a: Files, b: Files, stamp: string) {
    SameOutsideThree(a, b, TemporaryRoot(stamp), NODE, BackupRoot(stamp))
  }

  /** Unpacks the archive beside the runtime and swaps; a failure removes what was unpacked. */
  method InstallNodeRuntime(disk: Disk, entries: seq<(Path, string)>, stamp: string)
    returns (ok: bool, ghost restoreFailed: bool)
    requires disk.Recorded()
    modifies disk
    ensures disk.Recorded() && old(disk.passed) <= disk.passed
    ensures forall i | |old(disk.passed)| <= i < |disk.passed| :: SameButRuntime(old(disk.files), disk.passed[i], stamp)
    ensures SameButRuntime(old(disk.files), disk.files, stamp)
    ensures forall i | |old(disk.passed)| <= i < |disk.passed| :: EitherRuntime(old(disk.files), disk.passed[i], entries, stamp)
    ensures if ok then Below(disk.files, NODE) == Tree(entries)
            else Restored(old(disk.files), disk.files, NODE, BackupRoot(stamp), restoreFailed)
  {
    hide Below, SameOutside, SameOutsideThree, Overlay, Kept, Restored, EitherRuntime;
    var temporary, backup := TemporaryRoot(stamp), BackupRoot(stamp);
    RootsApart(stamp);
    ghost var before := disk.files;
    Unchanged(before, temporary, NODE, backup);
    AllRemoved(before, before, temporary, temporary, NODE, backup);
    StillEither(before, before, entries, stamp);
    StillRestored(before, before, false, stamp);
    restoreFailed := false;
    ok := disk.RemoveRecursive(temporary);
    if !ok {
      return;
    }
    ghost var cleared := disk.files;
    AllRemoved(before, cleared, temporary, temporary, NODE, backup);
    StillEither(before, cleared, entries, stamp);
    StillRestored(before, cleared, false, stamp);
    ok := disk.WriteAll(temporary, entries);
    if ok {
      OverlayBelow(cleared, temporary, entries);
      ghost var unpacked := disk.files;
      AllChained(before, unpacked, temporary, NODE, backup);
      SwapsEither(before, cleared, unpacked, entries, stamp);
      ghost var commit;
      ok, commit, restoreFailed := ReplaceNodeRuntimeAtomically(disk, temporary, NODE, backup);
    }
    if !ok {
      ghost var left := disk.files;
      AllRemoved(before, left, temporary, temporary, NODE, backup);
      StillEither(before, left, entries, stamp);
      StillRestored(before, left, restoreFailed, stamp);
      var _ := disk.RemoveRecursive(temporary);
    }
  }

  // --------------------------------------------------- what the parts leave alone

  lemma Unchanged(files: Files, temporary: Path, root: Path, backup: Path)
    ensures SameOutsideThree(files, files, temporary, root, backup)
  {
  }

  lemma AllRemoved(before: Files, middle: Files, changed: Path, temporary: Path, root: Path, backup: Path)
    requires SameOutsideThree(before, middle, temporary, root, backup) && changed in {temporary, root, backup}
    ensures forall after :: SameOutside(middle, after, changed) ==> SameOutsideThree(before, after, temporary, root, backup)
  {
    forall after | SameOutside(middle, after, changed) ensures SameOutsideThree(before, after, temporary, root, backup) {
      forall p | !(temporary <= p) && !(root <= p) && !(backup <= p) ensures SameAt(before, after, p) {
        assert SameAt(before, middle, p) && SameAt(middle, after, p);
      }
    }
  }

  lemma AllChained(before: Files, middle: Files, temporary: Path, root: Path, backup: Path)
    requires SameOutsideThree(before, middle, temporary, root, backup)
    ensures forall after :: SameOutsideThree(middle, after, temporary, root, backup) ==>
      SameOutsideThree(before, after, temporary, root, backup)
  {
    forall after | SameOutsideThree(middle, after, temporary, root, backup)
      ensures SameOutsideThree(before, after, temporary, root, backup) {
      forall p | !(temporary <= p) && !(root <= p) && !(backup <= p) ensures SameAt(before, after, p) {
        assert SameAt(before, middle, p) && SameAt(middle, after, p);
      }
    }
  }

  lemma AllElsewhere(before: Files, removed: Path, root: Path)
    requires Apart(removed, root)
    ensures forall after :: SameOutside(before, after, removed) ==> Below(after, root) == Below(before, root)
  {
    hide Below, SameOutside;
    forall after | SameOutside(before, after, removed) ensures Below(after, root) == Below(before, root) {
      RemovalElsewhere(before, after, removed, root);
    }
  }

  lemma MovedOutside(before: Files, files: Files, source: Path, target: Path, temporary: Path, root: Path, backup: Path)
    requires SameOutsideThree(before, files, temporary, root, backup)
    requires source in {temporary, root, backup} && target in {temporary, root, backup}
    requires Apart(source, target) && Below(files, target) == map[]
    ensures SameOutsideThree(before, Moved(files, source, target), temporary, root, backup)
  {
    hide Moved, Below;
    forall p | !(temporary <= p) && !(root <= p) && !(backup <= p) ensures SameAt(before, Moved(files, source, target), p) {
      MovedHas(files, source, target, p);
      assert SameAt(before, files, p);
    }
  }

  lemma RootsApart(stamp: string)
    ensures Apart(TemporaryRoot(stamp), NODE) && Apart(TemporaryRoot(stamp), BackupRoot(stamp)) && Apart(NODE, BackupRoot(stamp))
  {
    var t, b, n := TemporaryRoot(stamp), BackupRoot(stamp), NODE;
    assert t[1][0] == '.' && b[1][0] == '.' && n[1][0] == 'n';
    assert t[1][6] == 'i' && b[1][6] == 'b';
  }

  /** Changes below the temporary root leave both runtimes alone. */
  lemma StillEither(before: Files, middle: Files, entries: seq<(Path, string)>, stamp: string)
    requires middle == before || EitherRuntime(before, middle, entries, stamp)
    ensures forall after :: SameOutside(middle, after, TemporaryRoot(stamp)) ==> EitherRuntime(before, after, entries, stamp)
    ensures EitherRuntime(before, middle, entries, stamp)
  {
    hide Below, SameOutside;
    RootsApart(stamp);
    AllElsewhere(middle, TemporaryRoot(stamp), NODE);
    AllElsewhere(middle, TemporaryRoot(stamp), BackupRoot(stamp));
  }

  lemma StillRestored(before: Files, middle: Files, restoreFailed: bool, stamp: string)
    requires (middle == before && !restoreFailed) || Restored(before, middle, NODE, BackupRoot(stamp), restoreFailed)
    ensures forall after :: SameOutside(middle, after, TemporaryRoot(stamp)) ==>
      Restored(before, after, NODE, BackupRoot(stamp), restoreFailed)
    ensures Restored(before, middle, NODE, BackupRoot(stamp), restoreFailed)
  {
    hide Below, SameOutside;
    RootsApart(stamp);
    AllElsewhere(middle, TemporaryRoot(stamp), NODE);
    AllElsewhere(middle, TemporaryRoot(stamp), BackupRoot(stamp));
  }

  /** The swap starts with the old runtime at the root, so what it keeps of that is kept of the beginning. */
  lemma SwapsEither(before: Files, cleared: Files, unpacked: Files, entries: seq<(Path, string)>, stamp: string)
    requires SameOutside(before, cleared, TemporaryRoot(stamp)) && SameOutside(cleared, unpacked, TemporaryRoot(stamp))
    ensures forall after :: Kept(unpacked, after, NODE, BackupRoot(stamp)) ==> EitherRuntime(before, after, entries, stamp)
    ensures forall after :: Below(after, NODE) == Tree(entries) ==> EitherRuntime(before, after, entries, stamp)
    ensures forall after, failed :: Restored(unpacked, after, NODE, BackupRoot(stamp), failed) ==>
      Restored(before, after, NODE, BackupRoot(stamp), failed)
  {
    hide Below, SameOutside;
    RootsApart(stamp);
    RemovalElsewhere(before, cleared, TemporaryRoot(stamp), NODE);
    RemovalElsewhere(cleared, unpacked, TemporaryRoot(stamp), NODE);
  }
}
