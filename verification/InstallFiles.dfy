/** The install transaction as the code runs it: file objects updated in place (`InstallFile`, `commit_locked`). */
module InstallFiles {
  import opened Prelude
  import opened Install
  import opened InstallOutcome

  class InstallFile {
    var live: Slot
    const original: Slot
    const desired: Option<Bytes>
    var published: Option<Stamp>
    var backup: Option<Slot>
    var backupStamp: Option<Stamp>
    var temporary: bool
    var changed: bool

    constructor (live: Slot, original: Slot, desired: Option<Bytes>)
      ensures Fresh(State())
      ensures this.live == live && this.original == original && this.desired == desired
    {
      this.live, this.original, this.desired := live, original, desired;
      published, backup, backupStamp, temporary, changed := None, None, None, false, false;
    }

    function State(): Edit
      reads this
    {
      Edit(live, original, desired, published, backup, backupStamp, temporary, changed)
    }

    method Revalidate(expected: Option<Stamp>) returns (ok: bool)
      ensures ok == State().Holds(expected)
    {
      match (live, expected) {
        case (Some(f), Some(stamp)) => ok := f.stamp == stamp;
        case (None, None) => ok := true;
        case _ => ok := false;
      }
    }

    method SaveBackup(io: PublishIo) returns (ok: bool)
      modifies this
      ensures (State(), ok) == Install.SaveBackup(old(State()), io)
    {
      if original.None? {
        return true;
      }
      if io.fault == BackupOpen {
        return false;
      }
      if io.fault == BackupWrite {
        backup := Some(Some(File(io.backupStamp, io.partial)));
        return false;
      }
      backup := Some(Some(File(io.backupStamp, original.value.bytes)));
      if io.fault == BackupSync || io.fault == BackupStat {
        return false;
      }
      backupStamp := Some(io.backupStamp);
      return io.fault != BackupParentSync;
    }

    /** Writes the staging file and renames it over the path; a staging file that is not renamed is removed. */
    method Stage(bytes: Bytes, io: PublishIo) returns (ok: bool)
      requires !temporary
      modifies this
      ensures (State(), ok) == Install.Stage(old(State()), bytes, io)
    {
      if io.fault == StageOpen {
        return false;
      }
      temporary := true;
      if io.fault in {StageWrite, StageMode, StageSync, ThirdCheck, Rename} {
        if io.temporaryRemoved {
          temporary := false;
        }
        return false;
      }
      live := Some(File(io.stagedStamp, bytes));
      changed := true;
      temporary := false;
      if io.fault == PublishedStat {
        return false;
      }
      published := Some(io.stagedStamp);
      return io.fault != ParentSync;
    }

    method Publish(io: PublishIo) returns (ok: bool)
      requires !temporary
      modifies this
      ensures (State(), ok) == Install.Publish(old(State()), io)
    {
      hide Install.SaveBackup, Install.Stage;
      ok := Revalidate(StampOf(original));
      if io.fault == FirstCheck || !ok {
        return false;
      }
      if BytesOf(original) == desired {
        return true;
      }
      SaveBackupKeeps(State(), io);
      ok := SaveBackup(io);
      if !ok || io.fault == SecondCheck {
        return false;
      }
      if desired.Some? {
        ok := Stage(desired.value, io);
      } else if io.fault == Remove {
        ok := false;
      } else {
        live := None;
        changed := true;
        ok := io.fault != ParentSync;
      }
    }

    method Rollback(io: RollbackIo) returns (ok: bool)
      modifies this
      ensures (State(), ok) == Install.Rollback(old(State()), io)
    {
      if BytesOf(original) == desired || !changed {
        ok := Revalidate(StampOf(original));
        return ok && io.fault != CheckFault;
      }
      ok := Revalidate(published);
      if io.fault == CheckFault || !ok {
        return false;
      }
      if original.Some? {
        if backup.None? || backup.value.None? || StampOf(backup.value) != backupStamp {
          return false;
        }
        if io.fault == BackupRead || backup.value.value.bytes != original.value.bytes {
          return false;
        }
        if io.fault == BackupMode || io.fault == RestoreRename {
          return false;
        }
        live := Some(File(io.restoredStamp, original.value.bytes));
        backup := Some(None);
      } else if published.Some? {
        if io.fault == RestoreRemove {
          return false;
        }
        live := None;
      }
      return io.fault != RestoreSync;
    }

    /** Somebody else's edits at a checkpoint. */
    method Edited(newLive: Option<Slot>, newBackup: Option<Slot>)
      modifies this
      ensures State() == Disturb(old(State()), newLive, newBackup)
    {
      if newLive.Some? {
        live := newLive.value;
      }
      if newBackup.Some? && backup.Some? {
        backup := newBackup;
      }
    }

    method RemoveBackup(fault: CleanFault) returns (ok: bool)
      modifies this
      ensures var e := old(State());
        if e.backup.None? then State() == e && ok
        else if e.backup.value.None? || StampOf(e.backup.value) != e.backupStamp || fault == CleanRemove then State() == e && !ok
        else State() == e.(backup := Some(None)) && ok == (fault != CleanSync)
    {
      if backup.None? {
        return true;
      }
      if backup.value.None? || StampOf(backup.value) != backupStamp || fault == CleanRemove {
        return false;
      }
      backup := Some(None);
      return fault != CleanSync;
    }
  }

  lemma SaveBackupKeeps(e: Edit, io: PublishIo)
    ensures var f := SaveBackup(e, io).0; f.desired == e.desired && f.original == e.original && f.temporary == e.temporary
  {}

  ghost predicate Apart(files: seq<InstallFile>) {
    forall i, j :: 0 <= i < j < |files| ==> files[i] != files[j]
  }

  function States(files: seq<InstallFile>): (s: seq<Edit>)
    reads files
    ensures |s| == |files| && forall i :: 0 <= i < |files| ==> s[i] == files[i].State()
  {
    seq(|files|, i requires 0 <= i < |files| reads files => files[i].State())
  }

  method PublishAll(files: seq<InstallFile>, plan: Plan) returns (ok: bool)
    requires Apart(files) && forall f :: f in files ==> !f.temporary
    modifies files
    ensures (States(files), ok) == PublishFrom(old(States(files)), plan, 0)
  {
    hide Install.Publish, Edit.Foreign;
    ghost var was := States(files);
    for i := 0 to |files|
      invariant PublishFrom(States(files), plan, i) == PublishFrom(was, plan, 0)
      invariant forall k :: i <= k < |files| ==> !files[k].temporary
    {
      ghost var s := States(files);
      ok := files[i].Publish(plan.publish(i));
      ghost var next := s[i := files[i].State()];
      assert States(files) == next;
      if !ok {
        return;
      }
      DisturbEach(files, plan.checkpoint(i));
      if !plan.checkpoint(i).ok {
        return false;
      }
    }
    ok := AllHold(files);
    ok := ok && plan.finalCheck;
  }

  method DisturbEach(files: seq<InstallFile>, c: Checkpoint)
    requires Apart(files)
    modifies files
    ensures States(files) == DisturbAll(old(States(files)), c)
    ensures forall f :: f in files ==> f.temporary == old(f.temporary)
  {
    ghost var was := States(files);
    for k := 0 to |files|
      invariant forall j :: 0 <= j < k ==> files[j].State() == Disturb(was[j], c.live(j), c.backup(j))
      invariant forall j :: k <= j < |files| ==> files[j].State() == was[j]
    {
      files[k].Edited(c.live(k), c.backup(k));
    }
    forall f | f in files ensures f.temporary == old(f.temporary) {
      var j :| 0 <= j < |files| && files[j] == f;
      assert f.State().temporary == was[j].temporary;
    }
  }

  method AllHold(files: seq<InstallFile>) returns (ok: bool)
    ensures ok == AllOwn(States(files))
  {
    ghost var s := States(files);
    for k := 0 to |files|
      invariant forall j :: 0 <= j < k ==> !s[j].Foreign()
    {
      var held := files[k].Revalidate(if files[k].changed then files[k].published else StampOf(files[k].original));
      if !held {
        assert s[k].Foreign();
        return false;
      }
    }
    return true;
  }

  /** What the loop has left to do, together with what it has found so far. */
  ghost function Rest(s: seq<Edit>, plan: Plan, n: nat, restored: bool): (seq<Edit>, bool)
    requires n <= |s|
  {
    (RollbackFrom(s, plan, n).0, restored && RollbackFrom(s, plan, n).1)
  }

  lemma RestStep(s: seq<Edit>, plan: Plan, n: nat, restored: bool)
    requires 0 < n <= |s|
    ensures var (e, ok) := Install.Rollback(s[n - 1], plan.rollback(n - 1));
      Rest(s, plan, n, restored) == Rest(s[n - 1 := e], plan, n - 1, restored && ok)
  {
    hide Install.Rollback;
  }

  method RollbackAll(files: seq<InstallFile>, plan: Plan) returns (restored: bool)
    requires Apart(files)
    modifies files
    ensures (States(files), restored) == RollbackFrom(old(States(files)), plan, |files|)
  {
    hide Install.Rollback, RollbackFrom, Rest;
    ghost var was := States(files);
    restored := true;
    var n := |files|;
    RestBegins(was, plan);
    while n > 0
      invariant 0 <= n <= |files|
      invariant Rest(States(files), plan, n, restored) == RollbackFrom(was, plan, |files|)
    {
      n := n - 1;
      ghost var s := States(files);
      RestStep(s, plan, n + 1, restored);
      var ok := files[n].Rollback(plan.rollback(n));
      assert States(files) == s[n := files[n].State()];
      restored := restored && ok;
    }
    RestEnds(States(files), plan, restored);
  }

  lemma RestBegins(s: seq<Edit>, plan: Plan)
    ensures Rest(s, plan, |s|, true) == RollbackFrom(s, plan, |s|)
  {
    hide RollbackFrom;
  }

  lemma RestEnds(s: seq<Edit>, plan: Plan, restored: bool)
    ensures Rest(s, plan, 0, restored) == (s, restored)
  {}

  method CleanEach(files: seq<InstallFile>, plan: Plan) returns (cleaned: bool)
    requires Apart(files)
    modifies files
    ensures (States(files), cleaned) == CleanFrom(old(States(files)), plan, 0)
  {
    ghost var was := States(files);
    for i := 0 to |files|
      invariant CleanFrom(States(files), plan, i) == CleanFrom(was, plan, 0)
    {
      ghost var s := States(files);
      cleaned := files[i].RemoveBackup(plan.clean(i));
      assert States(files) == s[i := files[i].State()];
      if !cleaned {
        assert s[i := s[i]] == s;
        return;
      }
      assert s[i := s[i]] == s;
    }
    cleaned := plan.assetsCleaned;
  }

  /** `commit_locked` over the host configuration, the service unit, the launcher, the runtime and the registry. */
  method CommitLocked(files: seq<InstallFile>, plan: Plan) returns (outcome: Outcome)
    requires Apart(files) && forall f :: f in files ==> !f.temporary
    modifies files
    ensures (States(files), outcome) == Commit(old(States(files)), plan)
    ensures AllFresh(old(States(files))) ==> (outcome == Committed <==> Commits(old(States(files)), plan))
    ensures AllFresh(old(States(files))) ==> (outcome == Restored <==> Restores(old(States(files)), plan))
  {
    hide PublishFrom, RollbackFrom, CleanFrom, AllPublish, RollsBack, AllFresh, Commits, Restores;
    if AllFresh(States(files)) {
      CommittedExactly(States(files), plan);
      RestoredExactly(States(files), plan);
    }
    if !plan.prepared {
      return if plan.valid && HostAndServiceHold(States(files)) then Restored else Uncertain;
    }
    var published := PublishAll(files, plan);
    if published {
      var cleaned := CleanEach(files, plan);
      return if cleaned then Committed else Uncertain;
    }
    var restored := RollbackAll(files, plan);
    return if restored && plan.othersHold then Restored else Uncertain;
  }
}
