/** Which outcome a commit has, decided from the files and the outside world before it starts (`commit_locked`). */
module InstallOutcome {
  import opened Prelude
  import opened Install

  /* ---------- one publication ---------- */

  const BACKUP_FAULTS: set<PublishFault> := {BackupOpen, BackupWrite, BackupSync, BackupStat, BackupParentSync}
  const STAGE_FAULTS: set<PublishFault> :=
    {StageOpen, StageWrite, StageMode, StageSync, ThirdCheck, Rename, PublishedStat, ParentSync}
  const REMOVE_FAULTS: set<PublishFault> := {Remove, ParentSync}

  /** No call this file's publication makes fails; a file that is right already is only checked. */
  predicate Unhindered(e: Edit, fault: PublishFault) {
    && fault != FirstCheck
    && (!e.NothingToDo() ==>
          && fault != SecondCheck
          && (e.original.Some? ==> fault !in BACKUP_FAULTS)
          && fault !in (if e.desired.Some? then STAGE_FAULTS else REMOVE_FAULTS))
  }

  /** The identity a completed publication leaves at the path. */
  function Leaves(e: Edit, io: PublishIo): Option<Stamp> {
    if e.NothingToDo() then StampOf(e.original) else if e.desired.Some? then Some(io.stagedStamp) else None
  }

  predicate BacksUp(e: Edit) { e.original.Some? && !e.NothingToDo() }

  /** A publication completes exactly when it finds the original and no call of its own fails. */
  lemma PublishExactly(e: Edit, io: PublishIo)
    requires Fresh(e)
    ensures var (f, ok) := Publish(e, io);
      && (ok <==> e.Holds(StampOf(e.original)) && Unhindered(e, io.fault))
      && SamePurpose(e, f)
      && (ok ==> f.Own() == Leaves(e, io) && f.Holds(Leaves(e, io)))
      && (ok ==>
            if BacksUp(e) then f.backup == Some(Some(File(io.backupStamp, e.original.value.bytes))) && f.backupStamp == Some(io.backupStamp)
            else f.backup.None?)
  {}

  /* ---------- all publications ---------- */

  function Seen(slot: Slot, edit: Option<Slot>): Slot { if edit.Some? then edit.value else slot }

  /** The publication of file `k` finds the original: nobody has put another file there at the checkpoints before it. */
  predicate Arrives(s: seq<Edit>, plan: Plan, i: nat, k: nat)
    requires k < |s|
  {
    StampOf(Seen(s[k].live, LastEdit(plan, k, i, k))) == StampOf(s[k].original)
  }

  /** What is published stays: the last edit of file `k` behind its publication, if any, leaves the same identity. */
  predicate Stays(s: seq<Edit>, plan: Plan, i: nat, k: nat)
    requires k < |s|
  {
    if k < i then StampOf(Seen(s[k].live, LastEdit(plan, k, i, |s|))) == s[k].Own()
    else LastEdit(plan, k, k, |s|).Some? ==> StampOf(LastEdit(plan, k, k, |s|).value) == Leaves(s[k], plan.publish(k))
  }

  /** File `k` and its checkpoint do not stand in the way of a publication that goes on from file `i`. */
  predicate Publishes(s: seq<Edit>, plan: Plan, i: nat, k: nat)
    requires k < |s|
  {
    && Stays(s, plan, i, k)
    && (k >= i ==> Arrives(s, plan, i, k) && Unhindered(s[k], plan.publish(k).fault) && plan.checkpoint(k).ok)
  }

  predicate AllPublish(s: seq<Edit>, plan: Plan, i: nat) { forall k :: 0 <= k < |s| ==> Publishes(s, plan, i, k) }

  ghost predicate FreshFrom(s: seq<Edit>, i: nat) { forall k :: i <= k < |s| ==> Fresh(s[k]) }

  function AfterStep(s: seq<Edit>, plan: Plan, i: nat): (seen: seq<Edit>)
    requires i < |s|
    ensures |seen| == |s|
  {
    DisturbAll(s[i := Publish(s[i], plan.publish(i)).0], plan.checkpoint(i))
  }

  lemma LastEditStep(plan: Plan, k: nat, i: nat, j: nat)
    requires i < j
    ensures var later := LastEdit(plan, k, i + 1, j);
      LastEdit(plan, k, i, j) == if later.Some? then later else plan.checkpoint(i).live(k)
  {}

  lemma LastEditNone(plan: Plan, k: nat, i: nat, j: nat)
    requires i >= j
    ensures LastEdit(plan, k, i, j).None?
  {}

  /** One completed publication and its checkpoint leave the other files' chances as they were. */
  lemma PublishesStep(s: seq<Edit>, plan: Plan, i: nat, k: nat)
    requires i < |s| && k < |s| && FreshFrom(s, i)
    requires Publish(s[i], plan.publish(i)).1 && plan.checkpoint(i).ok
    ensures Publishes(AfterStep(s, plan, i), plan, i + 1, k) <==> Publishes(s, plan, i, k)
  {
    hide Publish, LastEdit, Fresh, Unhindered, Leaves;
    PublishExactly(s[i], plan.publish(i));
    LastEditStep(plan, k, i, |s|);
    if k > i {
      LastEditStep(plan, k, i, k);
      UnhinderedAlike(s[k], AfterStep(s, plan, i)[k], plan.publish(k));
    } else if k == i {
      LastEditNone(plan, k, i, k);
    }
  }

  lemma AllPublishStep(s: seq<Edit>, plan: Plan, i: nat)
    requires i < |s| && FreshFrom(s, i) && Publish(s[i], plan.publish(i)).1 && plan.checkpoint(i).ok
    ensures AllPublish(AfterStep(s, plan, i), plan, i + 1) <==> AllPublish(s, plan, i)
  {
    hide Publish, Publishes, FreshFrom, AfterStep;
    var seen, j := AfterStep(s, plan, i), i + 1;
    if AllPublish(s, plan, i) {
      forall k | 0 <= k < |s| ensures Publishes(seen, plan, j, k) {
        PublishesStep(s, plan, i, k);
        assert Publishes(s, plan, i, k);
      }
    }
    if AllPublish(seen, plan, j) {
      forall k | 0 <= k < |s| ensures Publishes(s, plan, i, k) {
        PublishesStep(s, plan, i, k);
        assert Publishes(seen, plan, j, k);
      }
    }
  }

  lemma UnhinderedAlike(e: Edit, f: Edit, io: PublishIo)
    requires SamePurpose(e, f)
    ensures Unhindered(e, io.fault) <==> Unhindered(f, io.fault)
    ensures Leaves(e, io) == Leaves(f, io)
  {}

  lemma StepStaysFresh(s: seq<Edit>, plan: Plan, i: nat)
    requires i < |s| && FreshFrom(s, i)
    ensures FreshFrom(AfterStep(s, plan, i), i + 1)
  {
    hide Publish;
  }

  /** The publishing half succeeds exactly when nothing stands in the way of any file. */
  lemma {:induction false} PublishFromExactly(s: seq<Edit>, plan: Plan, i: nat)
    requires i <= |s| && FreshFrom(s, i)
    ensures PublishFrom(s, plan, i).1 <==> plan.finalCheck && AllPublish(s, plan, i)
    decreases |s| - i
  {
    hide Publish, LastEdit, Unhindered, Leaves, Publishes;
    if i == |s| {
      OwnAtEnd(s, plan);
    } else {
      PublishExactly(s[i], plan.publish(i));
      if Publish(s[i], plan.publish(i)).1 && plan.checkpoint(i).ok {
        StepStaysFresh(s, plan, i);
        var seen := AfterStep(s, plan, i);
        PublishFromExactly(seen, plan, i + 1);
        AllPublishStep(s, plan, i);
        assert PublishFrom(s, plan, i) == PublishFrom(seen, plan, i + 1);
      } else {
        FirstHinders(s, plan, i);
      }
    }
  }

  lemma OwnAtEnd(s: seq<Edit>, plan: Plan)
    ensures AllPublish(s, plan, |s|) <==> AllOwn(s)
  {
    forall k | 0 <= k < |s| ensures Publishes(s, plan, |s|, k) <==> !s[k].Foreign() {
      LastEditNone(plan, k, |s|, |s|);
    }
  }

  lemma FirstHinders(s: seq<Edit>, plan: Plan, i: nat)
    requires i < |s| && Fresh(s[i]) && !(Publish(s[i], plan.publish(i)).1 && plan.checkpoint(i).ok)
    ensures !Publishes(s, plan, i, i)
  {
    hide Publish, LastEdit;
    PublishExactly(s[i], plan.publish(i));
    LastEditNone(plan, i, i, i);
  }

  /* ---------- the backups ---------- */

  /** The last edit of file `k`'s backup at the checkpoints from `i` up to `j`. */
  function LastBackupEdit(plan: Plan, k: nat, i: nat, j: nat): Option<Slot>
    decreases j - i
  {
    if i >= j then None
    else if LastBackupEdit(plan, k, i + 1, j).Some? then LastBackupEdit(plan, k, i + 1, j)
    else plan.checkpoint(i).backup(k)
  }

  /** The backup of a file whose publication is over, after the checkpoints from `i` on. */
  function BackupSeen(e: Edit, plan: Plan, k: nat, i: nat, n: nat): Option<Slot> {
    if e.backup.None? then None else Some(Seen(e.backup.value, LastBackupEdit(plan, k, i, n)))
  }

  /** The backup file `k` has written if its publication completes. */
  function BackupMade(e: Edit, io: PublishIo): Option<Slot> {
    if BacksUp(e) then Some(Some(File(io.backupStamp, e.original.value.bytes))) else None
  }

  ghost predicate BackupIs(s: seq<Edit>, plan: Plan, i: nat, k: nat, t: Edit)
    requires k < |s|
  {
    if k < i then t.backup == BackupSeen(s[k], plan, k, i, |s|) && t.backupStamp == s[k].backupStamp
    else
      var made := BackupMade(s[k], plan.publish(k));
      if made.None? then t.backup.None?
      else t.backup == Some(Seen(made.value, LastBackupEdit(plan, k, k, |s|))) && t.backupStamp == Some(plan.publish(k).backupStamp)
  }

  lemma BackupStep(s: seq<Edit>, plan: Plan, i: nat, k: nat, t: Edit)
    requires i < |s| && k < |s| && FreshFrom(s, i) && Publish(s[i], plan.publish(i)).1
    requires BackupIs(AfterStep(s, plan, i), plan, i + 1, k, t)
    ensures BackupIs(s, plan, i, k, t)
  {
    hide Publish, Unhindered, Leaves;
    PublishExactly(s[i], plan.publish(i));
  }

  lemma {:induction false} BackupAtEnd(s: seq<Edit>, plan: Plan, i: nat, k: nat)
    requires i <= |s| && k < |s| && FreshFrom(s, i) && PublishFrom(s, plan, i).1
    ensures BackupIs(s, plan, i, k, PublishFrom(s, plan, i).0[k])
    decreases |s| - i
  {
    hide Publish;
    if i < |s| {
      hide BackupIs;
      StepStaysFresh(s, plan, i);
      BackupAtEnd(AfterStep(s, plan, i), plan, i + 1, k);
      BackupStep(s, plan, i, k, PublishFrom(s, plan, i).0[k]);
    }
  }

  predicate CleansUp(e: Edit, fault: CleanFault) {
    e.backup.Some? ==> e.backup.value.Some? && StampOf(e.backup.value) == e.backupStamp && fault == NoCleanFault
  }

  lemma {:induction false} CleanFromExactly(s: seq<Edit>, plan: Plan, i: nat)
    requires i <= |s|
    ensures CleanFrom(s, plan, i).1 <==> plan.assetsCleaned && forall k :: i <= k < |s| ==> CleansUp(s[k], plan.clean(k))
    decreases |s| - i
  {
    if i < |s| {
      CleanFromExactly(s, plan, i + 1);
      CleanFromExactly(s[i := s[i].(backup := Some(None))], plan, i + 1);
    }
  }

  /* ---------- Committed ---------- */

  /** The backup of file `k`, if one is written, is still that file at the end and can be removed. */
  predicate BackupRemovable(s: seq<Edit>, plan: Plan, k: nat)
    requires k < |s|
  {
    var edit := LastBackupEdit(plan, k, k, |s|);
    BacksUp(s[k]) ==>
      plan.clean(k) == NoCleanFault && (edit.Some? ==> StampOf(edit.value) == Some(plan.publish(k).backupStamp))
  }

  /** Every condition a commit depends on, file by file. */
  ghost predicate Commits(s: seq<Edit>, plan: Plan) {
    && plan.prepared && plan.finalCheck && plan.assetsCleaned
    && AllPublish(s, plan, 0)
    && forall k :: 0 <= k < |s| ==> BackupRemovable(s, plan, k)
  }

  ghost predicate AllFresh(s: seq<Edit>) { forall k :: 0 <= k < |s| ==> Fresh(s[k]) }

  /** `Committed` is returned exactly when nothing stands in the way of any file, its checkpoint or its backup. */
  lemma CommittedExactly(s: seq<Edit>, plan: Plan)
    requires AllFresh(s)
    ensures Commit(s, plan).1 == Committed <==> Commits(s, plan)
  {
    hide PublishFrom, CleanFrom, RollbackFrom, AllPublish, LastBackupEdit;
    PublishFromExactly(s, plan, 0);
    var (p, ok) := PublishFrom(s, plan, 0);
    if ok {
      CleanFromExactly(p, plan, 0);
      forall k | 0 <= k < |s| ensures CleansUp(p[k], plan.clean(k)) <==> BackupRemovable(s, plan, k) {
        BackupAtEnd(s, plan, 0, k);
      }
    }
  }

  /* ---------- Restored ---------- */

  /** The rollback of a file succeeds, decided from the state publication left it in. */
  predicate RollsBack(e: Edit, fault: RollbackFault) {
    && fault != CheckFault && !e.Foreign()
    && (e.changed ==>
          && fault != RestoreSync
          && (e.original.Some? ==>
                && fault !in {BackupRead, BackupMode, RestoreRename}
                && e.backup.Some? && e.backup.value.Some? && StampOf(e.backup.value) == e.backupStamp
                && BytesOf(e.backup.value) == BytesOf(e.original))
          && (e.original.None? && e.published.Some? ==> fault != RestoreRemove))
  }

  lemma RollbackExactly(e: Edit, io: RollbackIo)
    requires e.changed ==> !e.NothingToDo()
    ensures Rollback(e, io).1 <==> RollsBack(e, io.fault)
  {}

  lemma {:induction false} RollbackFromExactly(s: seq<Edit>, plan: Plan, n: nat)
    requires n <= |s|
    ensures RollbackFrom(s, plan, n).1 <==> forall k :: 0 <= k < n ==> Rollback(s[k], plan.rollback(k)).1
    decreases n
  {
    hide Rollback;
    if n > 0 {
      var next := s[n - 1 := Rollback(s[n - 1], plan.rollback(n - 1)).0];
      RollbackFromExactly(next, plan, n - 1);
    }
  }

  lemma {:induction false} ChangedHasWork(s: seq<Edit>, plan: Plan, i: nat, k: nat)
    requires i <= |s| && k < |s| && FreshFrom(s, i) && (s[k].changed ==> !s[k].NothingToDo())
    ensures var e := PublishFrom(s, plan, i).0[k]; e.changed ==> !e.NothingToDo()
    decreases |s| - i
  {
    hide Publish;
    if i < |s| {
      PublishRecords(s[i], plan.publish(i));
      StepStaysFresh(s, plan, i);
      if Publish(s[i], plan.publish(i)).1 && plan.checkpoint(i).ok {
        ChangedHasWork(AfterStep(s, plan, i), plan, i + 1, k);
      }
    }
  }

  /** Nothing was begun and the inputs still hold, or what was published can be taken back file by file. */
  ghost predicate Restores(s: seq<Edit>, plan: Plan) {
    if !plan.prepared then plan.valid && HostAndServiceHold(s)
    else
      var p := PublishFrom(s, plan, 0).0;
      && !(plan.finalCheck && AllPublish(s, plan, 0)) && plan.othersHold
      && forall k :: 0 <= k < |s| ==> RollsBack(p[k], plan.rollback(k).fault)
  }

  /**
   * `Restored` is returned exactly when nothing was begun and the inputs still hold, or a publication that failed
   * could be taken back file by file: own identity in place, backup intact, no call of the rollback failing.
   */
  lemma RestoredExactly(s: seq<Edit>, plan: Plan)
    requires AllFresh(s)
    ensures Commit(s, plan).1 == Restored <==> Restores(s, plan)
  {
    hide PublishFrom, CleanFrom, RollbackFrom, AllPublish, RollsBack, Rollback;
    PublishFromExactly(s, plan, 0);
    var p := PublishFrom(s, plan, 0).0;
    RollbackFromExactly(p, plan, |s|);
    forall k | 0 <= k < |s| ensures Rollback(p[k], plan.rollback(k)).1 <==> RollsBack(p[k], plan.rollback(k).fault) {
      ChangedHasWork(s, plan, 0, k);
      RollbackExactly(p[k], plan.rollback(k));
    }
  }

  /* ---------- undisturbed commits ---------- */

  /** Every file is as it was read, and nobody edits anything at a checkpoint. */
  ghost predicate Quiet(s: seq<Edit>, plan: Plan) {
    && (forall k :: 0 <= k < |s| ==> Fresh(s[k]) && s[k].live == s[k].original)
    && (forall j, k :: NobodyEdits(plan, j, k))
  }

  /** Publication `k` and its checkpoint go through. */
  predicate GoesThrough(s: seq<Edit>, plan: Plan, k: nat)
    requires k < |s|
  {
    Unhindered(s[k], plan.publish(k).fault) && plan.checkpoint(k).ok
  }

  /** The new file is in place but its identity could not be read back, so the rollback will not touch it. */
  predicate LosesTrack(e: Edit, fault: PublishFault) {
    !e.NothingToDo() && e.desired.Some? && fault == PublishedStat
  }

  /** The publications from `i` up to `j` go through and that of `j` loses track of its file. */
  ghost predicate LostAt(s: seq<Edit>, plan: Plan, i: nat, j: nat) {
    && i <= j < |s| && LosesTrack(s[j], plan.publish(j).fault)
    && forall k :: i <= k < j ==> GoesThrough(s, plan, k)
  }

  ghost predicate Lost(s: seq<Edit>, plan: Plan, i: nat) { exists j: nat :: LostAt(s, plan, i, j) }

  predicate NobodyEdits(plan: Plan, j: nat, k: nat) { plan.checkpoint(j).live(k).None? && plan.checkpoint(j).backup(k).None? }

  lemma {:induction false} NoEdits(plan: Plan, k: nat, i: nat, j: nat)
    requires forall m, n :: NobodyEdits(plan, m, n)
    ensures LastEdit(plan, k, i, j).None? && LastBackupEdit(plan, k, i, j).None?
    decreases j - i
  {
    if i < j {
      assert NobodyEdits(plan, i, k);
      NoEdits(plan, k, i + 1, j);
    }
  }

  /** What an undisturbed publication leaves of one file can be taken back, unless it lost track of it. */
  lemma QuietFile(e: Edit, io: PublishIo, fault: RollbackFault)
    requires Fresh(e) && e.live == e.original && fault == NoRollbackFault
    ensures RollsBack(e, fault)
    ensures RollsBack(Publish(e, io).0, fault) <==> !LosesTrack(e, io.fault)
    ensures LosesTrack(e, io.fault) ==> !Publish(e, io).1
    ensures SamePurpose(e, Publish(e, io).0)
  {}

  lemma QuietDisturb(s: seq<Edit>, plan: Plan, i: nat)
    requires forall m, n :: NobodyEdits(plan, m, n)
    ensures DisturbAll(s, plan.checkpoint(i)) == s
  {
    var r := DisturbAll(s, plan.checkpoint(i));
    forall k | 0 <= k < |s| ensures r[k] == s[k] {
      assert NobodyEdits(plan, i, k);
    }
  }

  /** The first files are published and can be taken back, the rest is as it was read. */
  ghost predicate QuietMid(s: seq<Edit>, i: nat) {
    forall k :: 0 <= k < |s| ==> if k < i then RollsBack(s[k], NoRollbackFault) else Fresh(s[k]) && s[k].live == s[k].original
  }

  ghost predicate AllRollBack(s: seq<Edit>) { forall k :: 0 <= k < |s| ==> RollsBack(s[k], NoRollbackFault) }

  lemma QuietMidEnds(s: seq<Edit>, i: nat)
    requires QuietMid(s, i)
    ensures forall k :: 0 <= k < |s| ==> RollsBack(s[k], NoRollbackFault)
  {
    hide RollsBack, Fresh;
    forall k | 0 <= k < |s| ensures RollsBack(s[k], NoRollbackFault) {
      if k >= i {
        QuietFile(s[k], PublishIo(NoFault, 0, [], 0, true), NoRollbackFault);
      }
    }
  }

  /** From file `i` on: everything published can be taken back exactly unless some publication loses track of its file. */
  lemma {:induction false} QuietFrom(s: seq<Edit>, plan: Plan, i: nat)
    requires i <= |s| && QuietMid(s, i) && forall m, n :: NobodyEdits(plan, m, n)
    ensures AllRollBack(PublishFrom(s, plan, i).0) <==> !Lost(s, plan, i)
    decreases |s| - i
  {
    hide Publish, RollsBack, Fresh, LosesTrack, Unhindered, NobodyEdits;
    QuietMidEnds(s, i);
    if i < |s| {
      var (e, ok) := Publish(s[i], plan.publish(i));
      var next := s[i := e];
      QuietFile(s[i], plan.publish(i), NoRollbackFault);
      PublishExactly(s[i], plan.publish(i));
      QuietDisturb(next, plan, i);
      if !ok || !plan.checkpoint(i).ok {
        assert !GoesThrough(s, plan, i);
        assert next[i] == e;
        LostHere(s, plan, i);
      } else {
        QuietFrom(next, plan, i + 1);
        LostLater(s, next, plan, i);
      }
    }
  }

  lemma LostHere(s: seq<Edit>, plan: Plan, i: nat)
    requires i < |s| && !GoesThrough(s, plan, i)
    ensures Lost(s, plan, i) <==> LosesTrack(s[i], plan.publish(i).fault)
  {
    hide GoesThrough, LosesTrack;
    if LosesTrack(s[i], plan.publish(i).fault) {
      assert LostAt(s, plan, i, i);
    }
  }

  lemma LostLater(s: seq<Edit>, t: seq<Edit>, plan: Plan, i: nat)
    requires i < |s| == |t| && GoesThrough(s, plan, i) && !LosesTrack(s[i], plan.publish(i).fault)
    requires forall k :: i < k < |s| ==> t[k] == s[k]
    ensures Lost(s, plan, i) <==> Lost(t, plan, i + 1)
  {
    hide LosesTrack, Unhindered;
    var i' := i + 1;
    forall j: nat ensures LostAt(s, plan, i, j) <==> LostAt(t, plan, i', j) {
      if LostAt(t, plan, i', j) {
        forall k | i <= k < j ensures GoesThrough(s, plan, k) {
          if k > i {
            assert GoesThrough(t, plan, k);
          }
        }
      }
      if LostAt(s, plan, i, j) {
        forall k | i' <= k < j ensures GoesThrough(t, plan, k) {
          assert GoesThrough(s, plan, k);
        }
      }
    }
  }

  lemma QuietPublishes(s: seq<Edit>, plan: Plan)
    requires Quiet(s, plan)
    ensures AllPublish(s, plan, 0) <==> forall k :: 0 <= k < |s| ==> GoesThrough(s, plan, k)
  {
    hide LastEdit, LastBackupEdit, Unhindered, Leaves, Fresh, NobodyEdits;
    forall k | 0 <= k < |s| ensures Publishes(s, plan, 0, k) <==> GoesThrough(s, plan, k) {
      NoEdits(plan, k, 0, k);
      NoEdits(plan, k, k, |s|);
    }
  }

  /**
   * Nobody interferes and neither cleanup nor rollback fails: then the commit is `Committed` when every publication
   * goes through, `Uncertain` when the first that does not has lost track of its file, and `Restored` otherwise.
   */
  lemma UndisturbedOutcome(s: seq<Edit>, plan: Plan)
    requires plan.prepared && Quiet(s, plan) && plan.othersHold && plan.assetsCleaned
    requires forall k :: plan.clean(k) == NoCleanFault && plan.rollback(k).fault == NoRollbackFault
    ensures Commit(s, plan).1 == Committed <==> plan.finalCheck && forall k :: 0 <= k < |s| ==> GoesThrough(s, plan, k)
    ensures Commit(s, plan).1 == Uncertain <==> Lost(s, plan, 0)
  {
    hide PublishFrom, RollbackFrom, CleanFrom, AllPublish, RollsBack, LastEdit, LastBackupEdit, NobodyEdits, LosesTrack, Unhindered;
    CommittedExactly(s, plan);
    RestoredExactly(s, plan);
    QuietPublishes(s, plan);
    forall k | 0 <= k < |s| ensures BackupRemovable(s, plan, k) {
      NoEdits(plan, k, k, |s|);
    }
    QuietFrom(s, plan, 0);
    assert AllRollBack(PublishFrom(s, plan, 0).0) <==>
      forall k :: 0 <= k < |s| ==> RollsBack(PublishFrom(s, plan, 0).0[k], plan.rollback(k).fault);
    if j: nat :| LostAt(s, plan, 0, j) {
      LostIsStuck(s, plan, j);
    }
  }

  lemma LostIsStuck(s: seq<Edit>, plan: Plan, j: nat)
    requires LostAt(s, plan, 0, j)
    ensures !GoesThrough(s, plan, j)
  {}
}
