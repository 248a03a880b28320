/** Publication of a package: five files, backups, conditional reverse rollback (`install.rs`). */
module Install {
  import opened Prelude

  /* ---------- files ---------- */

  /** The identity the code compares: device, inode, size, times and mode together. */
  type Stamp = nat

  datatype File = File(stamp: Stamp, bytes: Bytes)

  type Slot = Option<File>

  function StampOf(slot: Slot): Option<Stamp> { match slot case None => None case Some(f) => Some(f.stamp) }

  function BytesOf(slot: Slot): Option<Bytes> { match slot case None => None case Some(f) => Some(f.bytes) }

  /** One file of the transaction together with what is on disk at its path and at its backup's path. */
  datatype Edit = Edit(
    live: Slot, original: Slot, desired: Option<Bytes>, published: Option<Stamp>,
    backup: Option<Slot>, backupStamp: Option<Stamp>, temporary: bool, changed: bool)
  {
    /** `revalidate`: the path holds exactly the expected identity, or nothing when nothing is expected. */
    predicate Holds(expected: Option<Stamp>) { StampOf(live) == expected }

    predicate NothingToDo() { BytesOf(original) == desired }

    /** The identity the transaction itself last left at the path. */
    function Own(): Option<Stamp> { if changed then published else StampOf(original) }

    /** Another party has put something else there. */
    predicate Foreign() { !Holds(Own()) }
  }

  /** An edit as `InstallFile::read` and the assignment of `desired` leave it. */
  predicate Fresh(e: Edit) {
    e.published.None? && e.backup.None? && e.backupStamp.None? && !e.temporary && !e.changed
  }

  /* ---------- publish ---------- */

  /** The first system call of `publish` that fails, in program order. */
  datatype PublishFault =
    | NoFault | FirstCheck | BackupOpen | BackupWrite | BackupSync | BackupStat | BackupParentSync | SecondCheck
    | StageOpen | StageWrite | StageMode | StageSync | ThirdCheck | Rename | PublishedStat | Remove | ParentSync

  datatype PublishIo = PublishIo(
    fault: PublishFault, backupStamp: Stamp, partial: Bytes, stagedStamp: Stamp, temporaryRemoved: bool)

  function SaveBackup(e: Edit, io: PublishIo): (Edit, bool) {
    if e.original.None? then (e, true)
    else if io.fault == BackupOpen then (e, false)
    else if io.fault == BackupWrite then (e.(backup := Some(Some(File(io.backupStamp, io.partial)))), false)
    else
      var written := e.(backup := Some(Some(File(io.backupStamp, e.original.value.bytes))));
      if io.fault == BackupSync || io.fault == BackupStat then (written, false)
      else (written.(backupStamp := Some(io.backupStamp)), io.fault != BackupParentSync)
  }

  function Stage(e: Edit, desired: Bytes, io: PublishIo): (Edit, bool) {
    if io.fault == StageOpen then (e, false)
    else if io.fault in {StageWrite, StageMode, StageSync, ThirdCheck, Rename} then
      (e.(temporary := !io.temporaryRemoved), false)
    else
      var renamed := e.(live := Some(File(io.stagedStamp, desired)), changed := true);
      if io.fault == PublishedStat then (renamed, false)
      else (renamed.(published := Some(io.stagedStamp)), io.fault != ParentSync)
  }

  function Unlink(e: Edit, io: PublishIo): (Edit, bool) {
    if io.fault == Remove then (e, false) else (e.(live := None, changed := true), io.fault != ParentSync)
  }

  function Publish(e: Edit, io: PublishIo): (Edit, bool) {
    if io.fault == FirstCheck || !e.Holds(StampOf(e.original)) then (e, false)
    else if e.NothingToDo() then (e, true)
    else
      var (saved, ok) := SaveBackup(e, io);
      if !ok || io.fault == SecondCheck then (saved, false)
      else match saved.desired
        case Some(bytes) => Stage(saved, bytes, io)
        case None => Unlink(saved, io)
  }

  /* ---------- rollback ---------- */

  datatype RollbackFault = NoRollbackFault | CheckFault | BackupRead | BackupMode | RestoreRename | RestoreRemove | RestoreSync

  datatype RollbackIo = RollbackIo(fault: RollbackFault, restoredStamp: Stamp)

  function Rollback(e: Edit, io: RollbackIo): (Edit, bool) {
    if e.NothingToDo() || !e.changed then (e, io.fault != CheckFault && e.Holds(StampOf(e.original)))
    else if io.fault == CheckFault || !e.Holds(e.published) then (e, false)
    else match e.original
      case Some(original) =>
        if e.backup.None? || e.backup.value.None? || StampOf(e.backup.value) != e.backupStamp then (e, false)
        else if io.fault == BackupRead || e.backup.value.value.bytes != original.bytes then (e, false)
        else if io.fault == BackupMode || io.fault == RestoreRename then (e, false)
        else (e.(live := Some(File(io.restoredStamp, original.bytes)), backup := Some(None)), io.fault != RestoreSync)
      case None =>
        if e.published.None? then (e, io.fault != RestoreSync)
        else if io.fault == RestoreRemove then (e, false)
        else (e.(live := None), io.fault != RestoreSync)
  }

  /* ---------- the commit ---------- */

  /** What others do while the transaction is at a checkpoint: replace any live file or backup, or neither. */
  datatype Checkpoint = Checkpoint(ok: bool, live: nat -> Option<Slot>, backup: nat -> Option<Slot>)

  function Disturb(e: Edit, live: Option<Slot>, backup: Option<Slot>): Edit {
    e.(live := if live.Some? then live.value else e.live,
       backup := if backup.Some? && e.backup.Some? then backup else e.backup)
  }

  function DisturbAll(s: seq<Edit>, c: Checkpoint): (r: seq<Edit>)
    ensures |r| == |s| && forall i :: 0 <= i < |s| ==> r[i] == Disturb(s[i], c.live(i), c.backup(i))
  {
    seq(|s|, i requires 0 <= i < |s| => Disturb(s[i], c.live(i), c.backup(i)))
  }

  datatype CleanFault = NoCleanFault | CleanRemove | CleanSync

  /** Every outcome of the outside world during one commit. */
  datatype Plan = Plan(
    prepared: bool, valid: bool, publish: nat -> PublishIo, checkpoint: nat -> Checkpoint, finalCheck: bool,
    clean: nat -> CleanFault, assetsCleaned: bool, rollback: nat -> RollbackIo, othersHold: bool)

  datatype Outcome = Committed | Restored | Uncertain

  predicate AllOwn(s: seq<Edit>) { forall k :: 0 <= k < |s| ==> !s[k].Foreign() }

  /** The publishing half from file `i` on: the final state and whether every step succeeded. */
  function PublishFrom(s: seq<Edit>, plan: Plan, i: nat): (r: (seq<Edit>, bool))
    requires i <= |s|
    ensures |r.0| == |s|
    decreases |s| - i
  {
    if i == |s| then (s, plan.finalCheck && AllOwn(s))
    else
      var (e, ok) := Publish(s[i], plan.publish(i));
      var next := s[i := e];
      if !ok then (next, false)
      else
        var seen := DisturbAll(next, plan.checkpoint(i));
        if !plan.checkpoint(i).ok then (seen, false) else PublishFrom(seen, plan, i + 1)
  }

  /** The rollback half over the first `n` files, last one first; a failing step does not stop the others. */
  function RollbackFrom(s: seq<Edit>, plan: Plan, n: nat): (r: (seq<Edit>, bool))
    requires n <= |s|
    ensures |r.0| == |s|
    decreases n
  {
    if n == 0 then (s, true)
    else
      var (e, ok) := Rollback(s[n - 1], plan.rollback(n - 1));
      var (rest, restored) := RollbackFrom(s[n - 1 := e], plan, n - 1);
      (rest, ok && restored)
  }

  /** After a successful publication the backups are removed, provided they are still the ones written. */
  function CleanFrom(s: seq<Edit>, plan: Plan, i: nat): (r: (seq<Edit>, bool))
    requires i <= |s|
    ensures |r.0| == |s|
    decreases |s| - i
  {
    if i == |s| then (s, plan.assetsCleaned)
    else match s[i].backup
      case None => CleanFrom(s, plan, i + 1)
      case Some(slot) =>
        if slot.None? || StampOf(slot) != s[i].backupStamp || plan.clean(i) == CleanRemove then (s, false)
        else
          var next := s[i := s[i].(backup := Some(None))];
          if plan.clean(i) == CleanSync then (next, false) else CleanFrom(next, plan, i + 1)
  }

  /** The commit from file `i` on. */
  function CommitFrom(s: seq<Edit>, plan: Plan, i: nat): (r: (seq<Edit>, Outcome))
    requires i <= |s|
    ensures |r.0| == |s|
  {
    var (published, ok) := PublishFrom(s, plan, i);
    if ok then
      var (clean, cleaned) := CleanFrom(published, plan, 0);
      (clean, if cleaned then Committed else Uncertain)
    else
      var (rolled, restored) := RollbackFrom(published, plan, |s|);
      (rolled, if restored && plan.othersHold then Restored else Uncertain)
  }

  /** Preparation checks that the host configuration and the service unit, read earlier, are still in place. */
  predicate HostAndServiceHold(s: seq<Edit>) {
    forall k :: 0 <= k < |s| && k < 2 ==> s[k].Holds(StampOf(s[k].original))
  }

  function Commit(s: seq<Edit>, plan: Plan): (r: (seq<Edit>, Outcome))
    ensures |r.0| == |s|
  {
    if !plan.prepared then (s, if plan.valid && HostAndServiceHold(s) then Restored else Uncertain)
    else CommitFrom(s, plan, 0)
  }

  /* ---------- outcome soundness ---------- */

  /** Equal stamps mean equal bytes: `content` says which. */
  predicate Marked(content: Stamp -> Bytes, slot: Slot) {
    slot.Some? ==> slot.value.bytes == content(slot.value.stamp)
  }

  predicate Tracked(content: Stamp -> Bytes, e: Edit) {
    && Marked(content, e.live) && Marked(content, e.original)
    && (e.published.Some? ==> e.desired == Some(content(e.published.value)))
    && (e.changed ==> !e.NothingToDo())
  }

  /** Successfully published. */
  predicate Done(e: Edit) {
    if e.changed then e.published.Some? || e.desired.None? else e.NothingToDo()
  }

  predicate SamePurpose(e: Edit, f: Edit) { e.original == f.original && e.desired == f.desired }

  /** Files the transaction and the others create obey the stamps. */
  ghost predicate PlanMarked(content: Stamp -> Bytes, s: seq<Edit>, plan: Plan) {
    && (forall i :: 0 <= i < |s| && s[i].desired.Some? ==> s[i].desired.value == content(plan.publish(i).stagedStamp))
    && (forall k, i :: 0 <= k < |s| && 0 <= i < |s| ==> DisturbsMarked(content, plan.checkpoint(k), i))
  }

  predicate DisturbsMarked(content: Stamp -> Bytes, c: Checkpoint, i: nat) {
    c.live(i).Some? ==> Marked(content, c.live(i).value)
  }

  /** Once the file is in place, only these calls can still fail. */
  predicate Completes(desired: Option<Bytes>, fault: PublishFault) {
    fault != ParentSync && (desired.Some? ==> fault != PublishedStat)
  }

  lemma PublishFacts(content: Stamp -> Bytes, e: Edit, io: PublishIo)
    requires Tracked(content, e) && Fresh(e)
    requires e.desired.Some? ==> e.desired.value == content(io.stagedStamp)
    ensures Tracked(content, Publish(e, io).0) && SamePurpose(e, Publish(e, io).0)
    ensures Publish(e, io).1 ==> Done(Publish(e, io).0) && BytesOf(Publish(e, io).0.live) == e.desired
    ensures Publish(e, io).0.changed ==> BytesOf(Publish(e, io).0.live) == e.desired
    ensures Publish(e, io).0.changed ==> (Publish(e, io).1 <==> Completes(e.desired, io.fault))
  {
    hide SaveBackup, Stage, Unlink;
    SaveBackupFacts(e, io);
    var saved := SaveBackup(e, io).0;
    if e.desired.Some? {
      StageFacts(content, saved, e.desired.value, io);
    } else {
      UnlinkFacts(saved, io);
    }
  }

  lemma SaveBackupFacts(e: Edit, io: PublishIo)
    ensures var f := SaveBackup(e, io).0; f == e.(backup := f.backup, backupStamp := f.backupStamp)
  {}

  lemma StageFacts(content: Stamp -> Bytes, e: Edit, desired: Bytes, io: PublishIo)
    requires desired == content(io.stagedStamp) && !e.changed && e.published.None?
    ensures var (f, ok) := Stage(e, desired, io);
      && f == e.(live := f.live, published := f.published, changed := f.changed, temporary := f.temporary)
      && (f.changed ==> f.live == Some(File(io.stagedStamp, desired))) && (!f.changed ==> f.live == e.live)
      && (f.published.Some? ==> f.published.value == io.stagedStamp)
      && (ok ==> f.changed && f.published.Some?)
      && (f.changed ==> (ok <==> Completes(Some(desired), io.fault)))
  {}

  lemma UnlinkFacts(e: Edit, io: PublishIo)
    requires !e.changed
    ensures var (f, ok) := Unlink(e, io);
      && f == e.(live := f.live, changed := f.changed)
      && (f.changed ==> f.live.None?) && (!f.changed ==> f.live == e.live) && (ok ==> f.changed)
      && (f.changed ==> (ok <==> Completes(None, io.fault)))
  {}

  lemma RollbackFacts(content: Stamp -> Bytes, e: Edit, io: RollbackIo)
    requires Tracked(content, e)
    ensures SamePurpose(e, Rollback(e, io).0)
    ensures Rollback(e, io).1 ==> BytesOf(Rollback(e, io).0.live) == BytesOf(e.original)
  {}

  ghost predicate AllTracked(content: Stamp -> Bytes, s: seq<Edit>) {
    forall k :: 0 <= k < |s| ==> Tracked(content, s[k])
  }

  ghost predicate Mid(content: Stamp -> Bytes, s: seq<Edit>, i: nat) {
    && AllTracked(content, s)
    && (forall k :: 0 <= k < |s| ==> if k < i then Done(s[k]) else Fresh(s[k]))
  }

  ghost predicate SamePurposes(s: seq<Edit>, t: seq<Edit>) {
    |s| == |t| && forall k :: 0 <= k < |s| ==> SamePurpose(s[k], t[k])
  }

  lemma {:induction false} PublishFromFacts(content: Stamp -> Bytes, s: seq<Edit>, plan: Plan, i: nat)
    requires i <= |s| && Mid(content, s, i) && PlanMarked(content, s, plan)
    ensures var (t, ok) := PublishFrom(s, plan, i);
      && AllTracked(content, t) && SamePurposes(s, t)
      && (ok ==> forall k :: 0 <= k < |s| ==> BytesOf(t[k].live) == s[k].desired)
    decreases |s| - i
  {
    hide Publish;
    if i == |s| {
      forall k | 0 <= k < |s| && !s[k].Foreign() ensures BytesOf(s[k].live) == s[k].desired {
        OwnIsDesired(content, s[k]);
      }
    } else {
      PublishFacts(content, s[i], plan.publish(i));
      var (e, ok) := Publish(s[i], plan.publish(i));
      if ok {
        MidStep(content, s, plan, i);
        PublishFromFacts(content, DisturbAll(s[i := e], plan.checkpoint(i)), plan, i + 1);
      }
    }
  }

  lemma OwnIsDesired(content: Stamp -> Bytes, e: Edit)
    requires Tracked(content, e) && Done(e) && !e.Foreign()
    ensures BytesOf(e.live) == e.desired
  {}

  lemma DisturbFacts(content: Stamp -> Bytes, e: Edit, c: Checkpoint, k: nat)
    requires Tracked(content, e) && DisturbsMarked(content, c, k)
    ensures var f := Disturb(e, c.live(k), c.backup(k));
      Tracked(content, f) && SamePurpose(e, f) && (Done(e) ==> Done(f)) && (Fresh(e) ==> Fresh(f))
  {}

  lemma {:induction false} RollbackFromFacts(content: Stamp -> Bytes, s: seq<Edit>, plan: Plan, n: nat)
    requires n <= |s| && forall k :: 0 <= k < n ==> Tracked(content, s[k])
    ensures var (t, ok) := RollbackFrom(s, plan, n);
      && SamePurposes(s, t)
      && (forall k :: n <= k < |s| ==> t[k] == s[k])
      && (ok ==> forall k :: 0 <= k < n ==> BytesOf(t[k].live) == BytesOf(s[k].original))
    decreases n
  {
    hide Rollback, Tracked;
    if n > 0 {
      RollbackFacts(content, s[n - 1], plan.rollback(n - 1));
      var next := s[n - 1 := Rollback(s[n - 1], plan.rollback(n - 1)).0];
      RollbackFromFacts(content, next, plan, n - 1);
    }
  }

  lemma {:induction false} CleanFromFacts(s: seq<Edit>, plan: Plan, i: nat)
    requires i <= |s|
    ensures SamePurposes(s, CleanFrom(s, plan, i).0)
    ensures forall k :: 0 <= k < |s| ==> CleanFrom(s, plan, i).0[k].live == s[k].live
    decreases |s| - i
  {
    if i < |s| {
      CleanFromFacts(s, plan, i + 1);
      if s[i].backup.Some? {
        CleanFromFacts(s[i := s[i].(backup := Some(None))], plan, i + 1);
      }
    }
  }

  /** Whatever fails and whatever others edit at the checkpoints, the outcome tells the truth. */
  lemma OutcomeIsTruthful(content: Stamp -> Bytes, s: seq<Edit>, plan: Plan)
    requires Mid(content, s, 0) && PlanMarked(content, s, plan)
    ensures var (t, outcome) := Commit(s, plan);
      && (outcome == Committed ==> forall k :: 0 <= k < |s| ==> BytesOf(t[k].live) == s[k].desired)
      && (outcome == Restored && plan.prepared ==> forall k :: 0 <= k < |s| ==> BytesOf(t[k].live) == BytesOf(s[k].original))
      && (outcome == Restored && !plan.prepared ==> t == s && forall k :: 0 <= k < |s| && k < 2 ==> BytesOf(t[k].live) == BytesOf(s[k].original))
  {
    hide PublishFrom, RollbackFrom, CleanFrom, PlanMarked;
    var p := PublishFrom(s, plan, 0).0;
    PublishFromFacts(content, s, plan, 0);
    CleanFromFacts(p, plan, 0);
    RollbackFromFacts(content, p, plan, |s|);
  }

  /* ---------- the files of others ---------- */

  lemma PublishSparesForeign(e: Edit, io: PublishIo)
    ensures Fresh(e) && e.Foreign() ==> Publish(e, io) == (e, false)
    ensures Publish(e, io).0.live != e.live ==> StampOf(e.live) == StampOf(e.original)
  {}

  lemma RollbackSparesForeign(e: Edit, io: RollbackIo)
    requires e.changed ==> !e.NothingToDo()
    ensures e.Foreign() ==> Rollback(e, io) == (e, false)
    ensures Rollback(e, io).0.live != e.live ==> e.changed && StampOf(e.live) == e.published
  {}

  lemma {:induction false} RollbackKeepsForeign(s: seq<Edit>, plan: Plan, n: nat, k: nat)
    requires k < n <= |s| && s[k].Foreign() && (s[k].changed ==> !s[k].NothingToDo())
    ensures RollbackFrom(s, plan, n).0[k] == s[k] && !RollbackFrom(s, plan, n).1
    decreases n
  {
    hide Rollback;
    RollbackSparesForeign(s[k], plan.rollback(k));
    var next := s[n - 1 := Rollback(s[n - 1], plan.rollback(n - 1)).0];
    if k < n - 1 {
      RollbackKeepsForeign(next, plan, n - 1, k);
    } else {
      RollbackLeavesRest(next, plan, n - 1, k);
    }
  }

  lemma {:induction false} RollbackLeavesRest(s: seq<Edit>, plan: Plan, n: nat, k: nat)
    requires n <= k < |s|
    ensures RollbackFrom(s, plan, n).0[k] == s[k]
    decreases n
  {
    hide Rollback;
    if n > 0 {
      RollbackLeavesRest(s[n - 1 := Rollback(s[n - 1], plan.rollback(n - 1)).0], plan, n - 1, k);
    }
  }

  /** The last write of another party to file `k` at the checkpoints from `i` up to `j`. */
  function LastEdit(plan: Plan, k: nat, i: nat, j: nat): Option<Slot>
    decreases j - i
  {
    if i >= j then None
    else if LastEdit(plan, k, i + 1, j).Some? then LastEdit(plan, k, i + 1, j)
    else plan.checkpoint(i).live(k)
  }

  /** The checkpoints before this one are reached, a failing one included. */
  function Reached(s: seq<Edit>, plan: Plan, i: nat): (n: nat)
    requires i <= |s|
    ensures i <= n
    decreases |s| - i
  {
    if i == |s| then i
    else
      var (e, ok) := Publish(s[i], plan.publish(i));
      if !ok then i
      else if !plan.checkpoint(i).ok then i + 1
      else Reached(DisturbAll(s[i := e], plan.checkpoint(i)), plan, i + 1)
  }

  /** Neither the original nor anything the transaction puts at the path. */
  predicate ForeignTo(e: Edit, io: PublishIo, slot: Slot) {
    && StampOf(slot) != StampOf(e.original)
    && StampOf(slot) != if e.desired.Some? then Some(io.stagedStamp) else None
  }

  /** The edit records exactly what was published. */
  predicate Recorded(e: Edit, io: PublishIo) {
    e.changed ==> !e.NothingToDo() && e.published == if e.desired.Some? then Some(io.stagedStamp) else None
  }

  lemma PublishRecords(e: Edit, io: PublishIo)
    requires Fresh(e)
    ensures SamePurpose(e, Publish(e, io).0)
    ensures Publish(e, io).1 ==> Recorded(Publish(e, io).0, io)
    ensures Publish(e, io).0.changed ==> !e.NothingToDo()
  {}

  lemma {:induction false} PublishKeepsForeign(s: seq<Edit>, plan: Plan, i: nat, k: nat)
    requires i <= |s| && k < |s| && s[k].Foreign() && (k >= i ==> Fresh(s[k]))
    requires LastEdit(plan, k, i, Reached(s, plan, i)).None?
    ensures var (t, ok) := PublishFrom(s, plan, i);
      !ok && t[k].live == s[k].live && t[k].Foreign() && SamePurpose(t[k], s[k]) && t[k].changed == s[k].changed
    decreases |s| - i
  {
    hide Publish;
    if i < |s| {
      PublishSparesForeign(s[k], plan.publish(i));
      var (e, ok) := Publish(s[i], plan.publish(i));
      if ok && plan.checkpoint(i).ok {
        PublishKeepsForeign(DisturbAll(s[i := e], plan.checkpoint(i)), plan, i + 1, k);
      }
    }
  }

  lemma {:induction false} LastWriteStays(s: seq<Edit>, plan: Plan, i: nat, k: nat, slot: Slot)
    requires i <= |s| && k < |s| && (if k >= i then Fresh(s[k]) else Recorded(s[k], plan.publish(k)))
    requires LastEdit(plan, k, i, Reached(s, plan, i)) == Some(slot) && ForeignTo(s[k], plan.publish(k), slot)
    ensures var (t, ok) := PublishFrom(s, plan, i);
      !ok && t[k].live == slot && t[k].Foreign() && (t[k].changed ==> !t[k].NothingToDo())
    decreases |s| - i
  {
    hide Publish, LastEdit, Recorded, Reached;
    var n := Reached(s, plan, i);
    ReachedStep(s, plan, i, k);
    var (e, ok) := Publish(s[i], plan.publish(i));
    if i == k {
      PublishRecords(s[k], plan.publish(k));
    }
    var seen := DisturbAll(s[i := e], plan.checkpoint(i));
    RecordedKept(s[i := e][k], plan, i, k);
    if LastEdit(plan, k, i + 1, n).Some? {
      LastWriteStays(seen, plan, i + 1, k, slot);
    } else {
      assert seen[k].live == slot;
      if plan.checkpoint(i).ok {
        PublishKeepsForeign(seen, plan, i + 1, k);
      }
    }
  }

  lemma RecordedKept(e: Edit, plan: Plan, i: nat, k: nat)
    ensures var f := Disturb(e, plan.checkpoint(i).live(k), plan.checkpoint(i).backup(k));
      && (Recorded(e, plan.publish(k)) ==> Recorded(f, plan.publish(k)))
      && (Recorded(e, plan.publish(k)) && ForeignTo(e, plan.publish(k), f.live) ==> f.Foreign())
      && (Fresh(e) ==> Recorded(e, plan.publish(k)) && Fresh(f))
      && (Recorded(f, plan.publish(k)) && f.changed ==> !f.NothingToDo())
  {}

  lemma ReachedStep(s: seq<Edit>, plan: Plan, i: nat, k: nat)
    requires i <= |s| && LastEdit(plan, k, i, Reached(s, plan, i)).Some?
    ensures i < |s| && Publish(s[i], plan.publish(i)).1
    ensures var n := Reached(s, plan, i); var seen := DisturbAll(s[i := Publish(s[i], plan.publish(i)).0], plan.checkpoint(i));
      && n == (if plan.checkpoint(i).ok then Reached(seen, plan, i + 1) else i + 1)
      && (!plan.checkpoint(i).ok ==> LastEdit(plan, k, i + 1, n).None?)
      && (LastEdit(plan, k, i + 1, n).None? ==> LastEdit(plan, k, i, n) == plan.checkpoint(i).live(k))
      && (LastEdit(plan, k, i + 1, n).Some? ==> LastEdit(plan, k, i, n) == LastEdit(plan, k, i + 1, n))
  {
    hide Publish;
  }

  /**
   * Over a whole commit, whatever fails: the last thing another party wrote to a file, at a checkpoint that was
   * reached or before the commit began, is what is there at the end, and the outcome is `Uncertain`.
   */
  lemma ForeignBytesSurvive(s: seq<Edit>, plan: Plan, k: nat)
    requires k < |s| && Fresh(s[k]) && plan.prepared
    ensures var (t, outcome) := Commit(s, plan);
      match LastEdit(plan, k, 0, Reached(s, plan, 0))
      case Some(slot) => ForeignTo(s[k], plan.publish(k), slot) ==> t[k].live == slot && outcome == Uncertain
      case None => s[k].Foreign() ==> t[k].live == s[k].live && outcome == Uncertain
  {
    hide PublishFrom, RollbackFrom, CleanFrom, LastEdit, Reached;
    var p := PublishFrom(s, plan, 0).0;
    var last := LastEdit(plan, k, 0, Reached(s, plan, 0));
    if last.Some? && ForeignTo(s[k], plan.publish(k), last.value) {
      LastWriteStays(s, plan, 0, k, last.value);
      RollbackKeepsForeign(p, plan, |s|, k);
    } else if last.None? && s[k].Foreign() {
      PublishKeepsForeign(s, plan, 0, k);
      RollbackKeepsForeign(p, plan, |s|, k);
    }
  }

  /* ---------- publication order ---------- */

  /** The transaction has published the last file, the registry, and its new bytes are there. */
  predicate RegistryNew(s: seq<Edit>) {
    s != [] && s[|s| - 1].changed && BytesOf(s[|s| - 1].live) == s[|s| - 1].desired
  }

  ghost predicate OthersDesired(s: seq<Edit>) {
    forall k :: 0 <= k < |s| - 1 ==> BytesOf(s[k].live) == s[k].desired
  }

  /** Whenever the registry names the new generation, everything it needs is in place. */
  ghost predicate InOrder(s: seq<Edit>) { RegistryNew(s) ==> OthersDesired(s) }

  ghost predicate AllInOrder(trace: seq<seq<Edit>>) { forall t :: t in trace ==> InOrder(t) }

  /** The states on disk while publishing from file `i`, before and after each checkpoint: a crash leaves one of them. */
  function PublishTrace(s: seq<Edit>, plan: Plan, i: nat): seq<seq<Edit>>
    requires i <= |s|
    decreases |s| - i
  {
    if i == |s| then [s] else
    var (e, ok) := Publish(s[i], plan.publish(i));
    var next := s[i := e];
    var seen := DisturbAll(next, plan.checkpoint(i));
    [s, next] + (if !ok then [] else if !plan.checkpoint(i).ok then [seen] else PublishTrace(seen, plan, i + 1))
  }

  /** The states on disk while rolling back the first `n` files. */
  function RollbackTrace(s: seq<Edit>, plan: Plan, n: nat): seq<seq<Edit>>
    requires n <= |s|
    decreases n
  {
    [s] + if n == 0 then [] else RollbackTrace(s[n - 1 := Rollback(s[n - 1], plan.rollback(n - 1)).0], plan, n - 1)
  }

  /** The bytes file `k` shows after the checkpoints before `j`, if all goes well from publication `i` on. */
  function Shown(s: seq<Edit>, plan: Plan, k: nat, i: nat, j: nat): Option<Bytes>
    requires k < |s|
  {
    match LastEdit(plan, k, if k < i then i else k, j)
    case Some(slot) => BytesOf(slot)
    case None => if k < i then BytesOf(s[k].live) else s[k].desired
  }

  /** No other party has left anything but the desired bytes in a file published before the registry. */
  ghost predicate Undisturbed(s: seq<Edit>, plan: Plan, i: nat, j: nat) {
    forall k :: 0 <= k < |s| - 1 ==> Shown(s, plan, k, i, j) == s[k].desired
  }

  /** The registry is not replaced at its own checkpoint by other bytes. */
  predicate RegistryKept(s: seq<Edit>, plan: Plan)
    requires s != []
  {
    var edit := plan.checkpoint(|s| - 1).live(|s| - 1);
    edit.Some? ==> BytesOf(edit.value) == s[|s| - 1].desired
  }

  /**
   * Between their publication and the registry's nobody edits the other files, and neither at the registry's own
   * checkpoint, if that is reached and leaves the registry in place.
   */
  ghost predicate NoLateEdit(s: seq<Edit>, plan: Plan, i: nat)
    requires s != []
  {
    var last := |s| - 1;
    && Undisturbed(s, plan, i, last)
    && (Completes(s[last].desired, plan.publish(last).fault) && RegistryKept(s, plan) ==> Undisturbed(s, plan, i, last + 1))
  }

  lemma ShownStep(content: Stamp -> Bytes, s: seq<Edit>, plan: Plan, i: nat, j: nat, k: nat)
    requires k < |s| && i < j <= |s| && i < |s| && Publish(s[i], plan.publish(i)).1
    requires Tracked(content, s[i]) && Fresh(s[i])
    requires s[i].desired.Some? ==> s[i].desired.value == content(plan.publish(i).stagedStamp)
    ensures var seen := DisturbAll(s[i := Publish(s[i], plan.publish(i)).0], plan.checkpoint(i));
      Shown(seen, plan, k, i + 1, j) == Shown(s, plan, k, i, j) && SamePurpose(seen[k], s[k])
  {
    hide Publish, Tracked, Fresh, Done;
    PublishFacts(content, s[i], plan.publish(i));
  }

  lemma {:induction false} PublishTraceExactly(content: Stamp -> Bytes, s: seq<Edit>, plan: Plan, i: nat)
    requires i < |s| && Mid(content, s, i) && PlanMarked(content, s, plan)
    ensures AllInOrder(PublishTrace(s, plan, i)) <==>
      (PublishFrom(s, plan, i).0[|s| - 1].changed ==> NoLateEdit(s, plan, i))
    decreases |s| - i
  {
    hide Publish, Tracked, Done, Shown, LastEdit, PublishTrace;
    var last := |s| - 1;
    PublishFacts(content, s[i], plan.publish(i));
    var (e, ok) := Publish(s[i], plan.publish(i));
    var next := s[i := e];
    var seen := DisturbAll(next, plan.checkpoint(i));
    TraceStep(s, plan, i);
    assert InOrder(s);
    if i == last {
      LastStep(content, s, plan);
    } else {
      assert InOrder(next) && InOrder(seen);
      if ok && plan.checkpoint(i).ok {
        MidStep(content, s, plan, i);
        PublishTraceExactly(content, seen, plan, i + 1);
        forall k | 0 <= k < |s|
          ensures Shown(seen, plan, k, i + 1, last) == Shown(s, plan, k, i, last)
          ensures Shown(seen, plan, k, i + 1, |s|) == Shown(s, plan, k, i, |s|)
        {
          ShownStep(content, s, plan, i, last, k);
          ShownStep(content, s, plan, i, |s|, k);
        }
        SameLateEdits(s, seen, plan, i, i + 1);
      }
    }
  }

  /** The registry's own publication decides. */
  lemma LastStep(content: Stamp -> Bytes, s: seq<Edit>, plan: Plan)
    requires s != [] && Mid(content, s, |s| - 1) && PlanMarked(content, s, plan)
    ensures AllInOrder(PublishTrace(s, plan, |s| - 1)) <==>
      (PublishFrom(s, plan, |s| - 1).0[|s| - 1].changed ==> NoLateEdit(s, plan, |s| - 1))
  {
    hide Publish, Tracked, Done, Undisturbed, PublishTrace;
    var last := |s| - 1;
    PublishFacts(content, s[last], plan.publish(last));
    var (e, ok) := Publish(s[last], plan.publish(last));
    var next := s[last := e];
    var seen := DisturbAll(next, plan.checkpoint(last));
    TraceStep(s, plan, last);
    TraceEnd(seen, plan);
    LastShown(s, plan);
    assert InOrder(s);
    assert OthersDesired(next) <==> OthersDesired(s);
    assert OthersDesired(seen) <==> forall k :: 0 <= k < last ==>
            BytesOf(Disturb(s[k], plan.checkpoint(last).live(k), plan.checkpoint(last).backup(k)).live) == s[k].desired;
    assert RegistryNew(next) <==> e.changed;
    assert RegistryNew(seen) <==> e.changed && RegistryKept(s, plan);
    assert PublishFrom(s, plan, last).0[last].changed <==> e.changed;
    assert AllInOrder(PublishTrace(s, plan, last)) <==> InOrder(next) && (ok ==> InOrder(seen));
  }

  lemma TraceStep(s: seq<Edit>, plan: Plan, i: nat)
    requires i < |s|
    ensures var (e, ok) := Publish(s[i], plan.publish(i));
      var next := s[i := e];
      var seen := DisturbAll(next, plan.checkpoint(i));
      forall t :: t in PublishTrace(s, plan, i) <==>
        t == s || t == next || (ok && if plan.checkpoint(i).ok then t in PublishTrace(seen, plan, i + 1) else t == seen)
  {
    hide Publish;
  }

  lemma TraceEnd(s: seq<Edit>, plan: Plan)
    ensures forall t :: t in PublishTrace(s, plan, |s|) <==> t == s
  {}

  lemma LastShown(s: seq<Edit>, plan: Plan)
    requires s != []
    ensures var last := |s| - 1;
      && (Undisturbed(s, plan, last, last) <==> OthersDesired(s))
      && (Undisturbed(s, plan, last, last + 1) <==> forall k :: 0 <= k < last ==>
            BytesOf(Disturb(s[k], plan.checkpoint(last).live(k), plan.checkpoint(last).backup(k)).live) == s[k].desired)
  {
    var last := |s| - 1;
    forall k | 0 <= k < last
      ensures Shown(s, plan, k, last, last) == BytesOf(s[k].live)
      ensures Shown(s, plan, k, last, last + 1) == BytesOf(Disturb(s[k], plan.checkpoint(last).live(k), plan.checkpoint(last).backup(k)).live)
    {
      assert LastEdit(plan, k, last + 1, last + 1).None?;
    }
  }

  ghost predicate SameShown(s: seq<Edit>, i: nat, t: seq<Edit>, i': nat, plan: Plan, j: nat)
    requires |s| == |t|
  {
    forall k :: 0 <= k < |s| ==> Shown(t, plan, k, i', j) == Shown(s, plan, k, i, j)
  }

  lemma SameLateEdits(s: seq<Edit>, t: seq<Edit>, plan: Plan, i: nat, i': nat)
    requires s != [] && SamePurposes(s, t)
    requires SameShown(s, i, t, i', plan, |s| - 1) && SameShown(s, i, t, i', plan, |s|)
    ensures NoLateEdit(t, plan, i') <==> NoLateEdit(s, plan, i)
  {
    hide Shown;
    assert Undisturbed(t, plan, i', |s| - 1) <==> Undisturbed(s, plan, i, |s| - 1);
    assert Undisturbed(t, plan, i', |s|) <==> Undisturbed(s, plan, i, |s|);
  }

  lemma MidStep(content: Stamp -> Bytes, s: seq<Edit>, plan: Plan, i: nat)
    requires i < |s| && Mid(content, s, i) && PlanMarked(content, s, plan) && Publish(s[i], plan.publish(i)).1
    ensures var seen := DisturbAll(s[i := Publish(s[i], plan.publish(i)).0], plan.checkpoint(i));
      Mid(content, seen, i + 1) && SamePurposes(s, seen) && PlanMarked(content, seen, plan)
  {
    hide Publish, Tracked, Done, Fresh;
    PublishFacts(content, s[i], plan.publish(i));
    var next := s[i := Publish(s[i], plan.publish(i)).0];
    forall k | 0 <= k < |s| ensures
      var f := Disturb(next[k], plan.checkpoint(i).live(k), plan.checkpoint(i).backup(k));
      Tracked(content, f) && SamePurpose(s[k], f) && (if k < i + 1 then Done(f) else Fresh(f))
    {
      assert DisturbsMarked(content, plan.checkpoint(i), k);
      DisturbFacts(content, next[k], plan.checkpoint(i), k);
    }
  }

  /** Successfully published, and the desired bytes are there unless another party has replaced them. */
  ghost predicate PublishedUnlessForeign(s: seq<Edit>) {
    s != [] && s[|s| - 1].changed ==>
      forall k :: 0 <= k < |s| - 1 ==> Done(s[k]) && (BytesOf(s[k].live) == s[k].desired || s[k].Foreign())
  }

  lemma MidIsPublished(content: Stamp -> Bytes, s: seq<Edit>)
    requires AllTracked(content, s) && forall k :: 0 <= k < |s| - 1 ==> Done(s[k])
    ensures PublishedUnlessForeign(s)
  {
    forall k | 0 <= k < |s| - 1 && !s[k].Foreign() ensures BytesOf(s[k].live) == s[k].desired {
      OwnIsDesired(content, s[k]);
    }
  }

  lemma {:induction false} PublishTraceUnlessForeign(content: Stamp -> Bytes, s: seq<Edit>, plan: Plan, i: nat)
    requires i <= |s| && Mid(content, s, i) && PlanMarked(content, s, plan)
    ensures forall t :: t in PublishTrace(s, plan, i) ==> PublishedUnlessForeign(t)
    decreases |s| - i
  {
    hide Publish, Tracked, Done, PublishTrace;
    if i == |s| {
      TraceEnd(s, plan);
      MidIsPublished(content, s);
    } else {
      PublishFacts(content, s[i], plan.publish(i));
      TraceStep(s, plan, i);
      var next := s[i := Publish(s[i], plan.publish(i)).0];
      if i == |s| - 1 {
        MidIsPublished(content, s);
        MidIsPublished(content, next);
      }
      if Publish(s[i], plan.publish(i)).1 {
        MidStep(content, s, plan, i);
        var seen := DisturbAll(next, plan.checkpoint(i));
        PublishTraceUnlessForeign(content, seen, plan, i + 1);
        TraceHead(seen, plan, i + 1);
      }
    }
  }

  lemma TraceHead(s: seq<Edit>, plan: Plan, i: nat)
    requires i <= |s|
    ensures s in PublishTrace(s, plan, i)
  {}

  lemma RollbackKeeps(e: Edit, io: RollbackIo)
    ensures var f := Rollback(e, io).0; f == e.(live := f.live, backup := f.backup)
  {}

  lemma RollbackTraceHead(s: seq<Edit>, plan: Plan, n: nat)
    requires n <= |s|
    ensures n == 0 ==> forall t :: t in RollbackTrace(s, plan, n) <==> t == s
    ensures n > 0 ==> forall t :: t in RollbackTrace(s, plan, n) <==>
      t == s || t in RollbackTrace(s[n - 1 := Rollback(s[n - 1], plan.rollback(n - 1)).0], plan, n - 1)
  {
    hide Rollback;
  }

  lemma {:induction false} RollbackTraceExactly(s: seq<Edit>, plan: Plan, n: nat)
    requires n < |s|
    ensures AllInOrder(RollbackTrace(s, plan, n)) <==>
      (RegistryNew(s) ==> OthersDesired(s) && forall k :: 0 <= k < n ==> BytesOf(Rollback(s[k], plan.rollback(k)).0.live) == s[k].desired)
    decreases n
  {
    hide Rollback, RollbackTrace;
    RollbackTraceHead(s, plan, n);
    if n == 0 {
      assert s in RollbackTrace(s, plan, n);
      assert AllInOrder(RollbackTrace(s, plan, n)) <==> InOrder(s);
    } else {
      var m := n - 1;
      RollbackKeeps(s[m], plan.rollback(m));
      var next := s[m := Rollback(s[m], plan.rollback(m)).0];
      RollbackTraceExactly(next, plan, m);
      assert AllInOrder(RollbackTrace(s, plan, n)) <==> InOrder(s) && AllInOrder(RollbackTrace(next, plan, m));
      assert RegistryNew(next) <==> RegistryNew(s);
      assert OthersDesired(s) && BytesOf(next[m].live) == s[m].desired ==> OthersDesired(next);
      assert OthersDesired(next) ==> BytesOf(next[m].live) == s[m].desired;
      assert forall k :: 0 <= k < m ==> next[k] == s[k];
    }
  }

  /** The registry no longer shows the new generation once its own rollback step, the first one, is over. */
  predicate RegistryWithdrawn(s: seq<Edit>, plan: Plan)
    requires s != []
  {
    !RegistryNew(s[|s| - 1 := Rollback(s[|s| - 1], plan.rollback(|s| - 1)).0])
  }

  /** Exactly when a rollback keeps the order: the registry goes first, or nothing it needs is taken away. */
  lemma RollbackOrderExactly(s: seq<Edit>, plan: Plan)
    requires s != []
    ensures AllInOrder(RollbackTrace(s, plan, |s|)) <==>
      && InOrder(s)
      && (RegistryWithdrawn(s, plan)
          || (OthersDesired(s) && forall k :: 0 <= k < |s| - 1 ==> BytesOf(Rollback(s[k], plan.rollback(k)).0.live) == s[k].desired))
  {
    hide Rollback, RollbackTrace, RegistryNew;
    var last := |s| - 1;
    var next := s[last := Rollback(s[last], plan.rollback(last)).0];
    RollbackTraceExactly(next, plan, last);
    RollbackTraceHead(s, plan, |s|);
    assert AllInOrder(RollbackTrace(s, plan, |s|)) <==> InOrder(s) && AllInOrder(RollbackTrace(next, plan, last));
    assert forall k :: 0 <= k < last ==> next[k] == s[k];
    assert OthersDesired(next) <==> OthersDesired(s);
  }

  /**
   * On every prefix of a commit, whatever fails and whatever others edit at the checkpoints: once the registry is
   * published, every other file was published and holds its desired bytes unless another party has replaced it.
   * The order itself holds on the whole publication exactly when the registry is not reached or no late edit
   * happens; and a successful rollback of the registry withdraws it before anything else is taken away.
   */
  lemma PublicationOrder(content: Stamp -> Bytes, s: seq<Edit>, plan: Plan)
    requires s != [] && Mid(content, s, 0) && PlanMarked(content, s, plan)
    ensures forall t :: t in PublishTrace(s, plan, 0) ==> PublishedUnlessForeign(t)
    ensures AllInOrder(PublishTrace(s, plan, 0)) <==>
      (PublishFrom(s, plan, 0).0[|s| - 1].changed ==> NoLateEdit(s, plan, 0))
    ensures var p := PublishFrom(s, plan, 0).0;
      Rollback(p[|p| - 1], plan.rollback(|p| - 1)).1 ==> RegistryWithdrawn(p, plan)
  {
    hide PublishFrom, PublishTrace, Done, Fresh, PlanMarked, NoLateEdit;
    PublishTraceUnlessForeign(content, s, plan, 0);
    PublishTraceExactly(content, s, plan, 0);
    PublishFromFacts(content, s, plan, 0);
    var p := PublishFrom(s, plan, 0).0;
    RollbackFacts(content, p[|p| - 1], plan.rollback(|p| - 1));
    RollbackKeeps(p[|p| - 1], plan.rollback(|p| - 1));
  }

  const QUIET: Checkpoint := Checkpoint(true, _ => None, _ => None)

  /** A host file and a registry; the registry's directory sync fails, and so does renaming its backup back. */
  const HOST: Edit := Edit(Some(File(1, [1])), Some(File(1, [1])), Some([2]), None, None, None, false, false)
  const REGISTRY: Edit := Edit(Some(File(2, [3])), Some(File(2, [3])), Some([4]), None, None, None, false, false)
  const HOST_NEW: Edit := HOST.(live := Some(File(20, [2])), published := Some(20), backup := Some(Some(File(10, [1]))), backupStamp := Some(10), changed := true)
  const REGISTRY_NEW: Edit := REGISTRY.(live := Some(File(21, [4])), published := Some(21), backup := Some(Some(File(11, [3]))), backupStamp := Some(11), changed := true)
  const HOST_BACK: Edit := HOST_NEW.(live := Some(File(30, [1])), backup := Some(None))
  const STUCK: Plan := Plan(
    true, true,
    (i: nat) => PublishIo(if i == 1 then ParentSync else NoFault, 10 + i, [], 20 + i, true),
    (i: nat) => QUIET, true, (i: nat) => NoCleanFault, true,
    (i: nat) => RollbackIo(if i == 1 then RestoreRename else NoRollbackFault, 30 + i), true)

  lemma StuckHost()
    ensures Publish(HOST, STUCK.publish(0)) == (HOST_NEW, true)
  {}

  lemma StuckRegistry()
    ensures Publish(REGISTRY, STUCK.publish(1)) == (REGISTRY_NEW, false)
  {}

  lemma StuckPublish()
    ensures PublishFrom([HOST, REGISTRY], STUCK, 0) == ([HOST_NEW, REGISTRY_NEW], false)
  {
    var s, t, u := [HOST, REGISTRY], [HOST_NEW, REGISTRY], [HOST_NEW, REGISTRY_NEW];
    hide Publish, HOST, REGISTRY, HOST_NEW, REGISTRY_NEW;
    StuckHost();
    StuckRegistry();
    assert s[0 := HOST_NEW] == t && t[1 := REGISTRY_NEW] == u;
    assert DisturbAll(t, QUIET) == t;
    assert PublishFrom(t, STUCK, 1) == (u, false);
  }

  lemma StuckRollback()
    ensures RollbackFrom([HOST_NEW, REGISTRY_NEW], STUCK, 2) == ([HOST_BACK, REGISTRY_NEW], false)
  {
    var u, v := [HOST_NEW, REGISTRY_NEW], [HOST_BACK, REGISTRY_NEW];
    assert Rollback(HOST_NEW, STUCK.rollback(0)) == (HOST_BACK, true);
    assert Rollback(REGISTRY_NEW, STUCK.rollback(1)) == (REGISTRY_NEW, false);
    hide Rollback, HOST_NEW, REGISTRY_NEW, HOST_BACK;
    assert u[1 := REGISTRY_NEW] == u && u[0 := HOST_BACK] == v;
    assert RollbackFrom(v, STUCK, 0) == (v, true);
    assert RollbackFrom(u, STUCK, 1) == (v, true);
  }

  /** The same two files, no failures; another party replaces the host file right after its publication. */
  const INTRUDED: Plan := STUCK.(
    publish := (i: nat) => PublishIo(NoFault, 10 + i, [], 20 + i, true),
    checkpoint := (j: nat) => Checkpoint(true, (k: nat) => if j == 0 && k == 0 then Some(Some(File(99, [9]))) else None, _ => None))
  const HOST_FOREIGN: Edit := HOST_NEW.(live := Some(File(99, [9])))

  lemma IntrudedPublish()
    ensures Publish(HOST, INTRUDED.publish(0)) == (HOST_NEW, true)
    ensures Publish(REGISTRY, INTRUDED.publish(1)) == (REGISTRY_NEW, true)
  {}

  /** An edit between the host's publication and the registry's: a crash leaves a new registry beside a foreign host file. */
  lemma EditBreaksOrder()
    ensures var t := [HOST_FOREIGN, REGISTRY_NEW];
      t in PublishTrace([HOST, REGISTRY], INTRUDED, 0) && RegistryNew(t) && !InOrder(t)
  {
    var s, u, t := [HOST, REGISTRY], [HOST_NEW, REGISTRY], [HOST_FOREIGN, REGISTRY_NEW];
    var seen := [HOST_FOREIGN, REGISTRY];
    assert RegistryNew(t) && !InOrder(t) by {
      assert BytesOf(t[0].live) == Some([9]) && t[0].desired == Some([2]) && [9][0] != [2][0];
    }
    assert Disturb(HOST_NEW, INTRUDED.checkpoint(0).live(0), INTRUDED.checkpoint(0).backup(0)) == HOST_FOREIGN;
    assert Disturb(REGISTRY, INTRUDED.checkpoint(0).live(1), INTRUDED.checkpoint(0).backup(1)) == REGISTRY;
    hide Publish, PublishTrace, HOST, REGISTRY, HOST_NEW, REGISTRY_NEW, HOST_FOREIGN, Disturb;
    IntrudedPublish();
    assert s[0 := HOST_NEW] == u && seen[1 := REGISTRY_NEW] == t;
    assert DisturbAll(u, INTRUDED.checkpoint(0)) == seen;
    TraceStep(s, INTRUDED, 0);
    TraceStep(seen, INTRUDED, 1);
  }

  /**
   * Without a successful rollback of the registry the order can break: when the registry's backup cannot be renamed back, the files
   * rolled back after it leave a registry that names a generation whose other files are gone.
   */
  lemma FailedRegistryRollbackBreaksOrder()
    ensures var s := [HOST, REGISTRY];
      && (forall k :: 0 <= k < |s| ==> Fresh(s[k]) && s[k].live == s[k].original)
      && Commit(s, STUCK) == ([HOST_BACK, REGISTRY_NEW], Uncertain)
      && RegistryNew(Commit(s, STUCK).0) && !InOrder(Commit(s, STUCK).0)
  {
    hide PublishFrom, RollbackFrom, CleanFrom;
    StuckPublish();
    StuckRollback();
    var v := [HOST_BACK, REGISTRY_NEW];
    assert RegistryNew(v) && BytesOf(v[0].live) == Some([1]) && v[0].desired == Some([2]);
    assert [1][0] != [2][0];
  }
}
