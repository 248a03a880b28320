/** `DurableSpool`: the operations as code over its directories, each tied to its transition in SpoolState. */
module Spool {
  import opened Prelude
  import opened Record
  import opened Scanner
  import opened Validator
  import opened Paging
  import opened SpoolState
  import opened Recovery

  datatype DurableWrite = DurableWrite(endWatermark: nat, frameBytes: nat)

  class DurableSpool {
    const codec: Codec
    const limits: Limits
    var active: Option<File>
    var sealed: map<Name, File>
    var quarantine: map<nat, File>
    var nextInode: nat
    var watermark: nat
    ghost var handles: set<Handle>
    ghost var history: History

    ghost function View(): State
      reads this
    {
      State(active, sealed, quarantine, handles, nextInode, watermark, history)
    }

    constructor (codec: Codec, limits: Limits)
      ensures this.codec == codec && this.limits == limits && View() == EMPTY
    {
      this.codec := codec;
      this.limits := limits;
      active, sealed, quarantine, nextInode, watermark := None, map[], map[], 0, 0;
      handles := {};
      history := EMPTY.history;
    }

    /** `main_usage`: file count and saturating byte sum of the main directory. */
    method MainUsage() returns (files: nat, bytes: u64)
      ensures files == MainFiles(View()) && bytes == UsageBytes(View())
    {
      files, bytes := 0, 0;
      var rest := sealed;
      ghost var total: nat := 0;
      while rest != map[]
        invariant files + |rest| == |sealed|
        invariant total + Total(rest, LENGTH) == Total(sealed, LENGTH)
        invariant bytes == Min(total, U64_MAX)
        decreases |rest|
      {
        var n :| n in rest;
        TotalSplit(rest, LENGTH, n);
        assert |rest.Keys| == |(rest - {n}).Keys| + 1 by {
          assert rest.Keys == (rest - {n}).Keys + {n};
        }
        assert |rest| == |rest.Keys| && |rest - {n}| == |(rest - {n}).Keys|;
        files := files + 1;
        bytes := SaturatingAdd(bytes, Min(|rest[n].bytes|, U64_MAX));
        total := total + |rest[n].bytes|;
        rest := rest - {n};
      }
      if active.Some? {
        files := files + 1;
        bytes := SaturatingAdd(bytes, Min(|active.value.bytes|, U64_MAX));
      }
    }

    /** A successful sync of the main directory; it also makes the removal of moved files durable. */
    method SyncDirectory()
      modifies this`active, this`sealed, this`quarantine
      ensures View() == LinkMain(old(View()))
    {
      if active.Some? {
        active := Some(Linked(active.value));
      }
      sealed := map n | n in sealed :: Linked(sealed[n]);
      quarantine := map q | q in quarantine :: Departed(quarantine[q]);
    }

    method SyncQuarantine()
      modifies this`quarantine
      ensures View() == LinkCarriers(old(View()))
    {
      quarantine := map q | q in quarantine :: Arrived(quarantine[q]);
    }

    /** The syncs behind a move into quarantine, destination first. */
    method SyncMove(sync: MoveSync)
      modifies this`active, this`sealed, this`quarantine
      ensures View() == SyncMainIf(SyncCarriersIf(old(View()), !sync.NotSynced?), sync.BothSynced?)
    {
      if sync.NotSynced? {
        return;
      }
      SyncQuarantine();
      if sync.BothSynced? {
        SyncDirectory();
      }
    }

    /** Everything `append` checks before it writes; `None` lets the write go ahead. */
    method AppendRefusal(record: SpoolRecord, fault: Fault) returns (refusal: Option<SpoolError>)
      requires Sound(codec)
      ensures refusal.None? <==> Writes(codec, limits, View(), record, fault)
      ensures refusal == Some(Pressure) <==>
        !fault.LookupFails? && codec.accepts(record) && Pressured(limits, View(), active.None?, |codec.frame(record)|)
    {
      hide Inverts, Detects, Exact, Stable, Scan, Clean, MainFiles, UsageBytes;
      if fault.LookupFails? {
        return Some(Io);
      }
      if !codec.accepts(record) {
        return Some(FromFrameError(codec.refusal(record)));
      }
      FrameFits(codec, record);
      var files, bytes := MainUsage();
      if (active.None? && files >= limits.maxFiles) || SaturatingAdd(bytes, |codec.frame(record)|) > limits.high {
        return Some(Pressure);
      }
      if fault.OpenFails? {
        return Some(Io);
      }
      if active.Some? {
        var valid := ValidateActiveFile(codec, active.value.bytes, limits.high, true);
        if valid.Err? {
          return Some(valid.error);
        }
      }
      return None;
    }

    /** Write, sync, and for a new file sync the directory; `Some` carries the new length. */
    method WriteActive(frame: Bytes, fault: Fault) returns (length: Option<nat>)
      requires !fault.LookupFails? && !fault.OpenFails?
      modifies this`active, this`nextInode
      ensures var created := old(active).None?;
        && active == Some(Written(if created then Created(old(View())) else old(active).value, frame, created, fault))
        && nextInode == old(nextInode) + (if created then 1 else 0)
        && (length.Some? <==> fault.NoFault? || (fault.DirectorySyncFails? && !created))
      ensures length.Some? ==> length.value == |active.value.bytes|
    {
      var created := active.None?;
      var file := if created then File(nextInode, [], 0, false, false) else active.value;
      if created {
        nextInode := nextInode + 1;
      }
      var n := if fault.WriteFails? then Min(fault.written, |frame|) else |frame|;
      file := file.(bytes := file.bytes + frame[..n]);
      active := Some(file);
      if fault.WriteFails? || fault.SyncFails? {
        return None;
      }
      file := file.(synced := |file.bytes|);
      active := Some(file);
      if created {
        if fault.DirectorySyncFails? {
          return None;
        }
        file := file.(linked := true);
        active := Some(file);
      }
      if fault.MetadataFails? {
        return None;
      }
      return Some(|file.bytes|);
    }

    method Append(record: SpoolRecord, fault: Fault) returns (result: Result<DurableWrite, SpoolError>)
      requires Sound(codec)
      modifies this
      ensures View() == Step(codec, limits, old(View()), AppendEvent(record, fault))
      ensures result.Ok? <==> AppendOk(codec, limits, old(View()), record, fault)
      ensures result.Ok? ==> result.value == DurableWrite(watermark, |codec.frame(record)|)
      ensures result == Err(Pressure) <==>
        !fault.LookupFails? && codec.accepts(record) && Pressured(limits, old(View()), old(active).None?, |codec.frame(record)|)
    {
      hide Sound, Clean, Pressured, Written, Step, LinkMain;
      AppendStep(codec, limits, View(), record, fault);
      var refusal := AppendRefusal(record, fault);
      if refusal.Some? {
        return Err(refusal.value);
      }
      var frame := codec.frame(record);
      history := history.(attempted := history.attempted + multiset{record});
      var created := active.None?;
      var length := WriteActive(frame, fault);
      ghost var written := View();
      if created && !Interrupted(fault) {
        SyncDirectory();
      }
      if length.None? {
        return Err(Io);
      }
      watermark := length.value;
      history := history.(ok := history.ok + multiset{record});
      LinkCommutes(written, watermark, handles, history);
      return Ok(DurableWrite(watermark, |frame|));
    }

    /** Everything `append_isolated_sealed` checks before it creates its file. */
    method IsolatedRefusal(record: SpoolRecord, hint: string, fault: Fault) returns (refusal: Option<SpoolError>)
      requires Sound(codec)
      ensures refusal.None? <==> AdmitsIsolated(codec, limits, View(), hint, record, fault)
    {
      hide Sound, MainFiles, UsageBytes, HintTaken, ValidHint;
      if !ValidHint(hint) {
        return Some(InvalidConfiguration);
      }
      if fault.LookupFails? {
        return Some(Io);
      }
      if !codec.accepts(record) {
        return Some(FromFrameError(codec.refusal(record)));
      }
      FrameFits(codec, record);
      if HintTaken(sealed.Keys, hint) {
        return Some(DuplicateRecord);
      }
      var files, bytes := MainUsage();
      if files >= limits.maxFiles || SaturatingAdd(bytes, |codec.frame(record)|) > limits.high {
        return Some(Pressure);
      }
      return None;
    }

    /** What is done about a publication that failed: remove the file, then sync the directory. */
    method Cleanup(fault: Fault, cleanupSynced: bool)
      modifies this`active, this`sealed, this`quarantine
      ensures View() == SyncMainIf(old(View()), (!fault.OpenFails? && !Interrupted(fault)) || (!fault.NoFault? && cleanupSynced))
    {
      if (!fault.OpenFails? && !Interrupted(fault)) || (!fault.NoFault? && cleanupSynced) {
        SyncDirectory();
      }
    }

    method AppendIsolatedSealed(record: SpoolRecord, hint: string, fault: Fault, removed: bool, cleanupSynced: bool)
      returns (result: Result<Handle, SpoolError>)
      requires Sound(codec)
      modifies this
      ensures View() == Step(codec, limits, old(View()), IsolatedEvent(hint, record, fault, removed, cleanupSynced))
      ensures result.Ok? <==> WritesIsolated(codec, limits, old(View()), hint, record, fault) && fault.NoFault?
      ensures result.Ok? ==> result.value in handles && Acknowledgeable(result.value.page, |result.value.content|, 1)
    {
      hide Sound, AdmitsIsolated, Written, Step, LinkMain, SyncMainIf, Interrupted;
      IsolatedStep(codec, limits, View(), hint, record, fault, removed, cleanupSynced);
      var refusal := IsolatedRefusal(record, hint, fault);
      if refusal.Some? {
        NoSync(View());
        return Err(refusal.value);
      }
      if fault.OpenFails? {
        Cleanup(fault, cleanupSynced);
        return Err(Io);
      }
      var frame := codec.frame(record);
      var name := Isolated(hint, 0);
      var file := Written(File(nextInode, [], 0, false, false), frame, true, fault);
      nextInode := nextInode + 1;
      if !fault.NoFault? && removed {
        Cleanup(fault, cleanupSynced);
        return Err(Io);
      }
      sealed := sealed[name := file];
      ghost var written := View();
      ghost var synced := (!fault.OpenFails? && !Interrupted(fault)) || (!fault.NoFault? && cleanupSynced);
      Cleanup(fault, cleanupSynced);
      history := history.(attempted := history.attempted + multiset{record});
      SyncCommutes(written, synced, watermark, handles, history);
      if !fault.NoFault? {
        return Err(Io);
      }
      var handle := Handle(name, file.inode, file.bytes, Page(0, [SealedFrame(record, 0, |file.bytes|)], |file.bytes|));
      handles := handles + {handle};
      history := history.(ok := history.ok + multiset{record}, delivered := history.delivered + {record});
      SyncCommutes(written, synced, watermark, handles, history);
      return Ok(handle);
    }

    /** `unique_path` for a segment name. */
    method UniqueSegment(generation: nat) returns (index: Option<nat>)
      ensures index == FreeSegment(sealed.Keys, generation, 0)
    {
      var i := 0;
      while i < UNIQUE_LIMIT && Segment(generation, i) in sealed.Keys
        invariant 0 <= i <= UNIQUE_LIMIT
        invariant FreeSegment(sealed.Keys, generation, 0) == FreeSegment(sealed.Keys, generation, i)
      {
        i := i + 1;
      }
      return if i < UNIQUE_LIMIT then Some(i) else None;
    }

    method UniqueCarrier() returns (index: Option<nat>)
      ensures index == FreeCarrier(quarantine.Keys, 0)
    {
      var i := 0;
      while i < UNIQUE_LIMIT && i in quarantine.Keys
        invariant 0 <= i <= UNIQUE_LIMIT
        invariant FreeCarrier(quarantine.Keys, 0) == FreeCarrier(quarantine.Keys, i)
      {
        i := i + 1;
      }
      return if i < UNIQUE_LIMIT then Some(i) else None;
    }

    method SealActive(generation: nat, directorySynced: bool) returns (result: Result<Option<Name>, SpoolError>)
      modifies this
      requires Sound(codec)
      ensures View() == Step(codec, limits, old(View()), SealEvent(generation, directorySynced))
      ensures result == Ok(None) <==> old(active).None? || |old(active).value.bytes| == 0
      ensures result == Err(ResourceExhausted) <==>
        old(active).Some? && |old(active).value.bytes| > 0 && forall k :: 0 <= k < 1024 ==> Segment(generation, k) in old(sealed)
      ensures result == Err(Io) <==> Seals(old(View()), generation) && !directorySynced
      ensures result.Ok? && result.value.Some? <==> Seals(old(View()), generation) && directorySynced
      ensures result.Ok? && result.value.Some? ==>
        var name := result.value.value;
        && old(active).Some? && name !in old(sealed) && name in sealed
        && sealed[name].bytes == old(active).value.bytes && active.None?
        && name.Segment? && name.generation == generation && forall k :: 0 <= k < name.index ==> Segment(generation, k) in old(sealed)
    {
      hide Sound, Step, FreeSegment;
      SealStep(codec, limits, View(), generation, directorySynced);
      if active.None? || |active.value.bytes| == 0 {
        return Ok(None);
      }
      var index := UniqueSegment(generation);
      if index.None? {
        return Err(ResourceExhausted);
      }
      var file := active.value;
      var name := Segment(generation, index.value);
      active := None;
      sealed := sealed[name := file];
      if !directorySynced {
        return Err(Io);
      }
      SyncDirectory();
      watermark := 0;
      return Ok(Some(name));
    }

    /** `quarantine`: the carrier keeps every byte; it has moved even when a directory sync then fails. */
    method QuarantineSealed(name: Name, sync: MoveSync) returns (result: Result<(), SpoolError>)
      requires name in sealed
      modifies this
      ensures var moved := QuarantineSegment(old(View()), name);
        View() == if !HasCarrier(old(View())) then moved else SyncMainIf(SyncCarriersIf(moved, !sync.NotSynced?), sync.BothSynced?)
      ensures result.Ok? <==> name !in sealed && sync.BothSynced?
      ensures result == Err(Io) <==> name !in sealed && !sync.BothSynced?
      ensures result == Err(ResourceExhausted) <==> !HasCarrier(old(View()))
      ensures result.Ok? <==> HasCarrier(old(View())) && sync.BothSynced?
    {
      hide FreeCarrier;
      var index := UniqueCarrier();
      if index.None? {
        return Err(ResourceExhausted);
      }
      quarantine := quarantine[index.value := sealed[name].(moving := true)];
      sealed := sealed - {name};
      SyncMove(sync);
      return if sync.BothSynced? then Ok(()) else Err(Io);
    }

    /** `acknowledge_quarantine`: the carrier is released, and the quarantine directory synced. */
    method AcknowledgeQuarantine(carrier: nat, synced: bool) returns (result: Result<(), SpoolError>)
      requires Sound(codec)
      modifies this
      ensures View() == Step(codec, limits, old(View()), ReleaseEvent(carrier, synced))
      ensures result.Ok? <==> carrier in old(quarantine) && synced
    {
      hide Sound;
      if carrier !in quarantine {
        return Err(IdentityChanged);
      }
      history := history.(reconciled := history.reconciled + Stored(codec, quarantine[carrier]));
      quarantine := quarantine - {carrier};
      if !synced {
        return Err(Io);
      }
      SyncQuarantine();
      return Ok(());
    }

    method IngestPage(name: Name, from: Option<Handle>, sync: MoveSync) returns (result: Result<Handle, SpoolError>)
      requires Sound(codec)
      requires from.Some? ==> from.value in handles
      modifies this
      ensures View() == Step(codec, limits, old(View()), PageEvent(name, from, sync))
      ensures result.Ok? ==> result.value in handles && result.value.page.frames != []
      ensures result.Ok? <==>
        Readable(limits, old(View()), name, from) && ReadPage(codec, old(sealed)[name].bytes, StartOf(from)).Ok?
      ensures result.Ok? ==>
        var file := old(sealed)[name];
        result.value == Handle(name, file.inode, file.bytes, ReadPage(codec, file.bytes, StartOf(from)).value)
      ensures Readable(limits, old(View()), name, from) && Unreadable(codec, old(sealed)[name].bytes, StartOf(from)) ==>
        (result == Err(RecoveryRequired) <==> HasCarrier(old(View())) && sync.BothSynced?)
    {
      hide Inverts, Detects, Exact, Stable, Scan, Step, LinkMain, FreeCarrier;
      PageStep(codec, limits, View(), name, from, sync);
      if from.Some? && from.value.page.end >= |from.value.content| {
        return Err(InvalidConfiguration);
      }
      if name !in sealed || !name.Segment? || (from.Some? && from.value.name != name) {
        return Err(IdentityChanged);
      }
      var file := sealed[name];
      if |file.bytes| == 0 || |file.bytes| > limits.high {
        return Err(SpoolCorrupt);
      }
      if from.Some? && (file.inode != from.value.inode || file.bytes != from.value.content) {
        return Err(IdentityChanged);
      }
      var start := StartOf(from);
      var window := Window(file.bytes, start);
      var scan := ScanFrames(codec, window);
      var invalid := scan.Err? || (|window| == |file.bytes| - start && scan.value.incompleteTail) || scan.value.frames == [];
      if invalid {
        var moved := QuarantineSealed(name, sync);
        return Err(if moved.Ok? then RecoveryRequired else moved.error);
      }
      var page := ReadPageAt(codec, file.bytes, start);
      if page.Err? {
        return Err(page.error);
      }
      PageProgress(codec, file.bytes, start);
      var handle := Handle(name, file.inode, file.bytes, page.value);
      handles := handles + {handle};
      history := history.(delivered := history.delivered + PageRecords(page.value));
      return Ok(handle);
    }

    /** `acknowledge_segment`: the file is gone even when the directory sync behind its removal fails. */
    method AcknowledgeSegment(segment: Handle, committed: nat, synced: bool) returns (result: Result<(), SpoolError>)
      requires Sound(codec) && segment in handles
      modifies this
      ensures View() == Step(codec, limits, old(View()), AcknowledgeEvent(segment, committed, synced))
      ensures result.Ok? <==> CanAcknowledge(old(View()), segment, committed) && synced
    {
      hide Sound;
      if segment.page.end != |segment.content| || committed != |segment.page.frames| || committed == 0 {
        return Err(InvalidAcknowledgement);
      }
      if segment.name !in sealed || sealed[segment.name].inode != segment.inode
         || sealed[segment.name].bytes != segment.content {
        return Err(IdentityChanged);
      }
      history := history.(acked := history.acked + Stored(codec, sealed[segment.name]));
      sealed := sealed - {segment.name};
      if !synced {
        return Err(Io);
      }
      SyncDirectory();
      return Ok(());
    }

    /**
     * `gc_cas_refs_intersect`: it concludes exactly when nothing is quarantined, the directory is within the
     * caller's bounds, every file is whole frames with decodable bodies and no record id repeats; the result is
     * then exactly the candidates some durable record refers to.
     */
    method GcCasRefsIntersect(candidates: set<Bytes>, maxSegments: nat, maxBytes: nat) returns (result: Result<set<Bytes>, SpoolError>)
      requires Sound(codec)
      ensures result.Ok? <==> Conclusive(codec, View(), maxSegments, maxBytes)
      ensures result.Ok? ==> result.value == candidates * MainRefs(codec, View())
    {
      hide Sound, Visitable, NoRepeat, FileRefs, Gather, Total, WholeFrames;
      if quarantine != map[] {
        return Err(SpoolCorrupt);
      }
      if maxSegments == 0 || maxBytes == 0 {
        return Err(InvalidConfiguration);
      }
      if |sealed| + (if active.Some? then 1 else 0) > maxSegments {
        return Err(ResourceExhausted);
      }
      var retained: set<Bytes>, ids: set<Bytes>, consumed := {}, {}, 0;
      ghost var others := Gather(sealed, IdsBy(codec));
      if active.Some? {
        consumed := |active.value.bytes|;
        if consumed > maxBytes {
          return Err(ResourceExhausted);
        }
        RepeatGrows(Ids(WholeFrames(codec, active.value.bytes)), others);
        var visited := VisitFile(codec, active.value.bytes, candidates, retained, ids);
        if visited.Err? {
          return Err(visited.error);
        }
        retained, ids := visited.value.0, visited.value.1;
      }
      assert multiset(ids) == if active.Some? then Ids(WholeFrames(codec, active.value.bytes)) else multiset{};
      assert consumed == ActiveLength(active);
      result := VisitSealed(codec, sealed, candidates, retained, ids, consumed, maxBytes);
    }

    /** One segment of `recover`'s sweep. */
    method RecoverOne(name: Name, sync: MoveSync) returns (result: Result<(), SpoolError>)
      requires Sound(codec) && name in sealed
      modifies this
      ensures View() == Step(codec, limits, old(View()), RecoverSegmentEvent(name, sync))
      ensures result.Ok? ==> name !in sealed || Healthy(codec, sealed[name].bytes)
      ensures result.Ok? <==> Healthy(codec, old(sealed)[name].bytes) || (HasCarrier(old(View())) && sync.BothSynced?)
    {
      hide Inverts, Detects, Exact, Stable, Scan, HasCarrier, LinkMain, LinkCarriers;
      var scan := ScanFrames(codec, sealed[name].bytes);
      if scan.Err? || scan.value.incompleteTail || scan.value.frames == [] {
        result := QuarantineSealed(name, sync);
      } else {
        result := Ok(());
      }
    }

    /** The active file's part of `recover`: cut the torn tail off, or quarantine a corrupt file. */
    method RecoverTail(sync: MoveSync) returns (result: Result<nat, SpoolError>)
      requires Sound(codec)
      modifies this
      ensures View() == Step(codec, limits, old(View()), RecoverActiveEvent(sync))
      ensures result.Ok? && active.Some? ==> Clean(codec, active.value.bytes)
      ensures result.Ok? <==>
        TailSyncs(codec, old(active), sync) && (CorruptActive(codec, old(active)) ==> HasCarrier(old(View())))
      ensures result.Ok? ==> TailRepaired(codec, old(active), active, result.value, watermark)
    {
      hide Inverts, Detects, Exact, Stable, Scan, FreeCarrier;
      if active.None? {
        return Ok(0);
      }
      var file := active.value;
      var scan := ScanFrames(codec, file.bytes);
      if scan.Err? {
        var index := UniqueCarrier();
        if index.None? {
          return Err(ResourceExhausted);
        }
        quarantine := quarantine[index.value := file.(moving := true)];
        active := None;
        SyncMove(sync);
        if !sync.BothSynced? {
          return Err(Io);
        }
        watermark := 0;
        return Ok(0);
      }
      EncodeScanned(codec, file.bytes);
      var complete := scan.value.completeLength;
      if !scan.value.incompleteTail {
        watermark := complete;
        return Ok(0);
      }
      RemainderScan(codec, file.bytes);
      TruncatedIsClean(codec, file.bytes);
      if sync.NotSynced? {
        active := Some(file.(bytes := file.bytes[..complete], synced := Min(file.synced, complete)));
        return Err(Io);
      }
      active := Some(file.(bytes := file.bytes[..complete], synced := complete));
      watermark := complete;
      return Ok(|file.bytes| - complete);
    }

    /**
     * `recover`: a sweep over the sealed segments, then the active file.  It succeeds exactly when there is a free
     * carrier for every file it has to move and the syncs succeed.  Then every unhealthy segment and a corrupt
     * active file lie in carriers of their own, `carriers` telling which, every other file is where it was, and
     * the active file is its complete prefix; the result counts the bytes cut off.
     */
    method Recover(syncs: Name -> MoveSync, tailSync: MoveSync)
      returns (result: Result<nat, SpoolError>, ghost events: seq<Event>, ghost carriers: map<Option<Name>, nat>)
      requires Sound(codec)
      modifies this
      ensures View() == Run(codec, limits, old(View()), events)
      ensures forall e :: e in events ==> e.RecoverSegmentEvent? || e.RecoverActiveEvent?
      ensures result.Ok? ==> forall n :: n in sealed ==> Healthy(codec, sealed[n].bytes)
      ensures result.Ok? && active.Some? ==> Clean(codec, active.value.bytes)
      ensures result.Ok? <==> Recovers(codec, old(View()), syncs, tailSync)
      ensures result.Ok? ==> carriers.Keys == Doomed(codec, old(View())) && Moved(old(View()), View(), carriers)
      ensures result.Ok? ==> TailRepaired(codec, old(active), active, result.value, watermark)
    {
      hide Sound, Healthy, Clean, Step, Run, HasCarrier, Moved, TailSyncs, CorruptActive, TailRepaired, Sweeping, Recovers, Doomed;
      events, carriers := [], map[];
      var todo := sealed.Keys;
      SweepStarts(codec, View(), syncs);
      RunNothing(codec, limits, View());
      while todo != {}
        invariant todo <= sealed.Keys
        invariant View() == Run(codec, limits, old(View()), events)
        invariant forall e :: e in events ==> e.RecoverSegmentEvent?
        invariant forall n :: n in sealed && n !in todo ==> Healthy(codec, sealed[n].bytes)
        invariant Sweeping(codec, old(View()), View(), syncs, todo, carriers)
        decreases todo
      {
        var n :| n in todo;
        ghost var before := View();
        var recovered := RecoverOne(n, syncs(n));
        RecoverTouchesOne(codec, limits, before, n, syncs(n));
        RunSnoc(codec, limits, old(View()), events, RecoverSegmentEvent(n, syncs(n)));
        events := events + [RecoverSegmentEvent(n, syncs(n))];
        if recovered.Err? {
          SweepFails(codec, old(View()), before, syncs, tailSync, todo, carriers, n);
          return Err(recovered.error), events, carriers;
        }
        carriers := SweepStep(codec, limits, old(View()), before, syncs, todo, carriers, n);
        todo := todo - {n};
      }
      ghost var before := View();
      TailDecides(codec, old(View()), before, syncs, tailSync, carriers);
      result := RecoverTail(tailSync);
      RecoverLeavesSealed(codec, limits, before, tailSync);
      RunSnoc(codec, limits, old(View()), events, RecoverActiveEvent(tailSync));
      events := events + [RecoverActiveEvent(tailSync)];
      if result.Ok? {
        carriers := TailStep(codec, limits, old(View()), before, tailSync, carriers);
        TailOfSame(codec, old(active), before.active, active, result.value, watermark);
      }
    }
  }

  /* ---------- steps, event by event ---------- */

  lemma LinkCommutes(s: State, watermark: nat, handles: set<Handle>, history: History)
    ensures LinkMain(s.(watermark := watermark, handles := handles, history := history))
         == LinkMain(s).(watermark := watermark, handles := handles, history := history)
  {}

  lemma NoSync(s: State)
    ensures SyncMainIf(s, false) == s
  {}

  lemma SyncCommutes(s: State, synced: bool, watermark: nat, handles: set<Handle>, history: History)
    ensures SyncMainIf(s.(watermark := watermark, handles := handles, history := history), synced)
         == SyncMainIf(s, synced).(watermark := watermark, handles := handles, history := history)
  {}

  lemma AppendStep(c: Codec, l: Limits, s: State, r: SpoolRecord, fault: Fault)
    requires Sound(c)
    ensures Step(c, l, s, AppendEvent(r, fault))
         == SyncMainIf(SpoolState.Append(c, l, s, r, fault), s.active.None? && Writes(c, l, s, r, fault) && !Interrupted(fault))
  {
    hide Sound, SpoolState.Append, Writes, LinkMain;
  }

  lemma IsolatedStep(c: Codec, l: Limits, s: State, hint: string, r: SpoolRecord, fault: Fault, removed: bool, cleanupSynced: bool)
    requires Sound(c)
    ensures Step(c, l, s, IsolatedEvent(hint, r, fault, removed, cleanupSynced))
         == SyncMainIf(AppendIsolated(c, l, s, hint, r, fault, removed),
              AdmitsIsolated(c, l, s, hint, r, fault) && ((!fault.OpenFails? && !Interrupted(fault)) || (!fault.NoFault? && cleanupSynced)))
  {
    hide Sound, AppendIsolated, AdmitsIsolated, LinkMain;
  }

  lemma SealStep(c: Codec, l: Limits, s: State, generation: nat, synced: bool)
    requires Sound(c)
    ensures Step(c, l, s, SealEvent(generation, synced)) == SyncMainIf(Seal(s, generation, synced), synced && Seals(s, generation))
  {
    hide Sound, Seal, Seals, LinkMain;
  }

  lemma PageStep(c: Codec, l: Limits, s: State, name: Name, from: Option<Handle>, sync: MoveSync)
    requires Sound(c)
    ensures Step(c, l, s, PageEvent(name, from, sync)) ==
      if Readable(l, s, name, from) && Unreadable(c, s.sealed[name].bytes, StartOf(from)) && HasCarrier(s)
      then SyncMainIf(SyncCarriersIf(SpoolState.IngestPage(c, l, s, name, from), !sync.NotSynced?), sync.BothSynced?)
      else SpoolState.IngestPage(c, l, s, name, from)
  {
    hide Sound, SpoolState.IngestPage, Readable, Unreadable, HasCarrier, LinkMain, LinkCarriers;
  }

  /* ---------- visiting all durable records ---------- */

  /** The record ids of a run of records, with repetitions. */
  ghost function Ids(rs: seq<SpoolRecord>): multiset<Bytes> {
    if rs == [] then multiset{} else Ids(rs[..|rs| - 1]) + multiset{rs[|rs| - 1].recordId}
  }

  ghost function IdsBy(c: Codec): File -> multiset<Bytes> { (f: File) => Ids(WholeFrames(c, f.bytes)) }

  ghost predicate NoRepeat(m: multiset<Bytes>) { forall x :: m[x] <= 1 }

  /** Whole frames only, every body decodable. */
  ghost predicate Visitable(c: Codec, bytes: Bytes)
    requires Sound(c)
  {
    Clean(c, bytes) && Decodable(WholeFrames(c, bytes))
  }

  ghost predicate Conclusive(c: Codec, s: State, maxSegments: nat, maxBytes: nat)
    requires Sound(c)
  {
    s.quarantine == map[] && MainConclusive(c, s, maxSegments, maxBytes)
  }

  /** What the scan of the main directory needs, the quarantine apart. */
  ghost predicate MainConclusive(c: Codec, s: State, maxSegments: nat, maxBytes: nat)
    requires Sound(c)
  {
    && 0 < maxSegments && 0 < maxBytes && MainFiles(s) <= maxSegments && MainBytes(s) <= maxBytes
    && (s.active.Some? ==> Visitable(c, s.active.value.bytes))
    && (forall n :: n in s.sealed ==> Visitable(c, s.sealed[n].bytes))
    && NoRepeat((if s.active.Some? then Ids(WholeFrames(c, s.active.value.bytes)) else multiset{}) + Gather(s.sealed, IdsBy(c)))
  }

  lemma RepeatGrows(a: multiset<Bytes>, b: multiset<Bytes>)
    ensures NoRepeat(a + b) ==> NoRepeat(multiset({}) + a)
  {
    PartOf(a, b);
    assert multiset({}) + a == a;
  }

  lemma {:induction false} IdsPrefix(rs: seq<SpoolRecord>, k: nat)
    requires k <= |rs|
    ensures Ids(rs[..k]) <= Ids(rs)
    decreases |rs|
  {
    if k == |rs| {
      assert rs[..k] == rs;
    } else {
      var n := |rs| - 1;
      IdsPrefix(rs[..n], k);
      assert rs[..n][..k] == rs[..k];
    }
  }

  /** A repeated id shows in the whole file. */
  lemma RepeatFound(rs: seq<SpoolRecord>, k: nat, ids: set<Bytes>)
    requires k < |rs| && (multiset(ids) + Ids(rs[..k]))[rs[k].recordId] >= 1
    ensures !NoRepeat(multiset(ids) + Ids(rs))
  {
    IdsPrefix(rs, k + 1);
    assert rs[..k + 1][..k] == rs[..k];
    assert (multiset(ids) + Ids(rs[..k + 1]))[rs[k].recordId] >= 2;
    assert (multiset(ids) + Ids(rs))[rs[k].recordId] >= 2;
  }

  lemma SetHasNoRepeat(s: set<Bytes>)
    ensures NoRepeat(multiset(s))
  {}

  lemma OneMore(rs: seq<SpoolRecord>, i: nat)
    requires i < |rs|
    ensures Ids(rs[..i + 1]) == Ids(rs[..i]) + multiset{rs[i].recordId}
    ensures RefsOf(rs[..i + 1]) == RefsOf(rs[..i]) + if DecodeValidated(rs[i]).Some? then {DecodeValidated(rs[i]).value.casRef} else {}
  {
    assert rs[..i + 1][..i] == rs[..i];
  }

  lemma NoneYet(rs: seq<SpoolRecord>)
    ensures Ids(rs[..0]) == multiset{} && RefsOf(rs[..0]) == {} && rs[..|rs|] == rs
  {}

  /** The records of one file: ids must be new, bodies must decode, references are kept if they are candidates. */
  method VisitRecords(rs: seq<SpoolRecord>, candidates: set<Bytes>, retained: set<Bytes>, ids: set<Bytes>)
    returns (result: Result<(set<Bytes>, set<Bytes>), SpoolError>)
    ensures result.Ok? <==> Decodable(rs) && NoRepeat(multiset(ids) + Ids(rs))
    ensures result.Ok? ==>
      && result.value.0 == retained + candidates * RefsOf(rs)
      && multiset(result.value.1) == multiset(ids) + Ids(rs)
  {
    hide DecodeValidated, NoRepeat, Ids, RefsOf;
    var kept, seen := retained, ids;
    NoneYet(rs);
    for i := 0 to |rs|
      invariant kept == retained + candidates * RefsOf(rs[..i])
      invariant multiset(seen) == multiset(ids) + Ids(rs[..i])
      invariant forall j :: 0 <= j < i ==> DecodeValidated(rs[j]).Some?
    {
      OneMore(rs, i);
      var record := rs[i];
      if record.recordId in seen {
        assert record.recordId in multiset(seen);
        RepeatFound(rs, i, ids);
        return Err(DuplicateRecord);
      }
      assert multiset(seen + {record.recordId}) == multiset(seen) + multiset{record.recordId};
      seen := seen + {record.recordId};
      var body := DecodeValidated(record);
      if body.None? {
        return Err(FrameInvalid);
      }
      if body.value.casRef in candidates {
        kept := kept + {body.value.casRef};
      }
    }
    SetHasNoRepeat(seen);
    return Ok((kept, seen));
  }

  /** `visit_durable_records` on one file. */
  method VisitFile(c: Codec, bytes: Bytes, candidates: set<Bytes>, retained: set<Bytes>, ids: set<Bytes>)
    returns (result: Result<(set<Bytes>, set<Bytes>), SpoolError>)
    requires Sound(c)
    ensures result.Ok? <==> Visitable(c, bytes) && NoRepeat(multiset(ids) + Ids(WholeFrames(c, bytes)))
    ensures result.Ok? ==>
      && result.value.0 == retained + candidates * FileRefs(c, bytes)
      && multiset(result.value.1) == multiset(ids) + Ids(WholeFrames(c, bytes))
  {
    hide Sound, Scan, DecodeValidated, NoRepeat, Ids, RefsOf;
    var scan := ScanFrames(c, bytes);
    if scan.Err? {
      return Err(FromFrameError(scan.error));
    }
    EncodeScanned(c, bytes);
    if scan.value.incompleteTail || scan.value.completeLength != |bytes| {
      return Err(SpoolCorrupt);
    }
    assert WholeFrames(c, bytes) == Records(scan.value.frames);
    result := VisitRecords(Records(scan.value.frames), candidates, retained, ids);
  }

  ghost function RefsIn(c: Codec, files: map<Name, File>): set<Bytes> {
    set n, d | n in files && d in FileRefs(c, files[n].bytes) :: d
  }

  lemma RefsSplit(c: Codec, files: map<Name, File>, n: Name)
    requires n in files
    ensures RefsIn(c, files) == FileRefs(c, files[n].bytes) + RefsIn(c, files - {n})
  {
    hide FileRefs;
    var rest := files - {n};
    forall d | d in RefsIn(c, files) ensures d in FileRefs(c, files[n].bytes) + RefsIn(c, rest) {
      var m :| m in files && d in FileRefs(c, files[m].bytes);
      assert m != n ==> m in rest && rest[m] == files[m];
    }
    forall d | d in RefsIn(c, rest) ensures d in RefsIn(c, files) {
      var m :| m in rest && d in FileRefs(c, rest[m].bytes);
      assert m in files && rest[m] == files[m];
    }
  }

  /** What visiting one file settles of the accounts. */
  lemma VisitedOne(c: Codec, rest: map<Name, File>, n: Name, candidates: set<Bytes>, kept: set<Bytes>, seen: set<Bytes>,
                   kept': set<Bytes>, seen': set<Bytes>)
    requires n in rest
    requires kept' == kept + candidates * FileRefs(c, rest[n].bytes)
    requires multiset(seen') == multiset(seen) + Ids(WholeFrames(c, rest[n].bytes))
    ensures multiset(seen') + Gather(rest - {n}, IdsBy(c)) == multiset(seen) + Gather(rest, IdsBy(c))
    ensures kept' + candidates * RefsIn(c, rest - {n}) == kept + candidates * RefsIn(c, rest)
  {
    hide FileRefs, RefsIn, WholeFrames, Ids, Gather;
    GatherSplit(rest, IdsBy(c), n);
    RefsSplit(c, rest, n);
  }

  lemma BeforeVisiting(c: Codec, rest: map<Name, File>, n: Name, seen: set<Bytes>)
    requires n in rest
    ensures Total(rest, LENGTH) == |rest[n].bytes| + Total(rest - {n}, LENGTH) && |rest - {n}| < |rest|
    ensures NoRepeat(multiset(seen) + Gather(rest, IdsBy(c))) ==> NoRepeat(multiset(seen) + Ids(WholeFrames(c, rest[n].bytes)))
  {
    hide WholeFrames, Ids, Gather, Total, NoRepeat;
    TotalSplit(rest, LENGTH, n);
    GatherSplit(rest, IdsBy(c), n);
    assert rest.Keys == (rest - {n}).Keys + {n};
    assert |rest| == |rest.Keys| && |rest - {n}| == |(rest - {n}).Keys|;
    var a, b := multiset(seen) + Ids(WholeFrames(c, rest[n].bytes)), Gather(rest - {n}, IdsBy(c));
    PartOf(a, b);
    assert a + b == multiset(seen) + Gather(rest, IdsBy(c));
  }

  /** All sealed files, one after another, against what is left of the byte budget. */
  method VisitSealed(c: Codec, sealed: map<Name, File>, candidates: set<Bytes>, retained: set<Bytes>, ids: set<Bytes>,
                     consumed: nat, maxBytes: nat) returns (result: Result<set<Bytes>, SpoolError>)
    requires Sound(c) && consumed <= maxBytes
    ensures result.Ok? <==>
      && consumed + Total(sealed, LENGTH) <= maxBytes
      && (forall n :: n in sealed ==> Visitable(c, sealed[n].bytes))
      && NoRepeat(multiset(ids) + Gather(sealed, IdsBy(c)))
    ensures result.Ok? ==> result.value == retained + candidates * RefsIn(c, sealed)
  {
    hide Sound, Visitable, NoRepeat, FileRefs, RefsIn, WholeFrames, Gather, Total, Ids, IdsBy;
    EmptyTotals(c);
    var kept, seen, used, rest := retained, ids, consumed, sealed;
    while rest != map[]
      invariant rest.Keys <= sealed.Keys && forall n :: n in rest ==> rest[n] == sealed[n]
      invariant used <= maxBytes && used + Total(rest, LENGTH) == consumed + Total(sealed, LENGTH)
      invariant multiset(seen) + Gather(rest, IdsBy(c)) == multiset(ids) + Gather(sealed, IdsBy(c))
      invariant kept + candidates * RefsIn(c, rest) == retained + candidates * RefsIn(c, sealed)
      invariant forall n :: n in sealed && n !in rest ==> Visitable(c, sealed[n].bytes)
      decreases |rest|
    {
      var n :| n in rest;
      BeforeVisiting(c, rest, n, seen);
      if used + |rest[n].bytes| > maxBytes {
        return Err(ResourceExhausted);
      }
      used := used + |rest[n].bytes|;
      var visited := VisitFile(c, rest[n].bytes, candidates, kept, seen);
      if visited.Err? {
        assert n in sealed;
        return Err(visited.error);
      }
      VisitedOne(c, rest, n, candidates, kept, seen, visited.value.0, visited.value.1);
      kept, seen := visited.value.0, visited.value.1;
      rest := rest - {n};
    }
    SetHasNoRepeat(seen);
    assert multiset(seen) + multiset{} == multiset(seen);
    return Ok(kept);
  }

  lemma EmptyTotals(c: Codec)
    ensures Total<Name, File>(map[], LENGTH) == 0 && Gather<Name, File, Bytes>(map[], IdsBy(c)) == multiset{}
    ensures RefsIn(c, map[]) == {}
  {}

  lemma PartOf(a: multiset<Bytes>, b: multiset<Bytes>)
    ensures NoRepeat(a + b) ==> NoRepeat(a)
  {
    forall x ensures NoRepeat(a + b) ==> a[x] <= 1 {
      assert (a + b)[x] >= a[x];
    }
  }

  lemma TruncatedIsClean(c: Codec, b: Bytes)
    requires Sound(c) && Scan(c, b).Ok? && Scan(c, b).value.completeLength <= |b|
    ensures Clean(c, b[..Scan(c, b).value.completeLength])
  {
    hide Inverts, Detects, Exact, Stable, Scan;
    EncodeScanned(c, b);
    ScanOfEncoded(c, Records(Scan(c, b).value.frames));
  }

  lemma RecoverTouchesOne(c: Codec, l: Limits, s: State, name: Name, sync: MoveSync)
    requires Sound(c)
    ensures var s' := Step(c, l, s, RecoverSegmentEvent(name, sync));
      && s.sealed.Keys - {name} <= s'.sealed.Keys <= s.sealed.Keys
      && forall n :: n in s'.sealed ==> s'.sealed[n].bytes == s.sealed[n].bytes
  {
    hide Sound, Healthy;
  }

  lemma RecoverLeavesSealed(c: Codec, l: Limits, s: State, sync: MoveSync)
    requires Sound(c)
    ensures var s' := Step(c, l, s, RecoverActiveEvent(sync));
      s'.sealed.Keys == s.sealed.Keys && forall n :: n in s'.sealed ==> s'.sealed[n].bytes == s.sealed[n].bytes
  {
    hide Sound, Scan;
  }

  lemma FrameFits(c: Codec, r: SpoolRecord)
    requires Sound(c) && c.accepts(r)
    ensures |c.frame(r)| <= U64_MAX
  {}

  lemma RunNothing(c: Codec, l: Limits, s: State)
    requires Sound(c)
    ensures Run(c, l, s, []) == s
  {}

  lemma {:induction false} RunSnoc(c: Codec, l: Limits, s: State, es: seq<Event>, e: Event)
    requires Sound(c)
    ensures Run(c, l, s, es + [e]) == Step(c, l, Run(c, l, s, es), e)
    decreases |es|
  {
    hide Sound, Step;
    if es == [] {
      assert [] + [e] == [e] && [e][1..] == [];
      assert Run(c, l, s, [e]) == Run(c, l, Step(c, l, s, e), []);
    } else {
      assert (es + [e])[1..] == es[1..] + [e];
      RunSnoc(c, l, Step(c, l, s, es[0]), es[1..], e);
    }
  }
}
