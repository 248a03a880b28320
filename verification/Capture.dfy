/**
 * Capture and maintenance as interleaved actors.  A capture holds the shared fence from before its
 * blob is published until after its frame is appended; the collector holds the exclusive fence while
 * it lists the quarantine, intersects its candidates with the spool and deletes the rest.  Sealing,
 * ingest, acknowledgement and recovery take no fence and may happen at any point.  A power failure ends
 * every process and takes what neither store has made durable.
 */
module Capture {
  import opened Prelude
  import opened Record
  import opened Scanner
  import opened Validator
  import opened Paging
  import opened SpoolState
  import opened SpoolRuns
  import Spool

  datatype Phase = Holding(digest: Bytes) | Published(digest: Bytes)

  datatype Collector = Off | Guarded | Listed(candidates: set<Bytes>) | Scanned(candidates: set<Bytes>, retained: set<Bytes>)

  /**
   * `entered` are the blobs whose entry in their shard directory is durable, `shards` the shard directories whose own
   * entry is.  `captures` are the processes holding the shared fence; the collector holds the exclusive one unless it
   * is Off.
   */
  datatype System = System(
    spool: State, blobs: set<Bytes>, entered: set<Bytes>, shards: set<Bytes>, captures: map<nat, Phase>, collector: Collector)

  /** A blob lies in the directory named by the first two digits of its digest. */
  function ShardOf(d: Bytes): Bytes { d[..Min(2, |d|)] }

  /** The blobs that share a directory with `d`: one sync makes all their entries durable. */
  function Mates(blobs: set<Bytes>, d: Bytes): set<Bytes> { set x | x in blobs && ShardOf(x) == ShardOf(d) }

  /** A power failure cannot take the blob. */
  predicate Lasting(sys: System, d: Bytes) { d in sys.entered && ShardOf(d) in sys.shards }

  function Survivors(sys: System, lost: set<Bytes>): set<Bytes> { set d | d in sys.blobs && (Lasting(sys, d) || d !in lost) }

  datatype Action =
    | LockShared(pid: nat, digest: Bytes)
    | PutBlob(pid: nat, synced: bool)
    | AppendFrame(pid: nat, record: SpoolRecord, fault: Fault)
    | AppendIsolatedFrame(pid: nat, hint: string, record: SpoolRecord, fault: Fault, removed: bool, cleanupSynced: bool)
    | UnlockShared(pid: nat)
    | LockExclusive
    | ListQuarantine(candidates: set<Bytes>)
    | ScanSpool(maxSegments: nat, maxBytes: nat)
    | DeleteBlob(digest: Bytes, synced: bool)
    | UnlockExclusive
    | Background(event: Event)
    | PowerFails(loss: Loss, lost: set<Bytes>)

  predicate Publishing(sys: System, pid: nat, r: SpoolRecord) {
    pid in sys.captures && sys.captures[pid].Published? && r.casRefs == [sys.captures[pid].digest]
  }

  /** Every action whose guard fails is refused and changes nothing. */
  ghost function Act(c: Codec, l: Limits, sys: System, a: Action): System
    requires Sound(c)
  {
    match a
    case LockShared(p, d) =>
      if p in sys.captures || !sys.collector.Off? then sys else sys.(captures := sys.captures[p := Holding(d)])
    case PutBlob(p, synced) =>
      if p !in sys.captures || !sys.captures[p].Holding? then sys else
      var d := sys.captures[p].digest;
      var published := sys.captures[p := Published(d)];
      if d in sys.blobs then sys.(captures := published)  // found in place: nothing is synced
      else if !synced then sys.(blobs := sys.blobs + {d})
      else sys.(blobs := sys.blobs + {d}, entered := sys.entered + Mates(sys.blobs + {d}, d), captures := published)
    case AppendFrame(p, r, fault) =>
      if !Publishing(sys, p, r) then sys else sys.(spool := Step(c, l, sys.spool, AppendEvent(r, fault)))
    case AppendIsolatedFrame(p, hint, r, fault, removed, cleanupSynced) =>
      if !Publishing(sys, p, r) then sys
      else sys.(spool := Step(c, l, sys.spool, IsolatedEvent(hint, r, fault, removed, cleanupSynced)))
    case UnlockShared(p) => sys.(captures := sys.captures - {p})
    case LockExclusive =>
      if sys.captures != map[] || !sys.collector.Off? then sys else sys.(collector := Guarded)
    case ListQuarantine(candidates) =>
      if !sys.collector.Guarded? || sys.spool.quarantine != map[] then sys else sys.(collector := Listed(candidates))
    case ScanSpool(maxSegments, maxBytes) =>
      if !sys.collector.Listed? || !Spool.MainConclusive(c, sys.spool, maxSegments, maxBytes) then sys else
      var candidates := sys.collector.candidates;
      sys.(collector := Scanned(candidates, candidates * MainRefs(c, sys.spool)))
    case DeleteBlob(d, synced) =>
      if !sys.collector.Scanned? || d !in sys.collector.candidates - sys.collector.retained then sys
      else sys.(blobs := sys.blobs - {d}, entered := sys.entered - {d} + if synced then Mates(sys.blobs - {d}, d) else {})
    case UnlockExclusive => sys.(collector := Off)
    case Background(e) =>
      if e.AppendEvent? || e.IsolatedEvent? || e.PowerLossEvent? then sys else sys.(spool := Step(c, l, sys.spool, e))
    case PowerFails(loss, lost) =>
      var left := Survivors(sys, lost);
      System(PowerLoss(sys.spool, loss), left, left, sys.shards + (set d | d in left :: ShardOf(d)), map[], Off)
  }

  ghost function Acts(c: Codec, l: Limits, sys: System, acts: seq<Action>): System
    requires Sound(c)
    decreases |acts|
  {
    if acts == [] then sys else Acts(c, l, Act(c, l, sys, acts[0]), acts[1..])
  }

  /* ---------- what the spool refers to ---------- */

  ghost predicate InMain(c: Codec, s: State, r: SpoolRecord) {
    (s.active.Some? && r in WholeFrames(c, s.active.value.bytes))
    || exists n :: n in s.sealed && r in WholeFrames(c, s.sealed[n].bytes)
  }

  ghost predicate InQuarantine(c: Codec, s: State, r: SpoolRecord) {
    exists q :: q in s.quarantine && r in WholeFrames(c, s.quarantine[q].bytes)
  }

  /** Every blob the record refers to exists. */
  predicate Backed(blobs: set<Bytes>, r: SpoolRecord) { forall d :: d in r.casRefs ==> d in blobs }

  /** The collector's scan covers the record. */
  predicate Covered(k: Collector, r: SpoolRecord) {
    k.Scanned? ==> forall d :: d in r.casRefs && d in k.candidates ==> d in k.retained
  }

  ghost predicate MainBacked(c: Codec, sys: System) {
    forall r :: InMain(c, sys.spool, r) ==> Backed(sys.blobs, r) && Covered(sys.collector, r)
  }

  ghost predicate QuarantineBacked(c: Codec, sys: System) {
    forall r :: InQuarantine(c, sys.spool, r) ==> Backed(sys.blobs, r) && Covered(sys.collector, r)
  }

  ghost predicate Fenced(sys: System) {
    && (!sys.collector.Off? ==> sys.captures == map[])
    && (forall p :: p in sys.captures && sys.captures[p].Published? ==> sys.captures[p].digest in sys.blobs)
    && sys.entered <= sys.blobs
  }

  ghost predicate Safe(c: Codec, sys: System)
    requires Sound(c)
  {
    Inv(c, sys.spool) && Fenced(sys) && MainBacked(c, sys)
  }

  /** Whatever the main directory refers to outlasts a power failure. */
  ghost predicate MainLasting(c: Codec, sys: System) {
    forall r, d :: InMain(c, sys.spool, r) && d in r.casRefs ==> Lasting(sys, d)
  }

  ghost predicate QuarantineLasting(c: Codec, sys: System) {
    forall r, d :: InQuarantine(c, sys.spool, r) && d in r.casRefs ==> Lasting(sys, d)
  }

  /** Every candidate a quarantined record refers to is also referred to from the main directory. */
  ghost predicate NothingHidden(c: Codec, s: State, candidates: set<Bytes>) {
    forall r, d :: InQuarantine(c, s, r) && d in r.casRefs && d in candidates ==> d in MainRefs(c, s)
  }

  /** If this action is the collector's scan, the quarantine hides nothing from it. */
  ghost predicate ScanSeesAll(c: Codec, sys: System, a: Action)
    requires Sound(c)
  {
    a.ScanSpool? && sys.collector.Listed? && Spool.MainConclusive(c, sys.spool, a.maxSegments, a.maxBytes) ==>
      NothingHidden(c, sys.spool, sys.collector.candidates)
  }

  /* ---------- how spool steps move records ---------- */

  lemma {:induction false} RefsMeaning(rs: seq<SpoolRecord>, r: SpoolRecord)
    requires r in rs && DecodeValidated(r).Some?
    ensures DecodeValidated(r).value.casRef in RefsOf(rs)
  {
    hide DecodeValidated;
    var n := |rs| - 1;
    if r != rs[n] {
      assert r in rs[..n];
      RefsMeaning(rs[..n], r);
    }
  }

  lemma MainRefsMeaning(c: Codec, s: State, r: SpoolRecord)
    requires InMain(c, s, r) && DecodeValidated(r).Some?
    ensures DecodeValidated(r).value.casRef in MainRefs(c, s)
  {
    hide DecodeValidated, WholeFrames;
    if s.active.Some? && r in WholeFrames(c, s.active.value.bytes) {
      RefsMeaning(WholeFrames(c, s.active.value.bytes), r);
    } else {
      var n :| n in s.sealed && r in WholeFrames(c, s.sealed[n].bytes);
      RefsMeaning(WholeFrames(c, s.sealed[n].bytes), r);
      assert n in s.sealed && DecodeValidated(r).value.casRef in FileRefs(c, s.sealed[n].bytes);
    }
  }

  /** A scan that concludes has seen every reference of every record: it refuses bodies that do not decode. */
  lemma ConclusiveSeesAll(c: Codec, s: State, maxSegments: nat, maxBytes: nat, r: SpoolRecord)
    requires Sound(c) && Spool.MainConclusive(c, s, maxSegments, maxBytes) && InMain(c, s, r)
    ensures forall d :: d in r.casRefs ==> d in MainRefs(c, s)
  {
    hide Sound, WholeFrames, Clean, Gather, Total, Spool.NoRepeat, MainRefs;
    assert DecodeValidated(r).Some?;
    MainRefsMeaning(c, s, r);
  }

  lemma WrittenHolds(c: Codec, f: File, r: SpoolRecord, created: bool, fault: Fault, q: SpoolRecord)
    requires Sound(c) && Clean(c, f.bytes) && c.accepts(r)
    requires q in WholeFrames(c, Written(f, c.frame(r), created, fault).bytes)
    ensures q == r || q in WholeFrames(c, f.bytes)
  {
    hide Inverts, Detects, Exact, Stable, Scan, WholeFrames;
    var n := if fault.WriteFails? then Min(fault.written, |c.frame(r)|) else |c.frame(r)|;
    CompleteAppend(c, f.bytes, r, n);
  }

  lemma EmptyHolds(c: Codec, q: SpoolRecord)
    requires Sound(c)
    ensures Clean(c, []) && q !in WholeFrames(c, [])
  {
    EmptyScan(c);
  }

  lemma AppendFileHolds(c: Codec, l: Limits, s: State, r: SpoolRecord, fault: Fault, q: SpoolRecord)
    requires Sound(c) && InMain(c, Append(c, l, s, r, fault), q)
    ensures q == r || InMain(c, s, q)
  {
    hide Inverts, Detects, Exact, Stable, Scan, WholeFrames, Clean, Written, Pressured;
    if Writes(c, l, s, r, fault) {
      EmptyHolds(c, q);
      var f := if s.active.None? then Created(s) else s.active.value;
      var f' := Append(c, l, s, r, fault).active.value;
      if q in WholeFrames(c, f'.bytes) {
        WrittenHolds(c, f, r, s.active.None?, fault, q);
      }
    }
  }

  lemma IsolatedFileHolds(c: Codec, l: Limits, s: State, hint: string, r: SpoolRecord, fault: Fault, removed: bool, q: SpoolRecord)
    requires Sound(c) && InMain(c, AppendIsolated(c, l, s, hint, r, fault, removed), q)
    ensures q == r || InMain(c, s, q)
  {
    hide Inverts, Detects, Exact, Stable, Scan, WholeFrames, Clean, Written, Pressured;
    var s' := AppendIsolated(c, l, s, hint, r, fault, removed);
    if WritesIsolated(c, l, s, hint, r, fault) {
      EmptyHolds(c, q);
      var f := Written(Created(s), c.frame(r), true, fault);
      if q in WholeFrames(c, f.bytes) {
        WrittenHolds(c, Created(s), r, true, fault, q);
      }
      if !(s'.active.Some? && q in WholeFrames(c, s'.active.value.bytes)) {
        var n :| n in s'.sealed && q in WholeFrames(c, s'.sealed[n].bytes);
      }
    }
  }

  /** Syncing the directory moves no record. */
  lemma StepHolds(c: Codec, l: Limits, s: State, e: Event, q: SpoolRecord)
    requires Sound(c)
    ensures InMain(c, Step(c, l, s, e), q) <==> InMain(c, FileStep(c, l, s, e), q)
    ensures InQuarantine(c, Step(c, l, s, e), q) <==> InQuarantine(c, FileStep(c, l, s, e), q)
  {
    hide Sound, WholeFrames, FileStep, SyncsMain, SyncsCarriers;
    var t := SyncCarriersIf(FileStep(c, l, s, e), SyncsCarriers(c, l, s, e));
    SyncHolds(c, FileStep(c, l, s, e), q);
    SyncHolds(c, t, q);
  }

  lemma SyncHolds(c: Codec, s: State, q: SpoolRecord)
    ensures InMain(c, LinkMain(s), q) <==> InMain(c, s, q)
    ensures InQuarantine(c, LinkMain(s), q) <==> InQuarantine(c, s, q)
    ensures InMain(c, LinkCarriers(s), q) <==> InMain(c, s, q)
    ensures InQuarantine(c, LinkCarriers(s), q) <==> InQuarantine(c, s, q)
  {
    hide WholeFrames;
    var m, k := LinkMain(s), LinkCarriers(s);
    assert forall n :: n in s.sealed ==> m.sealed[n].bytes == s.sealed[n].bytes;
    assert forall q :: q in s.quarantine ==> m.quarantine[q].bytes == s.quarantine[q].bytes == k.quarantine[q].bytes;
  }

  lemma AppendHolds(c: Codec, l: Limits, s: State, r: SpoolRecord, fault: Fault, q: SpoolRecord)
    requires Sound(c)
    ensures InMain(c, Step(c, l, s, AppendEvent(r, fault)), q) ==> q == r || InMain(c, s, q)
    ensures InQuarantine(c, Step(c, l, s, AppendEvent(r, fault)), q) <==> InQuarantine(c, s, q)
  {
    hide Sound, Writes, AppendOk, Written, WholeFrames, Step;
    StepHolds(c, l, s, AppendEvent(r, fault), q);
    assert FileStep(c, l, s, AppendEvent(r, fault)) == Append(c, l, s, r, fault);
    if InMain(c, Append(c, l, s, r, fault), q) {
      AppendFileHolds(c, l, s, r, fault, q);
    }
  }

  lemma IsolatedHolds(c: Codec, l: Limits, s: State, hint: string, r: SpoolRecord, fault: Fault, removed: bool, cleanupSynced: bool, q: SpoolRecord)
    requires Sound(c)
    ensures InMain(c, Step(c, l, s, IsolatedEvent(hint, r, fault, removed, cleanupSynced)), q) ==> q == r || InMain(c, s, q)
    ensures InQuarantine(c, Step(c, l, s, IsolatedEvent(hint, r, fault, removed, cleanupSynced)), q) <==> InQuarantine(c, s, q)
  {
    hide Sound, WritesIsolated, Written, WholeFrames, Step;
    StepHolds(c, l, s, IsolatedEvent(hint, r, fault, removed, cleanupSynced), q);
    assert FileStep(c, l, s, IsolatedEvent(hint, r, fault, removed, cleanupSynced)) == AppendIsolated(c, l, s, hint, r, fault, removed);
    if InMain(c, AppendIsolated(c, l, s, hint, r, fault, removed), q) {
      IsolatedFileHolds(c, l, s, hint, r, fault, removed, q);
    }
  }

  /** A background step adds no record to the main directory and quarantines only records from it. */
  lemma BackgroundHolds(c: Codec, l: Limits, s: State, e: Event, q: SpoolRecord)
    requires Sound(c) && FilesOk(c, s) && !e.AppendEvent? && !e.IsolatedEvent?
    ensures InMain(c, Step(c, l, s, e), q) ==> InMain(c, s, q)
    ensures InQuarantine(c, Step(c, l, s, e), q) ==> InQuarantine(c, s, q) || InMain(c, s, q)
  {
    hide Inverts, Detects, Exact, Stable, Scan, WholeFrames, Clean, ReadPage, Unreadable, Healthy, RecoverActive, PowerLoss, Step;
    StepHolds(c, l, s, e, q);
    match e
    case SealEvent(generation, synced) => SealHolds(c, s, generation, synced, q);
    case RecoverActiveEvent(sync) => RecoverHolds(c, s, sync, q);
    case PowerLossEvent(loss) => PowerLossHolds(c, s, loss, q);
    case _ =>
  }

  lemma SealHolds(c: Codec, s: State, generation: nat, synced: bool, q: SpoolRecord)
    ensures InMain(c, Seal(s, generation, synced), q) ==> InMain(c, s, q)
  {
    hide WholeFrames;
    var s' := Seal(s, generation, synced);
    if InMain(c, s', q) && !(s'.active.Some? && q in WholeFrames(c, s'.active.value.bytes)) {
      var n :| n in s'.sealed && q in WholeFrames(c, s'.sealed[n].bytes);
    }
  }

  lemma RecoverHolds(c: Codec, s: State, sync: MoveSync, q: SpoolRecord)
    requires Sound(c) && FilesOk(c, s)
    ensures InMain(c, RecoverActive(c, s, sync), q) ==> InMain(c, s, q)
    ensures RecoverActive(c, s, sync).quarantine == s.quarantine
  {
    hide Inverts, Detects, Exact, Stable, Scan, WholeFrames, Clean;
    if s.active.Some? {
      CompleteTruncate(c, s.active.value.bytes);
    }
  }

  lemma PowerLossHolds(c: Codec, s: State, loss: Loss, q: SpoolRecord)
    requires Sound(c) && FilesOk(c, s)
    ensures InMain(c, PowerLoss(s, loss), q) ==> InMain(c, s, q)
    ensures InQuarantine(c, PowerLoss(s, loss), q) ==> InQuarantine(c, s, q)
  {
    hide Sound, WholeFrames, FileOk, Cut;
    var s' := PowerLoss(s, loss);
    if s'.active.Some? && q in WholeFrames(c, s'.active.value.bytes) {
      CutHolds(c, s.active.value, loss.keep, q);
    } else if InMain(c, s', q) {
      var n :| n in s'.sealed && q in WholeFrames(c, s'.sealed[n].bytes);
      CutHolds(c, s.sealed[n], CutAt(loss.cuts, n), q);
    }
    if InQuarantine(c, s', q) {
      var k :| k in s'.quarantine && q in WholeFrames(c, s'.quarantine[k].bytes);
      CutHolds(c, s.quarantine[k], CutAt(loss.carrierCuts, k), q);
    }
  }

  lemma CutHolds(c: Codec, f: File, k: nat, q: SpoolRecord)
    requires Sound(c) && FileOk(c, f) && q in WholeFrames(c, Cut(f, k).bytes)
    ensures q in WholeFrames(c, f.bytes)
  {
    hide Inverts, Detects, Exact, Stable, Scan, WholeFrames;
    CompletePrefix(c, f.bytes, |Cut(f, k).bytes|);
    assert Cut(f, k).bytes == f.bytes[..|Cut(f, k).bytes|];
  }

  /* ---------- safety over every interleaving ---------- */

  lemma PublishedIsBacked(sys: System, p: nat, r: SpoolRecord)
    requires Fenced(sys) && Publishing(sys, p, r)
    ensures Backed(sys.blobs, r) && Covered(sys.collector, r)
  {}

  /**
   * Every action keeps the main directory safe, and the quarantine exactly unless it is a scan that misses something;
   * a power failure does so when what is referred to outlasts it.
   */
  lemma ActKeeps(c: Codec, l: Limits, sys: System, a: Action)
    requires Sound(c) && Safe(c, sys)
    ensures (a.PowerFails? ==> MainLasting(c, sys)) ==> Safe(c, Act(c, l, sys, a))
    ensures QuarantineBacked(c, sys) && (a.PowerFails? ==> QuarantineLasting(c, sys)) ==>
      (QuarantineBacked(c, Act(c, l, sys, a)) <==> ScanSeesAll(c, sys, a))
  {
    hide Sound, FilesOk, NothingInvented, DeliveredFirst, Accounted, Secure, InMain, InQuarantine, Step, MainRefs, Spool.MainConclusive;
    var sys' := Act(c, l, sys, a);
    match a
    case AppendFrame(p, r, fault) =>
      if Publishing(sys, p, r) {
        StepKeeps(c, l, sys.spool, AppendEvent(r, fault));
        PublishedIsBacked(sys, p, r);
        forall q
          ensures InMain(c, sys'.spool, q) ==> q == r || InMain(c, sys.spool, q)
          ensures InQuarantine(c, sys'.spool, q) <==> InQuarantine(c, sys.spool, q)
        {
          AppendHolds(c, l, sys.spool, r, fault, q);
        }
      }
    case AppendIsolatedFrame(p, hint, r, fault, removed, cleanupSynced) =>
      if Publishing(sys, p, r) {
        StepKeeps(c, l, sys.spool, IsolatedEvent(hint, r, fault, removed, cleanupSynced));
        PublishedIsBacked(sys, p, r);
        forall q
          ensures InMain(c, sys'.spool, q) ==> q == r || InMain(c, sys.spool, q)
          ensures InQuarantine(c, sys'.spool, q) <==> InQuarantine(c, sys.spool, q)
        {
          IsolatedHolds(c, l, sys.spool, hint, r, fault, removed, cleanupSynced, q);
        }
      }
    case ScanSpool(maxSegments, maxBytes) => ScanKeeps(c, l, sys, maxSegments, maxBytes);
    case Background(e) =>
      if !e.AppendEvent? && !e.IsolatedEvent? && !e.PowerLossEvent? {
        StepKeeps(c, l, sys.spool, e);
        forall q ensures (InMain(c, sys'.spool, q) ==> InMain(c, sys.spool, q))
          && (InQuarantine(c, sys'.spool, q) ==> InQuarantine(c, sys.spool, q) || InMain(c, sys.spool, q))
        {
          BackgroundHolds(c, l, sys.spool, e, q);
        }
      }
    case PowerFails(loss, lost) => FailureKeeps(c, l, sys, loss, lost);
    case _ =>
  }

  lemma FailureKeeps(c: Codec, l: Limits, sys: System, loss: Loss, lost: set<Bytes>)
    requires Sound(c) && Safe(c, sys)
    ensures var sys' := Act(c, l, sys, PowerFails(loss, lost));
      && Inv(c, sys'.spool) && Fenced(sys')
      && (MainLasting(c, sys) ==> MainBacked(c, sys'))
      && (QuarantineBacked(c, sys) && QuarantineLasting(c, sys) ==> QuarantineBacked(c, sys'))
  {
    hide Sound, Inv, InMain, InQuarantine, PowerLoss;
    PowerLossKeeps(c, sys.spool, loss);
    InvFiles(c, sys.spool);
    forall q
      ensures InMain(c, PowerLoss(sys.spool, loss), q) ==> InMain(c, sys.spool, q)
      ensures InQuarantine(c, PowerLoss(sys.spool, loss), q) ==> InQuarantine(c, sys.spool, q)
    {
      PowerLossHolds(c, sys.spool, loss, q);
    }
  }

  lemma InvFiles(c: Codec, s: State)
    requires Sound(c) && Inv(c, s)
    ensures FilesOk(c, s)
  {}

  lemma ScanKeeps(c: Codec, l: Limits, sys: System, maxSegments: nat, maxBytes: nat)
    requires Sound(c) && MainBacked(c, sys)
    ensures var sys' := Act(c, l, sys, ScanSpool(maxSegments, maxBytes));
      && MainBacked(c, sys')
      && (QuarantineBacked(c, sys) ==> (QuarantineBacked(c, sys') <==> ScanSeesAll(c, sys, ScanSpool(maxSegments, maxBytes))))
  {
    hide Sound, InMain, InQuarantine, MainRefs, Spool.MainConclusive;
    if sys.collector.Listed? && Spool.MainConclusive(c, sys.spool, maxSegments, maxBytes) {
      var sys' := Act(c, l, sys, ScanSpool(maxSegments, maxBytes));
      forall q | InMain(c, sys.spool, q) ensures Covered(sys'.collector, q) {
        ConclusiveSeesAll(c, sys.spool, maxSegments, maxBytes, q);
      }
    }
  }

  /** No scan of the interleaving misses a quarantined reference. */
  ghost predicate ScansSeeAll(c: Codec, l: Limits, sys: System, acts: seq<Action>)
    requires Sound(c)
    decreases |acts|
  {
    acts == [] || (ScanSeesAll(c, sys, acts[0]) && ScansSeeAll(c, l, Act(c, l, sys, acts[0]), acts[1..]))
  }

  /** Before and after every action, quarantined references are backed and covered. */
  ghost predicate AlwaysBacked(c: Codec, l: Limits, sys: System, acts: seq<Action>)
    requires Sound(c)
    decreases |acts|
  {
    QuarantineBacked(c, sys) && (acts == [] || AlwaysBacked(c, l, Act(c, l, sys, acts[0]), acts[1..]))
  }

  /** Every power failure of the interleaving strikes when what the main directory refers to is lasting. */
  ghost predicate FailuresSpareMain(c: Codec, l: Limits, sys: System, acts: seq<Action>)
    requires Sound(c)
    decreases |acts|
  {
    acts == [] || ((acts[0].PowerFails? ==> MainLasting(c, sys)) && FailuresSpareMain(c, l, Act(c, l, sys, acts[0]), acts[1..]))
  }

  ghost predicate FailuresSpareQuarantine(c: Codec, l: Limits, sys: System, acts: seq<Action>)
    requires Sound(c)
    decreases |acts|
  {
    acts == [] || ((acts[0].PowerFails? ==> QuarantineLasting(c, sys)) && FailuresSpareQuarantine(c, l, Act(c, l, sys, acts[0]), acts[1..]))
  }

  /**
   * Over every interleaving, power failures included that strike when references are lasting: every blob any
   * record in the main directory refers to exists, readable or not.  The same holds throughout for every carrier
   * in quarantine exactly when no scan misses a reference that only a quarantined record makes.
   */
  lemma {:induction false} NoDanglingReference(c: Codec, l: Limits, sys: System, acts: seq<Action>)
    requires Sound(c) && Safe(c, sys)
    ensures FailuresSpareMain(c, l, sys, acts) ==> Safe(c, Acts(c, l, sys, acts))
    ensures FailuresSpareMain(c, l, sys, acts) && FailuresSpareQuarantine(c, l, sys, acts) && QuarantineBacked(c, sys) ==>
      (AlwaysBacked(c, l, sys, acts) <==> ScansSeeAll(c, l, sys, acts))
    decreases |acts|
  {
    hide Sound, Safe, QuarantineBacked, Act, ScanSeesAll, MainLasting, QuarantineLasting;
    if acts != [] {
      ActKeeps(c, l, sys, acts[0]);
      if FailuresSpareMain(c, l, sys, acts) {
        NoDanglingReference(c, l, Act(c, l, sys, acts[0]), acts[1..]);
      }
    }
  }

  lemma {:induction false} AlwaysIsAtTheEnd(c: Codec, l: Limits, sys: System, acts: seq<Action>)
    requires Sound(c) && AlwaysBacked(c, l, sys, acts)
    ensures QuarantineBacked(c, Acts(c, l, sys, acts))
    decreases |acts|
  {
    hide Sound, QuarantineBacked, Act;
    if acts != [] {
      AlwaysIsAtTheEnd(c, l, Act(c, l, sys, acts[0]), acts[1..]);
    }
  }

  /** A caller can make sure of it: a quarantine that is still empty when the scan starts hides nothing. */
  lemma EmptyQuarantineHidesNothing(c: Codec, s: State, candidates: set<Bytes>)
    ensures s.quarantine == map[] ==> NothingHidden(c, s, candidates)
  {}

  /** What a miss costs: after the scan some deletion can take a quarantined record's blob exactly when something is hidden. */
  lemma ScanWindowExactly(c: Codec, l: Limits, sys: System, maxSegments: nat, maxBytes: nat)
    requires Sound(c) && Safe(c, sys) && QuarantineBacked(c, sys)
    requires sys.collector.Listed? && Spool.MainConclusive(c, sys.spool, maxSegments, maxBytes)
    ensures (forall d, r :: InQuarantine(c, sys.spool, r) ==>
              Backed(Acts(c, l, sys, [ScanSpool(maxSegments, maxBytes), DeleteBlob(d, true)]).blobs, r))
      <==> NothingHidden(c, sys.spool, sys.collector.candidates)
  {
    hide Sound, Safe, InMain, InQuarantine, MainRefs, Spool.MainConclusive;
    var scan, candidates := ScanSpool(maxSegments, maxBytes), sys.collector.candidates;
    var retained := candidates * MainRefs(c, sys.spool);
    forall d ensures Acts(c, l, sys, [scan, DeleteBlob(d, true)]).blobs == if d in candidates - retained then sys.blobs - {d} else sys.blobs {
      TwoActs(c, l, sys, scan, DeleteBlob(d, true));
    }
    if !NothingHidden(c, sys.spool, candidates) {
      var r, d :| InQuarantine(c, sys.spool, r) && d in r.casRefs && d in candidates && d !in MainRefs(c, sys.spool);
      assert !Backed(Acts(c, l, sys, [scan, DeleteBlob(d, true)]).blobs, r);
    }
  }

  lemma TwoActs(c: Codec, l: Limits, sys: System, a: Action, b: Action)
    requires Sound(c)
    ensures Acts(c, l, sys, [a, b]) == Act(c, l, Act(c, l, sys, a), b)
  {
    hide Sound, Act;
    assert [a, b][1..] == [b] && [b][1..] == [];
    assert Acts(c, l, Act(c, l, sys, a), [b]) == Acts(c, l, Act(c, l, Act(c, l, sys, a), b), []);
  }

  /** Nothing captured yet; these shard directories exist durably. */
  function Start(shards: set<Bytes>): System { System(EMPTY, {}, {}, shards, map[], Off) }

  lemma StartIsSafe(c: Codec, shards: set<Bytes>)
    requires Sound(c)
    ensures Safe(c, Start(shards)) && QuarantineBacked(c, Start(shards))
  {}

  /* ---------- the window is real ---------- */

  lemma {:induction false} ActsAppend(c: Codec, l: Limits, sys: System, before: seq<Action>, after: seq<Action>)
    requires Sound(c)
    ensures Acts(c, l, sys, before + after) == Acts(c, l, Acts(c, l, sys, before), after)
    decreases |before|
  {
    hide Sound, Act;
    if before == [] {
      assert before + after == after;
    } else {
      assert (before + after)[1..] == before[1..] + after;
      ActsAppend(c, l, Act(c, l, sys, before[0]), before[1..], after);
    }
  }

  /** A capture whose frame is followed by a torn one, then sealed; the collector lists its candidates. */
  function Torn(r: SpoolRecord, d: Bytes, generation: nat): seq<Action> {
    [LockShared(0, d), PutBlob(0, true), AppendFrame(0, r, NoFault), AppendFrame(0, r, WriteFails(1)), UnlockShared(0)]
      + [Background(SealEvent(generation, true)), LockExclusive, ListQuarantine({d})]
  }

  /** Recovery moves the carrier to quarantine, and the collector scans and deletes. */
  function Missed(d: Bytes, generation: nat): seq<Action> {
    [Background(RecoverSegmentEvent(Segment(generation, 0), BothSynced)), ScanSpool(1, 1), DeleteBlob(d, true)]
  }

  /** From the start to a listing over one torn sealed segment. */
  lemma TornRun(c: Codec, l: Limits, shards: set<Bytes>, r: SpoolRecord, d: Bytes, generation: nat)
    requires Sound(c) && c.accepts(r) && r.casRefs == [d] && |c.frame(r)| > 1 && 2 * |c.frame(r)| <= l.high && l.maxFiles > 0
    ensures var sys := Acts(c, l, Start(shards), Torn(r, d, generation));
      && sys.collector == Listed({d}) && sys.blobs == {d} && sys.captures == map[]
      && sys.spool.active.None? && sys.spool.quarantine == map[] && sys.spool.sealed == map[Segment(generation, 0) := TornActive(c, r)]
  {
    hide Sound, Step;
    var first := [LockShared(0, d), PutBlob(0, true), AppendFrame(0, r, NoFault), AppendFrame(0, r, WriteFails(1)), UnlockShared(0)];
    var later := [Background(SealEvent(generation, true)), LockExclusive, ListQuarantine({d})];
    ActsAppend(c, l, Start(shards), first, later);
    TornAppends(c, l, r);
    var s := Step(c, l, Step(c, l, EMPTY, AppendEvent(r, NoFault)), AppendEvent(r, WriteFails(1)));
    FirstFive(c, l, shards, r, d);
    var sys := System(s, {d}, {d}, shards, map[], Off);
    TornSeal(c, l, s, generation, TornActive(c, r));
    ThreeActs(c, l, sys, later[0], later[1], later[2]);
  }

  /** A put of the first blob that is synced in its shard directory. */
  lemma FirstPut(c: Codec, l: Limits, shards: set<Bytes>, d: Bytes)
    requires Sound(c)
    ensures Acts(c, l, Start(shards), [LockShared(0, d), PutBlob(0, true)])
         == System(EMPTY, {d}, {d}, shards, map[0 := Published(d)], Off)
  {
    hide Sound;
    TwoActs(c, l, Start(shards), LockShared(0, d), PutBlob(0, true));
    assert {} + {d} == {d} && {} + Mates({d}, d) == {d};
    assert map[0 := Holding(d)][0 := Published(d)] == map[0 := Published(d)];
  }

  lemma FirstFive(c: Codec, l: Limits, shards: set<Bytes>, r: SpoolRecord, d: Bytes)
    requires Sound(c) && r.casRefs == [d]
    ensures Acts(c, l, Start(shards), [LockShared(0, d), PutBlob(0, true), AppendFrame(0, r, NoFault), AppendFrame(0, r, WriteFails(1)), UnlockShared(0)])
         == System(Step(c, l, Step(c, l, EMPTY, AppendEvent(r, NoFault)), AppendEvent(r, WriteFails(1))), {d}, {d}, shards, map[], Off)
  {
    hide Sound, Step;
    var a, b := [LockShared(0, d), PutBlob(0, true)], [AppendFrame(0, r, NoFault), AppendFrame(0, r, WriteFails(1)), UnlockShared(0)];
    assert a + b == [LockShared(0, d), PutBlob(0, true), AppendFrame(0, r, NoFault), AppendFrame(0, r, WriteFails(1)), UnlockShared(0)];
    ActsAppend(c, l, Start(shards), a, b);
    FirstPut(c, l, shards, d);
    var sys := System(EMPTY, {d}, {d}, shards, map[0 := Published(d)], Off);
    ThreeActs(c, l, sys, b[0], b[1], b[2]);
    assert map[0 := Published(d)] - {0} == map[];
  }

  /**
   * A run from the start in which a carrier is quarantined after the listing and before the scan: the scan
   * sees it nowhere, and the collector deletes the blob its whole frame refers to.
   */
  lemma QuarantineInsideWindow(c: Codec, l: Limits, shards: set<Bytes>, r: SpoolRecord, d: Bytes, generation: nat)
    requires Sound(c) && c.accepts(r) && r.casRefs == [d] && |c.frame(r)| > 1 && 2 * |c.frame(r)| <= l.high && l.maxFiles > 0
    ensures var sys := Acts(c, l, Start(shards), Torn(r, d, generation) + Missed(d, generation));
      InQuarantine(c, sys.spool, r) && !Backed(sys.blobs, r)
  {
    hide Sound, Healthy, WholeFrames, Clean, Spool.MainConclusive, MainRefs, Step;
    ActsAppend(c, l, Start(shards), Torn(r, d, generation), Missed(d, generation));
    TornRun(c, l, shards, r, d, generation);
    TornFile(c, r);
    var sys, name := Acts(c, l, Start(shards), Torn(r, d, generation)), Segment(generation, 0);
    var a := Missed(d, generation);
    var s1 := Act(c, l, sys, a[0]);
    CarrierMoves(c, l, sys.spool, name, TornActive(c, r), BothSynced);
    EmptyIsConclusive(c, s1.spool);
    ThreeActs(c, l, sys, a[0], a[1], a[2]);
    assert r in WholeFrames(c, s1.spool.quarantine[0].bytes);
    var s2 := Act(c, l, s1, a[1]);
    assert s2.collector == Scanned({d}, {}) && s2.blobs == {d} && s2.spool == s1.spool;
    var s3 := Act(c, l, s2, a[2]);
    assert s3.blobs == {} && s3.spool == s1.spool;
    assert r.casRefs[0] == d && d in r.casRefs;
  }

  lemma EmptyIsConclusive(c: Codec, s: State)
    requires Sound(c) && s.active.None? && s.sealed == map[]
    ensures Spool.MainConclusive(c, s, 1, 1) && MainRefs(c, s) == {}
  {
    hide Sound;
  }

  lemma ThreeActs(c: Codec, l: Limits, sys: System, a: Action, b: Action, d: Action)
    requires Sound(c)
    ensures Acts(c, l, sys, [a, b, d]) == Act(c, l, Act(c, l, Act(c, l, sys, a), b), d)
  {
    hide Sound, Act;
    var s1 := Act(c, l, sys, a);
    assert [a, b, d][1..] == [b, d];
    TwoActs(c, l, s1, b, d);
  }
}
