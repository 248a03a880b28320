/** When the blobs a spool refers to outlast a power failure, and two runs in which one does not. */
module BlobDurability {
  import opened Prelude
  import opened Record
  import opened Scanner
  import opened Validator
  import opened SpoolState
  import opened SpoolRuns
  import opened Capture

  /* ---------- exactly when a power failure is survived ---------- */

  /** A power loss that takes nothing from the spool. */
  ghost function GentleLoss(s: State): Loss {
    Loss(ActiveLength(s.active), map n | n in s.sealed :: |s.sealed[n].bytes|,
         map q | q in s.quarantine :: |s.quarantine[q].bytes|, false, {}, {})
  }

  lemma GentleKeeps(c: Codec, s: State, r: SpoolRecord)
    ensures InMain(c, s, r) ==> InMain(c, PowerLoss(s, GentleLoss(s)), r)
    ensures InQuarantine(c, s, r) ==> InQuarantine(c, PowerLoss(s, GentleLoss(s)), r)
  {
    hide WholeFrames;
    var loss := GentleLoss(s);
    var t := PowerLoss(s, loss);
    if s.active.Some? {
      WholeCut(s.active.value, loss.keep);
    }
    forall n | n in s.sealed ensures n in t.sealed && t.sealed[n].bytes == s.sealed[n].bytes {
      WholeCut(s.sealed[n], CutAt(loss.cuts, n));
    }
    forall q | q in s.quarantine ensures q in t.quarantine && t.quarantine[q].bytes == s.quarantine[q].bytes {
      WholeCut(s.quarantine[q], CutAt(loss.carrierCuts, q));
    }
  }

  lemma WholeCut(f: File, k: nat)
    requires k >= |f.bytes|
    ensures Cut(f, k).bytes == f.bytes
  {}

  /** A failure that takes just one blob a record refers to. */
  lemma LostBlobDangles(c: Codec, l: Limits, sys: System, r: SpoolRecord, d: Bytes)
    requires Sound(c) && d in r.casRefs && !Lasting(sys, d)
    ensures InMain(c, sys.spool, r) ==> !MainBacked(c, Act(c, l, sys, PowerFails(GentleLoss(sys.spool), {d})))
    ensures InQuarantine(c, sys.spool, r) ==> !QuarantineBacked(c, Act(c, l, sys, PowerFails(GentleLoss(sys.spool), {d})))
  {
    hide Sound, InMain, InQuarantine, PowerLoss;
    GentleKeeps(c, sys.spool, r);
    assert d !in Survivors(sys, {d});
  }

  /** A system survives every power failure without a dangling reference exactly when its references are lasting. */
  lemma PowerFailureExactly(c: Codec, l: Limits, sys: System)
    requires Sound(c) && Safe(c, sys)
    ensures (forall loss, lost :: MainBacked(c, Act(c, l, sys, PowerFails(loss, lost)))) <==> MainLasting(c, sys)
    ensures QuarantineBacked(c, sys) ==>
      ((forall loss, lost :: QuarantineBacked(c, Act(c, l, sys, PowerFails(loss, lost)))) <==> QuarantineLasting(c, sys))
  {
    hide Sound, Safe, MainBacked, QuarantineBacked, InMain, InQuarantine, Act, Lasting;
    forall loss, lost
      ensures MainLasting(c, sys) ==> MainBacked(c, Act(c, l, sys, PowerFails(loss, lost)))
      ensures QuarantineBacked(c, sys) && QuarantineLasting(c, sys) ==> QuarantineBacked(c, Act(c, l, sys, PowerFails(loss, lost)))
    {
      FailureKeeps(c, l, sys, loss, lost);
    }
    forall r: SpoolRecord, d: Bytes | d in r.casRefs && !Lasting(sys, d)
      ensures InMain(c, sys.spool, r) ==> !MainBacked(c, Act(c, l, sys, PowerFails(GentleLoss(sys.spool), {d})))
      ensures InQuarantine(c, sys.spool, r) ==> !QuarantineBacked(c, Act(c, l, sys, PowerFails(GentleLoss(sys.spool), {d})))
    {
      LostBlobDangles(c, l, sys, r, d);
    }
  }

  /* ---------- the condition on puts ---------- */

  ghost predicate AllLasting(sys: System) { forall d :: d in sys.blobs ==> Lasting(sys, d) }

  /** A put that adds a blob syncs it, into a shard directory that is durable already. */
  predicate PutCompletes(sys: System, a: Action) {
    a.PutBlob? && a.pid in sys.captures && sys.captures[a.pid].Holding? && sys.captures[a.pid].digest !in sys.blobs ==>
      a.synced && ShardOf(sys.captures[a.pid].digest) in sys.shards
  }

  /** Blobs stay lasting exactly over the actions that leave no put unfinished. */
  lemma ActLasting(c: Codec, l: Limits, sys: System, a: Action)
    requires Sound(c) && AllLasting(sys) && sys.entered <= sys.blobs
    ensures AllLasting(Act(c, l, sys, a)) <==> PutCompletes(sys, a)
  {
    hide Sound, Step, PowerLoss, MainRefs;
    var sys' := Act(c, l, sys, a);
    match a
    case PutBlob(p, synced) =>
      if p in sys.captures && sys.captures[p].Holding? {
        var d := sys.captures[p].digest;
        if d !in sys.blobs {
          assert d in sys'.blobs;
          assert synced ==> d in Mates(sys.blobs + {d}, d);
        }
      }
    case PowerFails(loss, lost) =>
      forall d | d in sys'.blobs ensures Lasting(sys', d) {
        assert d in Survivors(sys, lost);
      }
    case _ =>
  }

  ghost predicate PutsComplete(c: Codec, l: Limits, sys: System, acts: seq<Action>)
    requires Sound(c)
    decreases |acts|
  {
    acts == [] || (PutCompletes(sys, acts[0]) && PutsComplete(c, l, Act(c, l, sys, acts[0]), acts[1..]))
  }

  lemma LastingMain(c: Codec, sys: System)
    requires AllLasting(sys)
    ensures MainBacked(c, sys) ==> MainLasting(c, sys)
    ensures QuarantineBacked(c, sys) ==> QuarantineLasting(c, sys)
  {
    hide InMain, InQuarantine;
  }

  /** Power failures at any time included, no reference dangles on a run that leaves no put unfinished. */
  lemma {:induction false} LastingRun(c: Codec, l: Limits, sys: System, acts: seq<Action>)
    requires Sound(c) && Safe(c, sys) && AllLasting(sys) && PutsComplete(c, l, sys, acts)
    ensures FailuresSpareMain(c, l, sys, acts) && Safe(c, Acts(c, l, sys, acts))
    ensures QuarantineBacked(c, sys) && ScansSeeAll(c, l, sys, acts) ==> AlwaysBacked(c, l, sys, acts)
    decreases |acts|
  {
    hide Sound, Inv, MainBacked, QuarantineBacked, Act, ScanSeesAll, MainLasting, QuarantineLasting, AllLasting, PutCompletes;
    LastingMain(c, sys);
    if acts != [] {
      ActKeeps(c, l, sys, acts[0]);
      ActLasting(c, l, sys, acts[0]);
      LastingRun(c, l, Act(c, l, sys, acts[0]), acts[1..]);
    }
  }

  /* ---------- two runs that lose a blob ---------- */

  lemma OneFrame(c: Codec, l: Limits, r: SpoolRecord)
    requires Sound(c) && c.accepts(r) && |c.frame(r)| <= l.high && l.maxFiles > 0
    ensures AppendOk(c, l, EMPTY, r, NoFault)
    ensures InMain(c, Step(c, l, EMPTY, AppendEvent(r, NoFault)), r)
  {
    hide Inverts, Detects, Exact, Stable, Scan, Clean, WholeFrames;
    FrameIsShort(c, r);
    var f := c.frame(r);
    assert [] + f[..|f|] == f;
    assert EncodeAll(c, [r]) == f + EncodeAll(c, []) == f by { assert [r][1..] == []; }
    CompleteEncoded(c, [r]);
    assert Writes(c, l, EMPTY, r, NoFault);
    assert Step(c, l, EMPTY, AppendEvent(r, NoFault)).active.value.bytes == f;
  }

  /** An Ok append over a blob that is not lasting, and a failure that takes only the blob. */
  lemma BlobLost(c: Codec, l: Limits, sys: System, p: nat, r: SpoolRecord, d: Bytes)
    requires Sound(c) && c.accepts(r) && |c.frame(r)| <= l.high && l.maxFiles > 0
    requires sys.spool == EMPTY && p in sys.captures && sys.captures[p] == Published(d) && r.casRefs == [d] && !Lasting(sys, d)
    ensures var s := Step(c, l, EMPTY, AppendEvent(r, NoFault));
      var sys' := Acts(c, l, sys, [AppendFrame(p, r, NoFault), PowerFails(GentleLoss(s), {d})]);
      InMain(c, sys'.spool, r) && !Backed(sys'.blobs, r)
  {
    hide Sound, Step, PowerLoss, InMain;
    var s := Step(c, l, EMPTY, AppendEvent(r, NoFault));
    OneFrame(c, l, r);
    GentleKeeps(c, s, r);
    TwoActs(c, l, sys, AppendFrame(p, r, NoFault), PowerFails(GentleLoss(s), {d}));
    assert r.casRefs[0] == d && d in r.casRefs;
  }

  /** Without any fault: the first blob of a new shard, whose directory entry nothing ever syncs. */
  lemma NewShardLosesBlob(c: Codec, l: Limits, r: SpoolRecord, d: Bytes)
    requires Sound(c) && c.accepts(r) && r.casRefs == [d] && |c.frame(r)| <= l.high && l.maxFiles > 0
    ensures var s := Step(c, l, EMPTY, AppendEvent(r, NoFault));
      var sys := Acts(c, l, Start({}), [LockShared(0, d), PutBlob(0, true)] + [AppendFrame(0, r, NoFault), PowerFails(GentleLoss(s), {d})]);
      InMain(c, sys.spool, r) && !Backed(sys.blobs, r)
  {
    hide Sound, Step, Act, InMain;
    var s := Step(c, l, EMPTY, AppendEvent(r, NoFault));
    ActsAppend(c, l, Start({}), [LockShared(0, d), PutBlob(0, true)], [AppendFrame(0, r, NoFault), PowerFails(GentleLoss(s), {d})]);
    FirstPut(c, l, {}, d);
    BlobLost(c, l, System(EMPTY, {d}, {d}, {}, map[0 := Published(d)], Off), 0, r, d);
  }

  /** A put whose sync fails, and a second capture of the same payload that finds the blob in place. */
  function Deduplicated(d: Bytes): seq<Action> {
    [LockShared(0, d), PutBlob(0, false), UnlockShared(0)] + [LockShared(1, d), PutBlob(1, true)]
  }

  lemma DeduplicatedState(c: Codec, l: Limits, shards: set<Bytes>, d: Bytes)
    requires Sound(c)
    ensures Acts(c, l, Start(shards), Deduplicated(d)) == System(EMPTY, {d}, {}, shards, map[1 := Published(d)], Off)
  {
    hide Sound;
    var a, b := [LockShared(0, d), PutBlob(0, false), UnlockShared(0)], [LockShared(1, d), PutBlob(1, true)];
    ActsAppend(c, l, Start(shards), a, b);
    ThreeActs(c, l, Start(shards), a[0], a[1], a[2]);
    var sys := System(EMPTY, {d}, {}, shards, map[], Off);
    assert Acts(c, l, Start(shards), a) == sys by {
      assert {} + {d} == {d};
      assert map[0 := Holding(d)] - {0} == map[];
    }
    TwoActs(c, l, sys, b[0], b[1]);
    assert map[1 := Holding(d)][1 := Published(d)] == map[1 := Published(d)];
  }

  lemma DeduplicatedPutLosesBlob(c: Codec, l: Limits, shards: set<Bytes>, r: SpoolRecord, d: Bytes)
    requires Sound(c) && c.accepts(r) && r.casRefs == [d] && |c.frame(r)| <= l.high && l.maxFiles > 0
    ensures var s := Step(c, l, EMPTY, AppendEvent(r, NoFault));
      var sys := Acts(c, l, Start(shards), Deduplicated(d) + [AppendFrame(1, r, NoFault), PowerFails(GentleLoss(s), {d})]);
      InMain(c, sys.spool, r) && !Backed(sys.blobs, r)
  {
    hide Sound, Step, Act, InMain;
    var s := Step(c, l, EMPTY, AppendEvent(r, NoFault));
    ActsAppend(c, l, Start(shards), Deduplicated(d), [AppendFrame(1, r, NoFault), PowerFails(GentleLoss(s), {d})]);
    DeduplicatedState(c, l, shards, d);
    BlobLost(c, l, System(EMPTY, {d}, {}, shards, map[1 := Published(d)], Off), 1, r, d);
  }
}
