/** The content-addressed store: publication (`put`) and shard-grouped deletion (`delete_guarded_batch`). */
module Cas {
  import opened Prelude
  import opened Frame

  type Digest = d: Bytes | |d| == 32 witness seq(32, _ => 0)

  datatype CasError = StoreCorrupt | LockBusy | ExclusiveMaintenanceRequired | CasIo

  datatype Outcome = Deleted | Missing

  /**
   * A stored envelope: its decoded bytes, whether header and length check out, and whether the content decodes to
   * the digest it is stored under.
   */
  datatype Blob = Blob(bytes: Bytes, framed: bool, intact: bool)

  type Shard = map<Digest, Blob>

  /** A shard directory is named by the digest's first byte (two hexadecimal digits). */
  function ShardOf(d: Digest): u8 { d[0] }

  function ShardAt(shards: map<u8, Shard>, p: u8): Shard {
    if p in shards then shards[p] else map[]
  }

  /* ---------- deletion in input order ---------- */

  /** The simple form: delete one digest after another. */
  function DeleteInOrder(present: set<Digest>, ds: seq<Digest>): (set<Digest>, seq<Outcome>) {
    if ds == [] then (present, []) else
      var (rest, outcomes) := DeleteInOrder(present - {ds[0]}, ds[1..]);
      (rest, [if ds[0] in present then Deleted else Missing] + outcomes)
  }

  /** The first occurrence of a digest that is present. */
  predicate Removes(present: set<Digest>, ds: seq<Digest>, i: nat)
    requires i < |ds|
  {
    ds[i] in present && ds[i] !in ds[..i]
  }

  ghost predicate OutcomesMatch(present: set<Digest>, ds: seq<Digest>, outcomes: seq<Outcome>) {
    |outcomes| == |ds| && forall i :: 0 <= i < |ds| ==> (outcomes[i] == Deleted <==> Removes(present, ds, i))
  }

  lemma {:induction false} DeleteInOrderMeaning(present: set<Digest>, ds: seq<Digest>)
    ensures DeleteInOrder(present, ds).0 == present - (set d | d in ds)
    ensures OutcomesMatch(present, ds, DeleteInOrder(present, ds).1)
  {
    if ds != [] {
      var rest := present - {ds[0]};
      DeleteInOrderMeaning(rest, ds[1..]);
      var outcomes := DeleteInOrder(present, ds).1;
      forall i | 0 <= i < |ds| ensures outcomes[i] == Deleted <==> Removes(present, ds, i) {
        if i > 0 {
          assert ds[..i] == [ds[0]] + ds[1..][..i - 1];
          assert outcomes[i] == DeleteInOrder(rest, ds[1..]).1[i - 1];
        }
      }
    }
  }

  lemma OutcomesAreUnique(present: set<Digest>, ds: seq<Digest>, a: seq<Outcome>, b: seq<Outcome>)
    requires OutcomesMatch(present, ds, a) && OutcomesMatch(present, ds, b)
    ensures a == b
  {
    forall i | 0 <= i < |ds| ensures a[i] == b[i] {
      assert a[i] == Deleted <==> Removes(present, ds, i);
    }
  }

  /* ---------- grouping by shard ---------- */

  /** The positions whose digest lives in shard `p`, in input order. */
  function Positions(ds: seq<Digest>, p: u8): seq<nat> {
    if ds == [] then [] else
      var n := |ds| - 1;
      Positions(ds[..n], p) + (if ShardOf(ds[n]) == p then [n] else [])
  }

  lemma {:induction false} PositionsMeaning(ds: seq<Digest>, p: u8)
    ensures forall j :: 0 <= j < |Positions(ds, p)| ==> Positions(ds, p)[j] < |ds| && ShardOf(ds[Positions(ds, p)[j]]) == p
    ensures forall j, k :: 0 <= j < k < |Positions(ds, p)| ==> Positions(ds, p)[j] < Positions(ds, p)[k]
    ensures forall i :: 0 <= i < |ds| && ShardOf(ds[i]) == p ==> i in Positions(ds, p)
  {
    if ds != [] {
      var n := |ds| - 1;
      PositionsMeaning(ds[..n], p);
      var before := Positions(ds[..n], p);
      forall i | 0 <= i < |ds| && ShardOf(ds[i]) == p ensures i in Positions(ds, p) {
        if i < n {
          assert ds[..n][i] == ds[i];
          assert i in before;
        }
      }
    }
  }

  function Pick(ds: seq<Digest>, entries: seq<nat>): seq<Digest>
    requires forall j :: 0 <= j < |entries| ==> entries[j] < |ds|
  {
    seq(|entries|, j requires 0 <= j < |entries| => ds[entries[j]])
  }

  /** A position is a first occurrence in the batch exactly when it is one within its shard. */
  lemma FirstInShard(ds: seq<Digest>, p: u8, j: nat)
    requires forall k :: 0 <= k < |Positions(ds, p)| ==> Positions(ds, p)[k] < |ds|
    requires j < |Positions(ds, p)|
    ensures Pick(ds, Positions(ds, p))[j] in Pick(ds, Positions(ds, p))[..j] <==>
            ds[Positions(ds, p)[j]] in ds[..Positions(ds, p)[j]]
  {
    PositionsMeaning(ds, p);
    hide Positions;
    var ps := Positions(ds, p);
    var i, es := ps[j], Pick(ds, ps);
    if es[j] in es[..j] {
      var t :| 0 <= t < j && es[t] == es[j];
      assert ds[..i][ps[t]] == ds[i];
    }
    if ds[i] in ds[..i] {
      var k :| 0 <= k < i && ds[k] == ds[i];
      var t :| 0 <= t < |ps| && ps[t] == k;
      assert t < j;
      assert es[..j][t] == es[j];
    }
  }

  /** Write the outcomes of a shard back to their positions. */
  function Scatter(base: seq<Outcome>, entries: seq<nat>, outs: seq<Outcome>): (r: seq<Outcome>)
    requires |outs| == |entries| && forall j :: 0 <= j < |entries| ==> entries[j] < |base|
    ensures |r| == |base|
  {
    if entries == [] then base else
      var n := |entries| - 1;
      Scatter(base, entries[..n], outs[..n])[entries[n] := outs[n]]
  }

  lemma {:induction false} ScatterMeaning(base: seq<Outcome>, entries: seq<nat>, outs: seq<Outcome>)
    requires |outs| == |entries| && forall j :: 0 <= j < |entries| ==> entries[j] < |base|
    requires forall j, k :: 0 <= j < k < |entries| ==> entries[j] < entries[k]
    ensures forall j :: 0 <= j < |entries| ==> Scatter(base, entries, outs)[entries[j]] == outs[j]
    ensures forall i :: 0 <= i < |base| && i !in entries ==> Scatter(base, entries, outs)[i] == base[i]
  {
    if entries != [] {
      var n := |entries| - 1;
      ScatterMeaning(base, entries[..n], outs[..n]);
      assert entries == entries[..n] + [entries[n]];
    }
  }

  /** Faults of the environment: shards that are locked or fail to sync, positions whose unlink fails. */
  datatype Faults = Faults(busy: set<u8>, unsynced: set<u8>, unlink: set<nat>)

  /** The deletion behind position `entries[j]` does not fail. */
  predicate EntryOk(shard: Shard, es: seq<Digest>, entries: seq<nat>, unlinkFails: set<nat>, j: nat)
    requires j < |es| == |entries|
  {
    Removes(shard.Keys, es, j) ==> shard[es[j]].framed && entries[j] !in unlinkFails
  }

  /** What is left of a shard is as it was. */
  predicate PartOf(left: Shard, shard: Shard) { forall d :: d in left ==> d in shard && left[d] == shard[d] }

  /** The map from shard to positions that the batch builds first. */
  method GroupByShard(ds: seq<Digest>) returns (groups: map<u8, seq<nat>>)
    ensures forall p: u8 :: (p in groups <==> Positions(ds, p) != []) && (p in groups ==> groups[p] == Positions(ds, p))
  {
    groups := map[];
    assert ds[..0] == [];
    for n := 0 to |ds|
      invariant forall p: u8 :: (p in groups <==> Positions(ds[..n], p) != []) && (p in groups ==> groups[p] == Positions(ds[..n], p))
    {
      assert ds[..n + 1][..n] == ds[..n];
      var p := ShardOf(ds[n]);
      groups := groups[p := (if p in groups then groups[p] else []) + [n]];
    }
    assert ds[..|ds|] == ds;
  }

  /** `delete_from_parent`: an absent blob is Missing, one with a damaged header or length is refused, any other is unlinked unread. */
  method DeleteFromParent(shard: Shard, d: Digest, unlinkFails: bool) returns (r: Result<Outcome, CasError>, left: Shard)
    ensures r.Err? <==> d in shard && (!shard[d].framed || unlinkFails)
    ensures r.Err? ==> left == shard && (r.error == StoreCorrupt <==> !shard[d].framed)
    ensures r.Ok? ==> left == shard - {d} && (r.value == Deleted <==> d in shard)
  {
    left := shard;
    if d !in shard {
      return Ok(Missing), left;
    }
    if !shard[d].framed {
      return Err(StoreCorrupt), left;
    }
    if unlinkFails {
      return Err(CasIo), left;
    }
    left := shard - {d};
    return Ok(Deleted), left;
  }

  /** One shard of a batch, entries in input order (`delete_from_parent` for each). */
  method DeleteEntries(shard: Shard, ds: seq<Digest>, entries: seq<nat>, outcomes: seq<Outcome>, unlinkFails: set<nat>)
    returns (failure: Option<CasError>, left: Shard, updated: seq<Outcome>, ghost outs: seq<Outcome>)
    requires |outcomes| == |ds| && forall j :: 0 <= j < |entries| ==> entries[j] < |ds|
    ensures |updated| == |ds|
    ensures shard.Keys - (set d | d in ds) <= left.Keys <= shard.Keys
    ensures failure.None? ==> (left.Keys, outs) == DeleteInOrder(shard.Keys, Pick(ds, entries))
    ensures failure.None? ==> |outs| == |entries| && updated == Scatter(outcomes, entries, outs)
    ensures PartOf(left, shard)
    ensures failure.None? <==> forall j :: 0 <= j < |entries| ==> EntryOk(shard, Pick(ds, entries), entries, unlinkFails, j)
  {
    hide DeleteInOrder, Scatter;
    left, updated, outs := shard, outcomes, [];
    ghost var es := Pick(ds, entries);
    OrderBegins(shard.Keys, es);
    ScatterBegins(outcomes, entries);
    for j := 0 to |entries|
      invariant |updated| == |ds| && |outs| == j
      invariant forall d :: d in left <==> d in shard && d !in es[..j]
      invariant PartOf(left, shard) && forall k :: 0 <= k < j ==> EntryOk(shard, es, entries, unlinkFails, k)
      invariant shard.Keys - (set d | d in ds) <= left.Keys <= shard.Keys
      invariant updated == Scatter(outcomes, entries[..j], outs)
      invariant DeleteInOrder(shard.Keys, es) == (DeleteInOrder(left.Keys, es[j..]).0, outs + DeleteInOrder(left.Keys, es[j..]).1)
    {
      var i := entries[j];
      var d := ds[i];
      var deleted;
      OrderStep(left.Keys, es, j, outs);
      deleted, left := DeleteFromParent(left, d, i in unlinkFails);
      assert es[..j + 1] == es[..j] + [d];
      if deleted.Err? {
        assert !EntryOk(shard, es, entries, unlinkFails, j);
        return Some(deleted.error), left, updated, outs;
      }
      ScatterStep(outcomes, entries, j, outs, deleted.value);
      updated := updated[i := deleted.value];
      outs := outs + [deleted.value];
    }
    OrderEnds(left.Keys, es, outs);
    assert entries[..|entries|] == entries;
    failure := None;
  }

  lemma OrderBegins(present: set<Digest>, es: seq<Digest>)
    ensures DeleteInOrder(present, es) == (DeleteInOrder(present, es[0..]).0, [] + DeleteInOrder(present, es[0..]).1)
  {
    assert es[0..] == es;
    assert [] + DeleteInOrder(present, es).1 == DeleteInOrder(present, es).1;
  }

  lemma OrderStep(present: set<Digest>, es: seq<Digest>, j: nat, outs: seq<Outcome>)
    requires j < |es|
    ensures var outcome := if es[j] in present then Deleted else Missing;
      var next := DeleteInOrder(present - {es[j]}, es[j + 1..]);
      (DeleteInOrder(present, es[j..]).0, outs + DeleteInOrder(present, es[j..]).1) == (next.0, (outs + [outcome]) + next.1)
  {
    assert es[j..][1..] == es[j + 1..];
    var outcome := if es[j] in present then Deleted else Missing;
    var tail := DeleteInOrder(present - {es[j]}, es[j + 1..]).1;
    assert outs + ([outcome] + tail) == (outs + [outcome]) + tail;
  }

  lemma OrderEnds(present: set<Digest>, es: seq<Digest>, outs: seq<Outcome>)
    ensures (DeleteInOrder(present, es[|es|..]).0, outs + DeleteInOrder(present, es[|es|..]).1) == (present, outs)
  {
    assert outs + [] == outs;
  }

  lemma ScatterBegins(base: seq<Outcome>, entries: seq<nat>)
    ensures Scatter(base, entries[..0], []) == base
  {}

  lemma ScatterStep(base: seq<Outcome>, entries: seq<nat>, j: nat, outs: seq<Outcome>, outcome: Outcome)
    requires j < |entries| && |outs| == j && forall k :: 0 <= k < |entries| ==> entries[k] < |base|
    ensures Scatter(base, entries[..j + 1], outs + [outcome]) == Scatter(base, entries[..j], outs)[entries[j] := outcome]
  {
    assert entries[..j + 1][..j] == entries[..j] && (outs + [outcome])[..j] == outs;
  }

  /* ---------- the batch, shard by shard ---------- */

  ghost function Contents(shards: map<u8, Shard>): set<Digest> {
    set p, d | p in shards && d in shards[p] :: d
  }

  ghost predicate Sharded(shards: map<u8, Shard>) {
    forall p, d :: p in shards && d in shards[p] ==> ShardOf(d) == p
  }

  /** Shards below `p` have been through the batch, the others have not. */
  ghost predicate Passed(start: map<u8, Shard>, shards: map<u8, Shard>, ds: seq<Digest>, outcomes: seq<Outcome>, p: int) {
    && |outcomes| == |ds| && shards.Keys == start.Keys
    && (forall q :: q in shards && q >= p ==> shards[q] == start[q])
    && (forall q :: q in shards && q < p ==> shards[q].Keys == start[q].Keys - (set d | d in ds))
    && (forall i :: 0 <= i < |ds| ==>
          outcomes[i] == if ShardOf(ds[i]) < p && Removes(Contents(start), ds, i) then Deleted else Missing)
  }

  lemma PickCovers(shard: Shard, ds: seq<Digest>, p: u8)
    requires forall d :: d in shard ==> ShardOf(d) == p
    requires forall k :: 0 <= k < |Positions(ds, p)| ==> Positions(ds, p)[k] < |ds|
    ensures shard.Keys - (set d | d in Pick(ds, Positions(ds, p))) == shard.Keys - (set d | d in ds)
  {
    PositionsMeaning(ds, p);
    hide Positions;
    var ps := Positions(ds, p);
    forall d | d in shard.Keys && d in ds ensures d in Pick(ds, ps) {
      var i :| 0 <= i < |ds| && ds[i] == d;
      var j :| 0 <= j < |ps| && ps[j] == i;
      assert Pick(ds, ps)[j] == d;
    }
  }

  /** What the pass over shard `p` contributes. */
  lemma PassShard(start: map<u8, Shard>, shards: map<u8, Shard>, ds: seq<Digest>, outcomes: seq<Outcome>, p: u8,
                  left: Shard, outs: seq<Outcome>)
    requires Sharded(start) && Passed(start, shards, ds, outcomes, p) && p in shards
    requires forall k :: 0 <= k < |Positions(ds, p)| ==> Positions(ds, p)[k] < |ds|
    requires (left.Keys, outs) == DeleteInOrder(shards[p].Keys, Pick(ds, Positions(ds, p)))
    requires |outs| == |Positions(ds, p)|
    ensures Passed(start, shards[p := left], ds, Scatter(outcomes, Positions(ds, p), outs), p + 1)
  {
    PositionsMeaning(ds, p);
    hide Positions, DeleteInOrder, Removes, Contents, Scatter;
    var ps := Positions(ds, p);
    var updated := Scatter(outcomes, ps, outs);
    DeleteInOrderMeaning(shards[p].Keys, Pick(ds, ps));
    ScatterMeaning(outcomes, ps, outs);
    PickCovers(start[p], ds, p);
    forall i | 0 <= i < |ds|
      ensures updated[i] == if ShardOf(ds[i]) < p + 1 && Removes(Contents(start), ds, i) then Deleted else Missing
    {
      if ShardOf(ds[i]) == p {
        var j :| 0 <= j < |ps| && ps[j] == i;
        RemovesInShard(start, ds, p, j);
        assert outs[j] == Deleted <==> Removes(start[p].Keys, Pick(ds, ps), j);
      }
    }
  }

  lemma RemovesInShard(start: map<u8, Shard>, ds: seq<Digest>, p: u8, j: nat)
    requires Sharded(start) && p in start && j < |Positions(ds, p)|
    requires forall k :: 0 <= k < |Positions(ds, p)| ==> Positions(ds, p)[k] < |ds|
    ensures Removes(start[p].Keys, Pick(ds, Positions(ds, p)), j) <==> Removes(Contents(start), ds, Positions(ds, p)[j])
  {
    PositionsMeaning(ds, p);
    hide Positions;
    FirstInShard(ds, p, j);
    var d := ds[Positions(ds, p)[j]];
    assert d in Contents(start) <==> d in start[p];
  }

  /** A shard that is absent, or that no digest of the batch names, needs no pass. */
  lemma PassNothing(start: map<u8, Shard>, shards: map<u8, Shard>, ds: seq<Digest>, outcomes: seq<Outcome>, p: u8)
    requires Sharded(start) && Passed(start, shards, ds, outcomes, p)
    requires p !in shards || Positions(ds, p) == []
    ensures Passed(start, shards, ds, outcomes, p + 1)
  {
    PositionsMeaning(ds, p);
    hide Positions;
    forall i | 0 <= i < |ds| && ShardOf(ds[i]) == p ensures ds[i] !in Contents(start) {
      assert p !in start;
    }
    if p in shards {
      forall d | d in start[p].Keys ensures d !in ds {
        assert ShardOf(d) == p;
      }
    }
  }

  /** Nothing outside the batch is deleted, wherever the pass stops. */
  lemma PassBounds(start: map<u8, Shard>, shards: map<u8, Shard>, ds: seq<Digest>)
    requires shards.Keys == start.Keys
    requires forall q :: q in shards ==> start[q].Keys - (set d | d in ds) <= shards[q].Keys <= start[q].Keys
    ensures Contents(start) - (set d | d in ds) <= Contents(shards) <= Contents(start)
    ensures Sharded(start) ==> Sharded(shards)
  {
    forall d | d in Contents(start) && d !in ds ensures d in Contents(shards) {
      var p :| p in start && d in start[p];
      assert d in shards[p].Keys;
    }
    forall p, d | p in shards && d in shards[p] ensures p in start && d in start[p] {
      assert d in start[p].Keys;
    }
  }

  lemma PassEnds(start: map<u8, Shard>, shards: map<u8, Shard>, ds: seq<Digest>, outcomes: seq<Outcome>)
    requires Passed(start, shards, ds, outcomes, 256)
    ensures (Contents(shards), outcomes) == DeleteInOrder(Contents(start), ds)
  {
    hide DeleteInOrder;
    PassSoFar(start, shards, ds, outcomes, 256);
    PassBounds(start, shards, ds);
    forall d | d in Contents(shards) ensures d !in ds {
      var p :| p in shards && d in shards[p];
      assert d in shards[p].Keys;
    }
    assert Contents(shards) == Contents(start) - (set d | d in ds);
    assert OutcomesMatch(Contents(start), ds, outcomes);
    DeleteInOrderMeaning(Contents(start), ds);
    OutcomesAreUnique(Contents(start), ds, outcomes, DeleteInOrder(Contents(start), ds).1);
  }

  /** Nothing the batch does about its position `i` fails. */
  ghost predicate ItemOk(start: map<u8, Shard>, ds: seq<Digest>, faults: Faults, i: nat)
    requires i < |ds|
  {
    var p, d := ShardOf(ds[i]), ds[i];
    && (p in start ==> p !in faults.busy)
    && (p in start && d in start[p] ==> p !in faults.unsynced)
    && (p in start && Removes(start[p].Keys, ds, i) ==> start[p][d].framed && i !in faults.unlink)
  }

  ghost predicate ShardOk(start: map<u8, Shard>, ds: seq<Digest>, faults: Faults, p: int) {
    forall i :: 0 <= i < |ds| && ShardOf(ds[i]) == p ==> ItemOk(start, ds, faults, i)
  }

  /** The pass over one shard goes through exactly when nothing fails at its positions. */
  lemma ShardPasses(start: map<u8, Shard>, ds: seq<Digest>, faults: Faults, p: u8)
    requires p in start && Positions(ds, p) != []
    requires forall k :: 0 <= k < |Positions(ds, p)| ==> Positions(ds, p)[k] < |ds|
    ensures var ps := Positions(ds, p); var es := Pick(ds, ps);
      ShardOk(start, ds, faults, p) <==>
        && p !in faults.busy
        && (forall j :: 0 <= j < |ps| ==> EntryOk(start[p], es, ps, faults.unlink, j))
        && (start[p].Keys - (set d | d in es) != start[p].Keys ==> p !in faults.unsynced)
  {
    PositionsMeaning(ds, p);
    hide Positions, Removes;
    var ps := Positions(ds, p);
    var es := Pick(ds, ps);
    forall j | 0 <= j < |ps|
      ensures ItemOk(start, ds, faults, ps[j]) <==>
        p !in faults.busy && EntryOk(start[p], es, ps, faults.unlink, j) && (es[j] in start[p] ==> p !in faults.unsynced)
    {
      RemovesWithin(start[p].Keys, ds, p, j);
    }
    if start[p].Keys - (set d | d in es) != start[p].Keys {
      var d :| d in start[p].Keys && d in es;
      var j :| 0 <= j < |es| && es[j] == d;
      assert es[j] in start[p];
    }
    assert ShardOk(start, ds, faults, p) <==> forall j :: 0 <= j < |ps| ==> ItemOk(start, ds, faults, ps[j]);
    assert ps[0] < |ds|;
  }

  lemma RemovesWithin(present: set<Digest>, ds: seq<Digest>, p: u8, j: nat)
    requires j < |Positions(ds, p)|
    requires forall k :: 0 <= k < |Positions(ds, p)| ==> Positions(ds, p)[k] < |ds|
    ensures Removes(present, Pick(ds, Positions(ds, p)), j) <==> Removes(present, ds, Positions(ds, p)[j])
  {
    hide Positions;
    FirstInShard(ds, p, j);
  }

  lemma NothingToPass(start: map<u8, Shard>, ds: seq<Digest>, faults: Faults, p: u8)
    requires p !in start || Positions(ds, p) == []
    ensures ShardOk(start, ds, faults, p)
  {
    PositionsMeaning(ds, p);
  }

  /** Where a publication stops: before the rename, or at the directory sync behind it. */
  datatype PutFault = NoPutFault | StagingFails | ShardSyncFails

  class CasStore {
    var shards: map<u8, Shard>

    ghost predicate Valid()
      reads this
    {
      Sharded(shards)
    }

    ghost function Present(): set<Digest>
      reads this
    {
      Contents(shards)
    }

    constructor ()
      ensures Valid() && Present() == {}
    {
      shards := map[];
    }

    /**
     * `put`: publish the protected bytes under their digest, or find them already there.  When only the sync
     * behind the rename fails, the blob is in place although the call fails.
     */
    method Put(payload: Bytes, fault: PutFault) returns (result: Result<Digest, CasError>)
      requires Valid()
      modifies this
      ensures Valid()
      ensures result.Ok? ==> result.value == SHA256(payload) && SHA256(payload) in Present()
      ensures var d: Digest := SHA256(payload);
        Present() == if result.Ok? || fault == ShardSyncFails then old(Present()) + {d} else old(Present())
      ensures var d: Digest := SHA256(payload); var shard := ShardAt(old(shards), ShardOf(d));
        result.Ok? <==> if d in shard then shard[d] == Blob(payload, true, true) else fault == NoPutFault
      ensures result.Ok? ==> shards[ShardOf(result.value)][result.value] == Blob(payload, true, true)
      ensures forall p, d :: p in old(shards) && d in old(shards)[p] ==> p in shards && d in shards[p] && shards[p][d] == old(shards)[p][d]
    {
      var digest: Digest := SHA256(payload);
      var p := ShardOf(digest);
      var shard: Shard := ShardAt(shards, p);
      if digest in shard {
        assert digest in Present();
        if shard[digest] != Blob(payload, true, true) {
          return Err(StoreCorrupt);
        }
        return Ok(digest);
      }
      if fault == StagingFails {
        return Err(CasIo);
      }
      AddBlob(shards, digest, Blob(payload, true, true));
      var updated: Shard := shard[digest := Blob(payload, true, true)];
      shards := shards[p := updated];
      if fault == ShardSyncFails {
        return Err(CasIo);
      }
      return Ok(digest);
    }

    /**
     * `delete_guarded_batch`: shard by shard in ascending order.  When it succeeds it has done exactly
     * what deleting one digest after another in input order does; when it fails it has deleted a
     * subset of the batch and nothing else.
     */
    method DeleteGuardedBatch(exclusive: bool, ds: seq<Digest>, faults: Faults) returns (result: Result<seq<Outcome>, CasError>)
      requires Valid()
      modifies this
      ensures Valid()
      ensures !exclusive ==> result == Err(ExclusiveMaintenanceRequired) && shards == old(shards)
      ensures result.Ok? ==> (Present(), result.value) == DeleteInOrder(old(Present()), ds)
      ensures result.Ok? <==> exclusive && forall i :: 0 <= i < |ds| ==> ItemOk(old(shards), ds, faults, i)
      ensures shards.Keys == old(shards).Keys && forall p :: p in shards ==> PartOf(shards[p], old(shards)[p])
      ensures old(Present()) - (set d | d in ds) <= Present() <= old(Present())
    {
      hide DeleteInOrder, Positions, Swept, Within, ItemOk, PartOf, Contents, Sharded, ShardOf;
      WithinItself(shards, ds);
      if !exclusive {
        return Err(ExclusiveMaintenanceRequired);
      }
      ghost var start := shards;
      var outcomes := seq(|ds|, _ => Missing);
      SweepBegins(start, ds, faults);
      var groups := GroupByShard(ds);
      var p: int := 0;
      while p < 256
        invariant 0 <= p <= 256
        invariant Swept(start, shards, ds, outcomes, faults, p)
      {
        SweptIsWithin(start, shards, ds, outcomes, faults, p);
        if p in groups && p in shards {
          var failure;
          failure, outcomes := DeleteShard(start, ds, groups[p], outcomes, faults, p);
          if failure.Some? {
            WithinMeans(start, shards, ds);
            return Err(failure.value);
          }
        } else {
          SweepNothing(start, shards, ds, outcomes, faults, p);
        }
        p := p + 1;
      }
      SweptIsWithin(start, shards, ds, outcomes, faults, p);
      WithinMeans(start, shards, ds);
      SweepEnds(start, shards, ds, outcomes, faults);
      return Ok(outcomes);
    }

    /** The pass over one shard: lock it, delete its entries in input order, sync it if anything was deleted. */
    method DeleteShard(ghost start: map<u8, Shard>, ds: seq<Digest>, entries: seq<nat>, outcomes: seq<Outcome>, faults: Faults, p: u8)
      returns (failure: Option<CasError>, updated: seq<Outcome>)
      requires Sharded(start) && Swept(start, shards, ds, outcomes, faults, p)
      requires p in shards && entries == Positions(ds, p) && entries != []
      modifies this
      ensures failure.None? ==> Swept(start, shards, ds, updated, faults, p + 1)
      ensures failure.Some? ==> exists i :: 0 <= i < |ds| && !ItemOk(start, ds, faults, i)
      ensures Within(start, shards, ds)
    {
      hide DeleteInOrder, Positions, EntryOk, ShardOk, ItemOk, PartOf, Contents, Sharded, Scatter, Pick, ShardOf, Passed, Within;
      PositionsMeaning(ds, p);
      ShardPasses(start, ds, faults, p);
      SweptIsWithin(start, shards, ds, outcomes, faults, p);
      updated := outcomes;
      if p in faults.busy {
        ShardFails(start, ds, faults, p);
        return Some(LockBusy), updated;
      }
      ghost var before := shards;
      var left;
      ghost var outs;
      failure, left, updated, outs := DeleteEntries(shards[p], ds, entries, outcomes, faults.unlink);
      var changed := left.Keys != shards[p].Keys;
      shards := shards[p := left];
      WithinStep(start, before, ds, p, left);
      if failure.Some? {
        ShardFails(start, ds, faults, p);
        return;
      }
      DeleteInOrderMeaning(before[p].Keys, Pick(ds, entries));
      if changed && p in faults.unsynced {
        ShardFails(start, ds, faults, p);
        return Some(CasIo), updated;
      }
      PassShard(start, before, ds, outcomes, p, left, outs);
    }
  }

  /** Some part of the batch is gone, nothing else is, and what is left is as it was. */
  ghost predicate Within(start: map<u8, Shard>, shards: map<u8, Shard>, ds: seq<Digest>) {
    && shards.Keys == start.Keys
    && forall q :: q in shards ==> start[q].Keys - (set d | d in ds) <= shards[q].Keys && PartOf(shards[q], start[q])
  }

  /** Shards below `p` have been through the batch without failure. */
  ghost predicate Swept(start: map<u8, Shard>, shards: map<u8, Shard>, ds: seq<Digest>, outcomes: seq<Outcome>, faults: Faults, p: int) {
    && Passed(start, shards, ds, outcomes, p) && Within(start, shards, ds)
    && |outcomes| == |ds| && shards.Keys == start.Keys && (forall q :: q in shards && q >= p ==> shards[q] == start[q])
    && forall q: u8 :: q < p ==> ShardOk(start, ds, faults, q)
  }

  lemma WithinItself(start: map<u8, Shard>, ds: seq<Digest>)
    ensures Within(start, start, ds)
    ensures forall p :: p in start ==> PartOf(start[p], start[p])
    ensures Contents(start) - (set d | d in ds) <= Contents(start)
  {}

  lemma WithinMeans(start: map<u8, Shard>, shards: map<u8, Shard>, ds: seq<Digest>)
    requires Within(start, shards, ds) && Sharded(start)
    ensures shards.Keys == start.Keys && Sharded(shards) && forall p :: p in shards ==> PartOf(shards[p], start[p])
    ensures Contents(start) - (set d | d in ds) <= Contents(shards) <= Contents(start)
  {
    hide Contents, Sharded;
    PassBounds(start, shards, ds);
  }

  lemma WithinStep(start: map<u8, Shard>, shards: map<u8, Shard>, ds: seq<Digest>, p: u8, left: Shard)
    requires Within(start, shards, ds) && p in start && PartOf(left, start[p]) && start[p].Keys - (set d | d in ds) <= left.Keys
    ensures Within(start, shards[p := left], ds)
  {
    hide PartOf;
  }

  lemma SweepBegins(start: map<u8, Shard>, ds: seq<Digest>, faults: Faults)
    ensures Swept(start, start, ds, seq(|ds|, _ => Missing), faults, 0)
  {
    hide Passed, Within;
    PassBegins(start, ds);
    WithinItself(start, ds);
  }

  lemma SweptIsWithin(start: map<u8, Shard>, shards: map<u8, Shard>, ds: seq<Digest>, outcomes: seq<Outcome>, faults: Faults, p: int)
    requires Swept(start, shards, ds, outcomes, faults, p)
    ensures Within(start, shards, ds) && shards.Keys == start.Keys
  {}

  lemma SweepNothing(start: map<u8, Shard>, shards: map<u8, Shard>, ds: seq<Digest>, outcomes: seq<Outcome>, faults: Faults, p: u8)
    requires Sharded(start) && Swept(start, shards, ds, outcomes, faults, p)
    requires p !in shards || Positions(ds, p) == []
    ensures Swept(start, shards, ds, outcomes, faults, p + 1)
  {
    hide Passed, Within, ShardOk, Positions;
    PassNothing(start, shards, ds, outcomes, p);
    NothingToPass(start, ds, faults, p);
  }

  lemma SweepEnds(start: map<u8, Shard>, shards: map<u8, Shard>, ds: seq<Digest>, outcomes: seq<Outcome>, faults: Faults)
    requires Swept(start, shards, ds, outcomes, faults, 256)
    ensures (Contents(shards), outcomes) == DeleteInOrder(Contents(start), ds)
    ensures forall i :: 0 <= i < |ds| ==> ItemOk(start, ds, faults, i)
  {
    hide Passed, Within, ShardOk, ItemOk;
    PassEnds(start, shards, ds, outcomes);
    AllShardsOk(start, ds, faults);
  }

  lemma ShardFails(start: map<u8, Shard>, ds: seq<Digest>, faults: Faults, p: int)
    requires !ShardOk(start, ds, faults, p)
    ensures exists i :: 0 <= i < |ds| && !ItemOk(start, ds, faults, i)
  {
    hide ItemOk;
  }

  lemma AllShardsOk(start: map<u8, Shard>, ds: seq<Digest>, faults: Faults)
    requires forall q: u8 :: ShardOk(start, ds, faults, q)
    ensures forall i :: 0 <= i < |ds| ==> ItemOk(start, ds, faults, i)
  {
    hide ItemOk;
    forall i | 0 <= i < |ds| ensures ItemOk(start, ds, faults, i) {
      assert ShardOk(start, ds, faults, ShardOf(ds[i]));
    }
  }

  lemma AddBlob(shards: map<u8, Shard>, d: Digest, blob: Blob)
    requires Sharded(shards)
    ensures var p := ShardOf(d);
      var added := shards[p := ShardAt(shards, p)[d := blob]];
      Sharded(added) && Contents(added) == Contents(shards) + {d}
  {
    var p := ShardOf(d);
    var added := shards[p := ShardAt(shards, p)[d := blob]];
    forall e | e in Contents(shards) + {d} ensures e in Contents(added) {
      assert ShardOf(e) in added && e in added[ShardOf(e)];
    }
  }

  lemma PassBegins(start: map<u8, Shard>, ds: seq<Digest>)
    ensures Passed(start, start, ds, seq(|ds|, _ => Missing), 0)
  {}

  lemma PassSoFar(start: map<u8, Shard>, shards: map<u8, Shard>, ds: seq<Digest>, outcomes: seq<Outcome>, p: int)
    requires Passed(start, shards, ds, outcomes, p)
    ensures |outcomes| == |ds| && shards.Keys == start.Keys
    ensures forall q :: q in shards ==> start[q].Keys - (set d | d in ds) <= shards[q].Keys <= start[q].Keys
    ensures forall q :: q in shards && q >= p ==> shards[q] == start[q]
  {
    forall q | q in shards ensures start[q].Keys - (set d | d in ds) <= shards[q].Keys <= start[q].Keys {
      if q >= p {
        assert shards[q] == start[q];
      }
    }
  }
}
