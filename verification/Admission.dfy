/** The order of one capture (`capture_inner`): fence, blob, frame, and the gap marker when any of them fails. */
module Admission {
  import opened Prelude
  import opened Record
  import opened Scanner
  import opened Validator
  import opened SpoolState
  import opened Frame
  import opened Cas
  import opened Spool

  datatype AdmissionState = Normal | UnderPressure | Unreachable | Recovering

  datatype GapReason = MainPressure | MainUnavailable

  /** A body that does not encode and an isolated segment that is not published are errors to the caller: no gap. */
  datatype CaptureOutcome =
    | DurableOutcome(digest: Digest, endWatermark: nat) | GapRecorded(reason: GapReason) | CompletenessLost
    | BodyRefused | IsolatedRefused

  /** An emergency slot; a marker whose write failed leaves its file behind. */
  datatype Slot = Free | Marker(reason: GapReason) | Spoiled

  function FirstFree(slots: seq<Slot>, i: nat): (r: Option<nat>)
    requires i <= |slots|
    ensures r.Some? ==> i <= r.value < |slots| && slots[r.value] == Free && forall k :: i <= k < r.value ==> slots[k] != Free
    ensures r.None? ==> forall k :: i <= k < |slots| ==> slots[k] != Free
    decreases |slots| - i
  {
    if i == |slots| then None else if slots[i] == Free then Some(i) else FirstFree(slots, i + 1)
  }

  datatype MarkerFault = NoMarkerFault | MarkerOpenFails | MarkerWriteFails

  /** What stands in the way of a capture, decided by the environment. */
  datatype Obstacles = Obstacles(
    fenceBusy: bool, put: PutFault, append: Fault, removed: bool, cleanupSynced: bool, marker: MarkerFault)

  /** State after a capture: success leaves Recovering alone, any failure overwrites it. */
  function NextState(state: AdmissionState, appended: bool, pressured: bool): AdmissionState {
    if appended then (if state.Recovering? then Recovering else Normal)
    else if pressured then UnderPressure
    else Unreachable
  }

  /** The slots after an attempt to record a gap, and whether it succeeded. */
  function AfterGap(slots: seq<Slot>, reason: GapReason, fault: MarkerFault): (seq<Slot>, bool) {
    match FirstFree(slots, 0)
    case None => (slots, false)
    case Some(i) =>
      if fault == MarkerOpenFails then (slots, false)
      else if fault == MarkerWriteFails then (slots[i := Spoiled], false)
      else (slots[i := Marker(reason)], true)
  }

  /** `i` is the lowest free slot. */
  predicate LowestFree(slots: seq<Slot>, i: nat) {
    i < |slots| && slots[i] == Free && forall k :: 0 <= k < i ==> slots[k] != Free
  }

  /** A gap goes into the lowest free slot with its own reason, or spoils that slot; every other slot stays. */
  lemma GapTakesLowestFree(slots: seq<Slot>, reason: GapReason, fault: MarkerFault)
    ensures fault == MarkerOpenFails ==> AfterGap(slots, reason, fault) == (slots, false)
    ensures (forall k :: 0 <= k < |slots| ==> slots[k] != Free) ==> AfterGap(slots, reason, fault) == (slots, false)
    ensures forall i: nat :: LowestFree(slots, i) && fault == NoMarkerFault ==>
      AfterGap(slots, reason, fault) == (slots[i := Marker(reason)], true)
    ensures forall i: nat :: LowestFree(slots, i) && fault == MarkerWriteFails ==>
      AfterGap(slots, reason, fault) == (slots[i := Spoiled], false)
  {
    hide FirstFree;
    forall i: nat | LowestFree(slots, i) ensures FirstFree(slots, 0) == Some(i) {
      var r := FirstFree(slots, 0);
      assert r.Some? && !(r.value < i) && !(i < r.value);
    }
  }

  /** The blob can be published: it is there already, identical, or nothing stands in its way. */
  predicate PutSucceeds(shards: map<u8, Shard>, payload: Bytes, fault: PutFault) {
    var d: Digest := SHA256(payload);
    var shard := ShardAt(shards, ShardOf(d));
    if d in shard then shard[d] == Blob(payload, true, true) else fault == NoPutFault
  }

  /** The capture gets past the fence and the blob. */
  predicate BlobPublished(shards: map<u8, Shard>, payload: Bytes, obstacles: Obstacles) {
    !obstacles.fenceBusy && PutSucceeds(shards, payload, obstacles.put)
  }

  /** The record's frame is published on its route. */
  ghost predicate PublishOk(c: Codec, l: Limits, s: State, record: SpoolRecord, route: Option<string>, obstacles: Obstacles)
    requires Sound(c)
  {
    match route
    case None => AppendOk(c, l, s, record, obstacles.append)
    case Some(hint) => WritesIsolated(c, l, s, hint, record, obstacles.append) && obstacles.append.NoFault?
  }

  /** The append of the record is refused for want of room. */
  ghost predicate PublishPressed(c: Codec, l: Limits, s: State, record: SpoolRecord, route: Option<string>, obstacles: Obstacles)
    requires Sound(c)
  {
    route.None? && !obstacles.append.LookupFails? && c.accepts(record) && Pressured(l, s, s.active.None?, |c.frame(record)|)
  }

  class CaptureRuntime {
    const cas: CasStore
    const spool: DurableSpool
    var state: AdmissionState
    var slots: seq<Slot>

    constructor (cas: CasStore, spool: DurableSpool, slots: seq<Slot>, state: AdmissionState)
      ensures this.cas == cas && this.spool == spool && this.slots == slots && this.state == state
    {
      this.cas, this.spool, this.slots, this.state := cas, spool, slots, state;
    }

    /** `record_gap`: the first free slot takes the marker; completeness is lost when that is not possible. */
    method RecordGap(reason: GapReason, fault: MarkerFault) returns (outcome: CaptureOutcome)
      modifies this`slots
      ensures slots == AfterGap(old(slots), reason, fault).0
      ensures outcome == if AfterGap(old(slots), reason, fault).1 then GapRecorded(reason) else CompletenessLost
      ensures outcome == CompletenessLost <==> fault != NoMarkerFault || forall k :: 0 <= k < |old(slots)| ==> old(slots)[k] != Free
      ensures forall i: nat :: LowestFree(old(slots), i) && fault != MarkerOpenFails ==>
        slots == old(slots)[i := if fault == NoMarkerFault then Marker(reason) else Spoiled]
    {
      GapTakesLowestFree(slots, reason, fault);
      var i := 0;
      while i < |slots| && slots[i] != Free
        invariant 0 <= i <= |slots|
        invariant FirstFree(slots, 0) == FirstFree(slots, i)
      {
        i := i + 1;
      }
      if i == |slots| || fault == MarkerOpenFails {
        return CompletenessLost;
      }
      if fault == MarkerWriteFails {
        slots := slots[i := Spoiled];
        return CompletenessLost;
      }
      slots := slots[i := Marker(reason)];
      return GapRecorded(reason);
    }

    /** The frame goes to the active file, or to an isolated segment of its own under a routing hint. */
    method Publish(record: SpoolRecord, route: Option<string>, obstacles: Obstacles) returns (result: Result<nat, SpoolError>)
      requires Sound(spool.codec)
      modifies spool
      ensures spool.View() == Step(spool.codec, spool.limits, old(spool.View()), Published(record, route, obstacles))
      ensures spool.history.ok == old(spool.history.ok) + if result.Ok? then multiset{record} else multiset{}
      ensures result.Ok? && route.None? ==> result.value == spool.watermark
      ensures result.Ok? <==> PublishOk(spool.codec, spool.limits, old(spool.View()), record, route, obstacles)
      ensures route.None? ==>
        (result == Err(Pressure) <==> PublishPressed(spool.codec, spool.limits, old(spool.View()), record, route, obstacles))
    {
      hide Sound, Pressured, Step, AppendOk, WritesIsolated;
      if route.Some? {
        HistoryOfIsolated(spool.codec, spool.limits, spool.View(), route.value, record, obstacles);
        var segment := spool.AppendIsolatedSealed(record, route.value, obstacles.append, obstacles.removed, obstacles.cleanupSynced);
        return if segment.Ok? then Ok(|segment.value.content|) else Err(segment.error);
      }
      HistoryOfAppend(spool.codec, spool.limits, spool.View(), record, obstacles.append);
      var write := spool.Append(record, obstacles.append);
      return if write.Ok? then Ok(write.value.endWatermark) else Err(write.error);
    }

    /**
     * One capture.  `build` makes the record around the digest of the published blob, unless its body does not
     * encode; `route` asks for an isolated segment.  A Durable outcome means the blob holds the payload and the
     * record's frame was appended Ok; any other outcome adds no Ok record, and a fence failure touches neither store.
     * Which outcome it is, the stores before the call and the obstacles decide.
     */
    method CaptureInner(payload: Bytes, build: Digest -> Option<SpoolRecord>, route: Option<string>, obstacles: Obstacles)
      returns (outcome: CaptureOutcome)
      requires cas.Valid() && Sound(spool.codec)
      modifies this, cas, spool
      ensures cas.Valid()
      ensures outcome.DurableOutcome? ==>
        && outcome.digest == SHA256(payload) && build(outcome.digest).Some?
        && outcome.digest in cas.Present()
        && cas.shards[ShardOf(outcome.digest)][outcome.digest] == Blob(payload, true, true)
        && spool.history.ok == old(spool.history.ok) + multiset{build(outcome.digest).value}
        && (route.None? ==> outcome.endWatermark == spool.watermark)
      ensures !outcome.DurableOutcome? ==> spool.history.ok == old(spool.history.ok)
      ensures obstacles.fenceBusy ==> cas.Present() == old(cas.Present()) && spool.View() == old(spool.View())
      ensures old(cas.Present()) <= cas.Present()
      ensures cas.Present() == old(cas.Present())
        + if BlobPublished(old(cas.shards), payload, obstacles) || (!obstacles.fenceBusy && obstacles.put == ShardSyncFails)
          then {SHA256(payload)} else {}
      ensures var built := build(SHA256(payload));
        spool.View() == if BlobPublished(old(cas.shards), payload, obstacles) && built.Some?
          then Step(spool.codec, spool.limits, old(spool.View()), Published(built.value, route, obstacles)) else old(spool.View())
      ensures var built := build(SHA256(payload));
        outcome.DurableOutcome? <==>
          && BlobPublished(old(cas.shards), payload, obstacles) && built.Some?
          && PublishOk(spool.codec, spool.limits, old(spool.View()), built.value, route, obstacles)
      ensures outcome == BodyRefused <==> BlobPublished(old(cas.shards), payload, obstacles) && build(SHA256(payload)).None?
      ensures var built := build(SHA256(payload));
        outcome == IsolatedRefused <==>
          && BlobPublished(old(cas.shards), payload, obstacles) && built.Some? && route.Some?
          && !PublishOk(spool.codec, spool.limits, old(spool.View()), built.value, route, obstacles)
      ensures outcome.BodyRefused? || outcome.IsolatedRefused? ==> state == old(state)
      ensures outcome.DurableOutcome? ==> state == NextState(old(state), true, false)
      ensures Failed(outcome) ==> state == UnderPressure || state == Unreachable
      ensures Failed(outcome) ==>
        var reason := if state == UnderPressure then MainPressure else MainUnavailable;
        && slots == AfterGap(old(slots), reason, obstacles.marker).0
        && outcome == if AfterGap(old(slots), reason, obstacles.marker).1 then GapRecorded(reason) else CompletenessLost
      ensures !Failed(outcome) ==> slots == old(slots)
      ensures var built := build(SHA256(payload));
        Failed(outcome) ==>
          (state == UnderPressure <==>
            && BlobPublished(old(cas.shards), payload, obstacles) && built.Some?
            && PublishPressed(spool.codec, spool.limits, old(spool.View()), built.value, route, obstacles))
    {
      hide Sound, PublishOk, PublishPressed, Contents, Step, AfterGap, LowestFree;
      if obstacles.fenceBusy {
        state := Unreachable;
        outcome := RecordGap(MainUnavailable, obstacles.marker);
        return;
      }
      var put := cas.Put(payload, obstacles.put);
      if put.Err? {
        state := Unreachable;
        outcome := RecordGap(MainUnavailable, obstacles.marker);
        return;
      }
      var digest := put.value;
      var built := build(digest);
      if built.None? {
        return BodyRefused;
      }
      var write := Publish(built.value, route, obstacles);
      if write.Ok? {
        state := NextState(state, true, false);
        return DurableOutcome(digest, write.value);
      }
      if route.Some? {
        return IsolatedRefused;
      }
      if write.error.Pressure? {
        state := UnderPressure;
        outcome := RecordGap(MainPressure, obstacles.marker);
      } else {
        state := Unreachable;
        outcome := RecordGap(MainUnavailable, obstacles.marker);
      }
    }
  }

  /** The spool event of a capture. */
  function Published(record: SpoolRecord, route: Option<string>, obstacles: Obstacles): Event {
    match route
    case None => AppendEvent(record, obstacles.append)
    case Some(hint) => IsolatedEvent(hint, record, obstacles.append, obstacles.removed, obstacles.cleanupSynced)
  }

  /** The capture did not get through; the caller sees a gap or lost completeness. */
  predicate Failed(outcome: CaptureOutcome) { outcome.GapRecorded? || outcome.CompletenessLost? }

  lemma HistoryOfAppend(c: Codec, l: Limits, s: State, r: SpoolRecord, fault: Fault)
    requires Sound(c)
    ensures Step(c, l, s, AppendEvent(r, fault)).history.ok
         == if AppendOk(c, l, s, r, fault) then s.history.ok + multiset{r} else s.history.ok
  {
    hide Sound, Pressured, Appendable;
    AppendStep(c, l, s, r, fault);
  }

  lemma HistoryOfIsolated(c: Codec, l: Limits, s: State, hint: string, r: SpoolRecord, obstacles: Obstacles)
    requires Sound(c)
    ensures Step(c, l, s, Published(r, Some(hint), obstacles)).history.ok
         == if WritesIsolated(c, l, s, hint, r, obstacles.append) && obstacles.append.NoFault? then s.history.ok + multiset{r} else s.history.ok
  {
    hide Sound, AdmitsIsolated;
    IsolatedStep(c, l, s, hint, r, obstacles.append, obstacles.removed, obstacles.cleanupSynced);
  }

  /** A capture attempt as the state sees it. */
  datatype Attempt = Appended | Pressed | Refused

  function After(state: AdmissionState, attempts: seq<Attempt>): AdmissionState
    decreases |attempts|
  {
    if attempts == [] then state
    else After(NextState(state, attempts[0].Appended?, attempts[0].Pressed?), attempts[1..])
  }

  /**
   * Without `complete_recovery`, captures alone take a recovering runtime back to Normal exactly when
   * some attempt failed and the last one succeeded; as long as none fails it stays Recovering.
   */
  lemma {:induction false} RecoveringIsLeftByFailure(attempts: seq<Attempt>)
    ensures After(Recovering, attempts) == Recovering <==> forall i :: 0 <= i < |attempts| ==> attempts[i] == Appended
    ensures After(Recovering, attempts) == Normal <==>
      (exists i :: 0 <= i < |attempts| && attempts[i] != Appended) && attempts[|attempts| - 1] == Appended
    decreases |attempts|
  {
    if attempts != [] {
      assert forall i :: 0 < i < |attempts| ==> attempts[i] == attempts[1..][i - 1];
      assert forall i :: 0 <= i < |attempts| - 1 ==> attempts[1..][i] == attempts[i + 1];
      if attempts[0] == Appended {
        RecoveringIsLeftByFailure(attempts[1..]);
      } else {
        AfterFailure(NextState(Recovering, false, attempts[0].Pressed?), attempts[1..]);
      }
    }
  }

  lemma {:induction false} AfterFailure(state: AdmissionState, attempts: seq<Attempt>)
    requires state != Recovering
    ensures After(state, attempts) != Recovering
    ensures attempts != [] ==> (After(state, attempts) == Normal <==> attempts[|attempts| - 1] == Appended)
    decreases |attempts|
  {
    if attempts != [] {
      AfterFailure(NextState(state, attempts[0].Appended?, attempts[0].Pressed?), attempts[1..]);
    }
  }
}
