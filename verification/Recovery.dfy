/** What `recover` does, file by file: which files go to quarantine, where to, and when all of it succeeds. */
module Recovery {
  import opened Prelude
  import opened Record
  import opened Scanner
  import opened SpoolState

  ghost function Unhealthy(c: Codec, sealed: map<Name, File>): set<Name>
    requires Sound(c)
  {
    set n | n in sealed && !Healthy(c, sealed[n].bytes)
  }

  ghost predicate CorruptActive(c: Codec, active: Option<File>)
    requires Sound(c)
  {
    active.Some? && Scan(c, active.value.bytes).Err?
  }

  ghost function Named(names: set<Name>): set<Option<Name>> { set n | n in names :: Some(n) }

  /** What recovery moves to quarantine: unhealthy segments by name, a corrupt active file as `None`. */
  ghost function Doomed(c: Codec, s: State): set<Option<Name>>
    requires Sound(c)
  {
    Named(Unhealthy(c, s.sealed)) + if CorruptActive(c, s.active) then {None} else {}
  }

  /** The carrier names that are still free. */
  ghost function Vacant(taken: set<nat>): set<nat> { set q: nat | q < UNIQUE_LIMIT && q !in taken }

  /** The syncs behind the repair of the active file that have to succeed do. */
  ghost predicate TailSyncs(c: Codec, active: Option<File>, sync: MoveSync)
    requires Sound(c)
  {
    active.Some? ==>
      match Scan(c, active.value.bytes)
      case Err(_) => sync.BothSynced?
      case Ok(scan) => scan.incompleteTail ==> !sync.NotSynced?
  }

  /** Recovery succeeds: a vacant carrier for every file to be moved, and every sync it depends on. */
  ghost predicate Recovers(c: Codec, s: State, syncs: Name -> MoveSync, tailSync: MoveSync)
    requires Sound(c)
  {
    && |Doomed(c, s)| <= |Vacant(s.quarantine.Keys)|
    && (forall n :: n in Unhealthy(c, s.sealed) ==> syncs(n).BothSynced?)
    && TailSyncs(c, s.active, tailSync)
  }

  /** The active file is cut to its complete frames, or gone when it was corrupt. */
  ghost predicate TailRepaired(c: Codec, active: Option<File>, active': Option<File>, cut: nat, watermark: nat)
    requires Sound(c)
  {
    if active.None? then active'.None? && cut == 0
    else match Scan(c, active.value.bytes)
      case Err(_) => active'.None? && cut == 0 && watermark == 0
      case Ok(scan) =>
        && scan.completeLength <= |active.value.bytes|
        && active'.Some? && active'.value.bytes == active.value.bytes[..scan.completeLength]
        && cut == |active.value.bytes| - scan.completeLength && watermark == scan.completeLength
  }

  /* ---------- files moved to carriers ---------- */

  predicate SameFile(f: File, g: File) { f.inode == g.inode && f.bytes == g.bytes }

  /** The same files under the same names; syncs may have changed what of them is durable. */
  ghost predicate Alike<K>(a: map<K, File>, b: map<K, File>) {
    a.Keys == b.Keys && forall k :: k in a ==> SameFile(a[k], b[k])
  }

  predicate SameActive(a: Option<File>, b: Option<File>) {
    (a.Some? <==> b.Some?) && (a.Some? ==> SameFile(a.value, b.value))
  }

  predicate Has(s: State, k: Option<Name>) { if k.Some? then k.value in s.sealed else s.active.Some? }

  function At(s: State, k: Option<Name>): File
    requires Has(s, k)
  {
    if k.Some? then s.sealed[k.value] else s.active.value
  }

  ghost predicate Injective<K, V>(m: map<K, V>) { forall a, b :: a in m && b in m && m[a] == m[b] ==> a == b }

  /** The sealed files that were not moved. */
  function Unmoved(sealed: map<Name, File>, carriers: map<Option<Name>, nat>): map<Name, File> {
    map n | n in sealed && Some(n) !in carriers :: sealed[n]
  }

  /** Each file named lies in a carrier that is new. */
  ghost predicate Carried(s: State, quarantine: map<nat, File>, carriers: map<Option<Name>, nat>) {
    forall k :: k in carriers ==>
      && carriers[k] in quarantine.Keys - s.quarantine.Keys && carriers[k] < UNIQUE_LIMIT
      && Has(s, k) && SameFile(quarantine[carriers[k]], At(s, k))
  }

  ghost predicate CarriersKept(quarantine: map<nat, File>, quarantine': map<nat, File>, carriers: map<Option<Name>, nat>) {
    && quarantine'.Keys == quarantine.Keys + carriers.Values
    && forall q :: q in quarantine ==> SameFile(quarantine'[q], quarantine[q])
  }

  /** The files named by `carriers` lie in new carriers, one each; every other sealed file and carrier is as it was. */
  ghost predicate Moved(s: State, s': State, carriers: map<Option<Name>, nat>) {
    && Alike(Unmoved(s.sealed, carriers), s'.sealed)
    && CarriersKept(s.quarantine, s'.quarantine, carriers)
    && Carried(s, s'.quarantine, carriers)
    && Injective(carriers)
  }

  /** One file goes to the carrier `q`. */
  ghost predicate OneMoved(s: State, s': State, k: Option<Name>, q: nat) {
    && Has(s, k) && q !in s.quarantine && q < UNIQUE_LIMIT
    && Alike(if k.Some? then s.sealed - {k.value} else s.sealed, s'.sealed)
    && Alike(s.quarantine[q := At(s, k)], s'.quarantine)
  }

  lemma MovedNothing(s: State)
    ensures Moved(s, s, map[])
  {
    var none: map<Option<Name>, nat> := map[];
    assert Unmoved(s.sealed, none) == s.sealed;
  }

  lemma MovedBytes(s: State, s': State, carriers: map<Option<Name>, nat>, n: Name)
    requires Moved(s, s', carriers) && n in s'.sealed
    ensures n in s.sealed && SameFile(s.sealed[n], s'.sealed[n]) && Some(n) !in carriers
  {
    assert n in Unmoved(s.sealed, carriers);
  }

  lemma ValuesWith(m: map<Option<Name>, nat>, k: Option<Name>, q: nat)
    requires k !in m
    ensures m[k := q].Values == m.Values + {q} && m[k := q].Keys == m.Keys + {k}
    ensures Injective(m) && q !in m.Values ==> Injective(m[k := q])
  {
    var m' := m[k := q];
    forall v | v in m.Values + {q} ensures v in m'.Values {
      if v == q {
        assert m'[k] == v;
      } else {
        var j :| j in m && m[j] == v;
        assert m'[j] == v;
      }
    }
  }

  lemma SealedAfter(s: State, s': State, s'': State, carriers: map<Option<Name>, nat>, k: Option<Name>, q: nat)
    requires Moved(s, s', carriers) && OneMoved(s', s'', k, q) && k !in carriers
    ensures Alike(Unmoved(s.sealed, carriers[k := q]), s''.sealed)
  {
    hide CarriersKept, Carried, Injective, SameFile;
    var left, left' := Unmoved(s.sealed, carriers), Unmoved(s.sealed, carriers[k := q]);
    var rest := if k.Some? then s'.sealed - {k.value} else s'.sealed;
    assert left' == if k.Some? then left - {k.value} else left;
    assert Alike(left', rest);
    hide Unmoved;
    hide Alike;
    AlikeSteps(left', rest, s''.sealed);
  }

  lemma AlikeSteps<K>(a: map<K, File>, b: map<K, File>, d: map<K, File>)
    requires Alike(a, b) && Alike(b, d)
    ensures Alike(a, d)
  {}

  lemma CarriersAfter(s: State, s': State, s'': State, carriers: map<Option<Name>, nat>, k: Option<Name>, q: nat)
    requires CarriersKept(s.quarantine, s'.quarantine, carriers) && k !in carriers
    requires OneMoved(s', s'', k, q)
    ensures CarriersKept(s.quarantine, s''.quarantine, carriers[k := q])
  {
    ValuesWith(carriers, k, q);
    var added := s'.quarantine[q := At(s', k)];
    assert added.Keys == s'.quarantine.Keys + {q};
    forall p | p in s.quarantine ensures SameFile(s''.quarantine[p], s.quarantine[p]) {
      assert p in added && added[p] == s'.quarantine[p];
    }
  }

  lemma CarriedAfter(s: State, s': State, s'': State, carriers: map<Option<Name>, nat>, k: Option<Name>, q: nat)
    requires Carried(s, s'.quarantine, carriers) && k !in carriers && s.quarantine.Keys <= s'.quarantine.Keys
    requires OneMoved(s', s'', k, q) && Has(s, k) && SameFile(At(s', k), At(s, k))
    ensures Carried(s, s''.quarantine, carriers[k := q])
  {
    var added := s'.quarantine[q := At(s', k)];
    var m: map<Option<Name>, nat> := carriers[k := q];
    forall j | j in m
      ensures m[j] in s''.quarantine.Keys - s.quarantine.Keys && m[j] < UNIQUE_LIMIT
      ensures Has(s, j) && SameFile(s''.quarantine[m[j]], At(s, j))
    {
      assert m[j] in added;
    }
  }

  lemma MovedOne(s: State, s': State, s'': State, carriers: map<Option<Name>, nat>, k: Option<Name>, q: nat)
    requires Moved(s, s', carriers) && OneMoved(s', s'', k, q) && k !in carriers && (k.None? ==> SameActive(s.active, s'.active))
    ensures Moved(s, s'', carriers[k := q])
  {
    SealedAfter(s, s', s'', carriers, k, q);
    CarriersAfter(s, s', s'', carriers, k, q);
    if k.Some? {
      MovedBytes(s, s', carriers, k.value);
    }
    assert q !in carriers.Values && Has(s, k) && SameFile(At(s', k), At(s, k)) && s.quarantine.Keys <= s'.quarantine.Keys;
    hide OneMoved, Alike, Unmoved, CarriersKept, Injective;
    CarriedAfter(s, s', s'', carriers, k, q);
    ValuesWith(carriers, k, q);
  }

  lemma VacantSplit(taken: set<nat>, q: nat)
    requires q < UNIQUE_LIMIT && q !in taken
    ensures |Vacant(taken + {q})| + 1 == |Vacant(taken)|
  {
    assert Vacant(taken) == Vacant(taken + {q}) + {q};
  }

  lemma VacantExactly(s: State)
    ensures HasCarrier(s) <==> |Vacant(s.quarantine.Keys)| > 0
  {
    hide FreeCarrier;
    var r := FreeCarrier(s.quarantine.Keys, 0);
    if r.Some? {
      assert r.value in Vacant(s.quarantine.Keys);
    } else {
      assert Vacant(s.quarantine.Keys) == {};
    }
  }

  lemma Smaller<T>(a: set<T>, b: set<T>, x: T)
    requires a <= b && x in b && x !in a
    ensures |a| < |b|
  {
    assert |b| == |a| + |b - a| by {
      assert b == a + (b - a);
    }
    assert x in b - a;
  }

  /* ---------- the sweep over the sealed segments ---------- */

  /** How far the sweep has come: all unhealthy segments but those in `todo` have been moved, their syncs done. */
  ghost predicate Sweeping(c: Codec, s: State, s': State, syncs: Name -> MoveSync, todo: set<Name>, carriers: map<Option<Name>, nat>)
    requires Sound(c)
  {
    && Moved(s, s', carriers) && SameActive(s.active, s'.active)
    && carriers.Keys == Named(Unhealthy(c, s.sealed) - todo)
    && |Vacant(s'.quarantine.Keys)| + |carriers.Keys| == |Vacant(s.quarantine.Keys)|
    && forall n :: n in Unhealthy(c, s.sealed) - todo ==> syncs(n).BothSynced?
  }

  lemma SweepStarts(c: Codec, s: State, syncs: Name -> MoveSync)
    requires Sound(c)
    ensures Sweeping(c, s, s, syncs, s.sealed.Keys, map[])
  {
    hide Sound, Healthy, Moved, Vacant;
    MovedNothing(s);
    assert Unhealthy(c, s.sealed) - s.sealed.Keys == {};
  }

  lemma SweepFails(c: Codec, s: State, s': State, syncs: Name -> MoveSync, tailSync: MoveSync, todo: set<Name>,
                   carriers: map<Option<Name>, nat>, n: Name)
    requires Sound(c) && n in todo && n in s'.sealed && Sweeping(c, s, s', syncs, todo, carriers)
    requires !Healthy(c, s'.sealed[n].bytes) && (!HasCarrier(s') || !syncs(n).BothSynced?)
    ensures !Recovers(c, s, syncs, tailSync)
  {
    hide Sound, Healthy, HasCarrier, TailSyncs, CorruptActive, Vacant, Moved;
    MovedBytes(s, s', carriers, n);
    VacantExactly(s');
    assert n in Unhealthy(c, s.sealed);
    Smaller(carriers.Keys, Doomed(c, s), Some(n));
  }

  /** Syncs change no file. */
  lemma SyncsKeepFiles(s: State, carriers: bool, main: bool)
    ensures var s' := SyncMainIf(SyncCarriersIf(s, carriers), main);
      Alike(s.sealed, s'.sealed) && Alike(s.quarantine, s'.quarantine) && SameActive(s.active, s'.active)
  {}

  lemma OneMovedAlike(s: State, s': State, s'': State, k: Option<Name>, q: nat)
    requires OneMoved(s, s', k, q) && Alike(s'.sealed, s''.sealed) && Alike(s'.quarantine, s''.quarantine)
    ensures OneMoved(s, s'', k, q)
  {
    hide Alike;
    AlikeSteps(if k.Some? then s.sealed - {k.value} else s.sealed, s'.sealed, s''.sealed);
    AlikeSteps(s.quarantine[q := At(s, k)], s'.quarantine, s''.quarantine);
  }

  lemma SegmentMoves(c: Codec, l: Limits, s: State, n: Name, sync: MoveSync)
    requires Sound(c) && n in s.sealed && !Healthy(c, s.sealed[n].bytes) && HasCarrier(s)
    ensures var s' := Step(c, l, s, RecoverSegmentEvent(n, sync));
      OneMoved(s, s', Some(n), CarrierOf(s)) && SameActive(s.active, s'.active)
  {
    hide Sound, Healthy, FreeCarrier, LinkMain, LinkCarriers;
    var moved := QuarantineSegment(s, n);
    assert OneMoved(s, moved, Some(n), CarrierOf(s)) && SameActive(s.active, moved.active);
    hide QuarantineSegment, OneMoved;
    SyncsKeepFiles(moved, !sync.NotSynced?, sync.BothSynced?);
    OneMovedAlike(s, moved, Step(c, l, s, RecoverSegmentEvent(n, sync)), Some(n), CarrierOf(s));
  }

  lemma HealthyStays(c: Codec, l: Limits, s: State, n: Name, sync: MoveSync)
    requires Sound(c) && n in s.sealed && Healthy(c, s.sealed[n].bytes)
    ensures Step(c, l, s, RecoverSegmentEvent(n, sync)) == s
  {
    hide Sound, Healthy;
  }

  /** One segment of the sweep, seen from the state recovery started in. */
  lemma SweepStep(c: Codec, l: Limits, s0: State, s: State, syncs: Name -> MoveSync, todo: set<Name>,
                  carriers: map<Option<Name>, nat>, n: Name) returns (carriers': map<Option<Name>, nat>)
    requires Sound(c) && n in todo && n in s.sealed && Sweeping(c, s0, s, syncs, todo, carriers)
    requires Healthy(c, s.sealed[n].bytes) || (HasCarrier(s) && syncs(n).BothSynced?)
    ensures Sweeping(c, s0, Step(c, l, s, RecoverSegmentEvent(n, syncs(n))), syncs, todo - {n}, carriers')
  {
    hide Sound, Healthy, HasCarrier, Moved, Vacant, Step, CarrierOf, Named, SameFile;
    MovedBytes(s0, s, carriers, n);
    SameBytes(s0.sealed[n], s.sealed[n]);
    var left := Unhealthy(c, s0.sealed) - todo;
    if Healthy(c, s.sealed[n].bytes) {
      HealthyStays(c, l, s, n, syncs(n));
      assert Unhealthy(c, s0.sealed) - (todo - {n}) == left;
      carriers' := carriers;
    } else {
      carriers' := carriers[Some(n) := CarrierOf(s)];
      assert Unhealthy(c, s0.sealed) - (todo - {n}) == left + {n};
      hide Unhealthy;
      NamedWith(left, n);
      SweepMove(c, l, s0, s, syncs(n), carriers, n);
    }
  }

  lemma SameBytes(f: File, g: File)
    requires SameFile(f, g)
    ensures f.bytes == g.bytes
  {}

  lemma NamedWith(names: set<Name>, n: Name)
    ensures Named(names + {n}) == Named(names) + {Some(n)}
  {}

  lemma SweepMove(c: Codec, l: Limits, s0: State, s: State, sync: MoveSync, carriers: map<Option<Name>, nat>, n: Name)
    requires Sound(c) && n in s.sealed && !Healthy(c, s.sealed[n].bytes) && HasCarrier(s)
    requires Moved(s0, s, carriers) && SameActive(s0.active, s.active) && Some(n) !in carriers
    ensures var s', m := Step(c, l, s, RecoverSegmentEvent(n, sync)), carriers[Some(n) := CarrierOf(s)];
      && Moved(s0, s', m) && SameActive(s0.active, s'.active) && m.Keys == carriers.Keys + {Some(n)}
      && |Vacant(s'.quarantine.Keys)| + |m.Keys| == |Vacant(s.quarantine.Keys)| + |carriers.Keys|
  {
    hide Sound, Healthy, Moved, Vacant, Step, FreeCarrier;
    var s', q := Step(c, l, s, RecoverSegmentEvent(n, sync)), CarrierOf(s);
    SegmentMoves(c, l, s, n, sync);
    MovedOne(s0, s, s', carriers, Some(n), q);
    ValuesWith(carriers, Some(n), q);
    VacantSplit(s.quarantine.Keys, q);
    assert s'.quarantine.Keys == s.quarantine.Keys + {q};
  }

  function CarrierOf(s: State): nat
    requires HasCarrier(s)
  {
    FreeCarrier(s.quarantine.Keys, 0).value
  }

  /* ---------- the active file ---------- */

  /** Behind the sweep, what the active file needs decides. */
  lemma TailDecides(c: Codec, s0: State, s: State, syncs: Name -> MoveSync, tailSync: MoveSync, carriers: map<Option<Name>, nat>)
    requires Sound(c) && Sweeping(c, s0, s, syncs, {}, carriers)
    ensures carriers.Keys == Named(Unhealthy(c, s0.sealed)) && Moved(s0, s, carriers) && SameActive(s0.active, s.active)
    ensures Recovers(c, s0, syncs, tailSync) <==>
      TailSyncs(c, s.active, tailSync) && (CorruptActive(c, s.active) ==> HasCarrier(s))
  {
    hide Sound, Healthy, HasCarrier, Vacant, Scan, Moved, Named, Doomed;
    VacantExactly(s);
    assert Unhealthy(c, s0.sealed) - {} == Unhealthy(c, s0.sealed);
    DoomedCount(c, s0);
  }

  lemma DoomedCount(c: Codec, s: State)
    requires Sound(c)
    ensures |Doomed(c, s)| == |Named(Unhealthy(c, s.sealed))| + if CorruptActive(c, s.active) then 1 else 0
  {
    hide Sound, Unhealthy, Scan;
    assert None !in Named(Unhealthy(c, s.sealed));
  }

  lemma TailOfSame(c: Codec, a: Option<File>, b: Option<File>, after: Option<File>, cut: nat, watermark: nat)
    requires Sound(c) && SameActive(a, b) && TailRepaired(c, b, after, cut, watermark)
    ensures TailRepaired(c, a, after, cut, watermark)
  {
    hide Sound, Scan;
  }

  /** The active file's part, seen from the state recovery started in. */
  lemma TailStep(c: Codec, l: Limits, s0: State, s: State, sync: MoveSync, carriers: map<Option<Name>, nat>)
    returns (carriers': map<Option<Name>, nat>)
    requires Sound(c) && Moved(s0, s, carriers) && SameActive(s0.active, s.active)
    requires carriers.Keys == Named(Unhealthy(c, s0.sealed))
    requires CorruptActive(c, s.active) ==> HasCarrier(s)
    ensures var s' := Step(c, l, s, RecoverActiveEvent(sync));
      Moved(s0, s', carriers') && carriers'.Keys == Doomed(c, s0)
  {
    hide Sound, Healthy, HasCarrier, Moved, Scan, Step;
    if CorruptActive(c, s.active) {
      var q := CarrierOf(s);
      ActiveMoves(c, l, s, sync);
      MovedOne(s0, s, Step(c, l, s, RecoverActiveEvent(sync)), carriers, None, q);
      carriers' := carriers[None := q];
    } else {
      ActiveStays(c, l, s, sync);
      MovedAlike(s0, s, Step(c, l, s, RecoverActiveEvent(sync)), carriers);
      carriers' := carriers;
    }
  }

  lemma MovedAlike(s0: State, s: State, s': State, carriers: map<Option<Name>, nat>)
    requires Moved(s0, s, carriers) && s'.sealed == s.sealed && s'.quarantine == s.quarantine
    ensures Moved(s0, s', carriers)
  {}

  lemma ActiveMoves(c: Codec, l: Limits, s: State, sync: MoveSync)
    requires Sound(c) && CorruptActive(c, s.active) && HasCarrier(s)
    ensures OneMoved(s, Step(c, l, s, RecoverActiveEvent(sync)), None, CarrierOf(s))
  {
    hide Sound, Scan, FreeCarrier, LinkMain, LinkCarriers;
    var moved := QuarantineActive(s, sync);
    assert OneMoved(s, moved, None, CarrierOf(s));
    hide QuarantineActive, OneMoved;
    SyncsKeepFiles(moved, !sync.NotSynced?, sync.BothSynced?);
    OneMovedAlike(s, moved, Step(c, l, s, RecoverActiveEvent(sync)), None, CarrierOf(s));
  }

  lemma ActiveStays(c: Codec, l: Limits, s: State, sync: MoveSync)
    requires Sound(c) && !CorruptActive(c, s.active)
    ensures var s' := Step(c, l, s, RecoverActiveEvent(sync));
      s'.sealed == s.sealed && s'.quarantine == s.quarantine
  {
    hide Sound, Scan;
  }
}
