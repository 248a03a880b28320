/** What every run of the spool keeps: durability, nothing invented, delivery before release, quota. */
module SpoolRuns {
  import opened Prelude
  import opened Record
  import opened Scanner
  import opened Validator
  import opened Paging
  import opened SpoolState

  /* ---------- invariants ---------- */

  /** Complete frames followed by at most one torn frame. */
  ghost predicate FileOk(c: Codec, f: File)
    requires Sound(c)
  {
    f.synced <= |f.bytes| && Scan(c, f.bytes).Ok?
  }

  ghost predicate FilesOk(c: Codec, s: State)
    requires Sound(c)
  {
    && (s.active.Some? ==> FileOk(c, s.active.value))
    && (forall n :: n in s.sealed ==> FileOk(c, s.sealed[n]))
    && (forall q :: q in s.quarantine ==> FileOk(c, s.quarantine[q]))
  }

  /** Every record whose append returned Ok is durable in some file or has been released. */
  ghost predicate Accounted(c: Codec, s: State) {
    s.history.ok <= Across(s, DurableBy(c)) + Released(s.history)
  }

  /** No file holds, and nothing was released, that was not handed to an append. */
  ghost predicate NothingInvented(c: Codec, s: State) {
    Across(s, StoredBy(c)) + Released(s.history) <= s.history.attempted
  }

  /** Everything before the end of a claimed page has been handed to the reader. */
  ghost predicate HandleOk(c: Codec, delivered: set<SpoolRecord>, h: Handle)
    requires Sound(c)
  {
    && h.page.end <= |h.content| && Clean(c, h.content[..h.page.end])
    && forall r :: r in WholeFrames(c, h.content[..h.page.end]) ==> r in delivered
  }

  ghost predicate DeliveredFirst(c: Codec, s: State)
    requires Sound(c)
  {
    && (forall h :: h in s.handles ==> HandleOk(c, s.history.delivered, h))
    && (forall r :: r in s.history.acked ==> r in s.history.delivered)
  }

  ghost predicate WithinQuota(l: Limits, s: State) {
    MainFiles(s) <= l.maxFiles && MainBytes(s) <= l.high
  }

  ghost predicate Inv(c: Codec, s: State)
    requires Sound(c)
  {
    FilesOk(c, s) && NothingInvented(c, s) && DeliveredFirst(c, s)
  }

  ghost predicate AllLinked(s: State) {
    && (s.active.Some? ==> s.active.value.linked)
    && (forall n :: n in s.sealed ==> s.sealed[n].linked)
    && (forall q :: q in s.quarantine ==> s.quarantine[q].linked && !s.quarantine[q].moving)
  }

  /* ---------- complete frames of a file ---------- */

  lemma PrefixMultiset<T>(s: seq<T>, t: seq<T>)
    requires s <= t
    ensures multiset(s) <= multiset(t)
  {
    assert t == s + t[|s|..];
  }

  /** Cutting a file short keeps it readable and only drops frames from its end. */
  lemma CompletePrefix(c: Codec, b: Bytes, k: nat)
    requires Sound(c) && Scan(c, b).Ok? && k <= |b|
    ensures Scan(c, b[..k]).Ok?
    ensures WholeFrames(c, b[..k]) <= WholeFrames(c, b)
    ensures multiset(WholeFrames(c, b[..k])) <= multiset(WholeFrames(c, b))
  {
    hide Inverts, Detects, Exact, Stable, Scan;
    assert b[..k] + b[k..] == b;
    ScanExtend(c, b[..k], b[k..]);
    var part, whole := Scan(c, b[..k]).value, Scan(c, b).value;
    assert part.frames <= whole.frames;
    assert Records(part.frames) <= Records(whole.frames);
    PrefixMultiset(WholeFrames(c, b[..k]), WholeFrames(c, b));
  }

  lemma CleanComplete(c: Codec, b: Bytes)
    requires Sound(c) && Clean(c, b)
    ensures AllAccepted(c, WholeFrames(c, b)) && b == EncodeAll(c, WholeFrames(c, b))
  {
    CleanIsEncoded(c, b);
  }

  lemma CompleteEncoded(c: Codec, rs: seq<SpoolRecord>)
    requires Sound(c) && AllAccepted(c, rs)
    ensures Clean(c, EncodeAll(c, rs)) && WholeFrames(c, EncodeAll(c, rs)) == rs
  {
    hide Inverts, Detects, Exact, Stable, Scan;
    ScanOfEncoded(c, rs);
    assert Records(Decoded(c, rs)) == rs;
  }

  /** Writing part or all of a frame at the end of a clean file. */
  lemma CompleteAppend(c: Codec, b: Bytes, r: SpoolRecord, k: nat)
    requires Sound(c) && Clean(c, b) && c.accepts(r) && k <= |c.frame(r)|
    ensures Scan(c, b + c.frame(r)[..k]).Ok?
    ensures WholeFrames(c, b + c.frame(r)[..k]) == WholeFrames(c, b) + (if k == |c.frame(r)| then [r] else [])
    ensures k == |c.frame(r)| ==> Clean(c, b + c.frame(r)[..k])
  {
    hide Inverts, Detects, Exact, Stable, Scan;
    CleanComplete(c, b);
    var rs := WholeFrames(c, b);
    if k == |c.frame(r)| {
      EncodeAppend(c, rs, [r]);
      assert [r][1..] == [] && EncodeAll(c, [r]) == c.frame(r) + [] == c.frame(r);
      assert c.frame(r)[..k] == c.frame(r);
      CompleteEncoded(c, rs + [r]);
    } else {
      ScanTorn(c, rs, r, k);
      assert Records(Decoded(c, rs)) == rs;
      assert rs + [] == rs;
    }
  }

  lemma CompleteTruncate(c: Codec, b: Bytes)
    requires Sound(c) && Scan(c, b).Ok?
    ensures Scan(c, b).value.completeLength <= |b|
    ensures Clean(c, b[..Scan(c, b).value.completeLength])
    ensures WholeFrames(c, b[..Scan(c, b).value.completeLength]) == WholeFrames(c, b)
  {
    hide Inverts, Detects, Exact, Stable, Scan;
    EncodeScanned(c, b);
    CompleteEncoded(c, Records(Scan(c, b).value.frames));
  }

  lemma DurableIsStored(c: Codec, f: File)
    requires Sound(c) && FileOk(c, f)
    ensures Durable(c, f) <= Stored(c, f)
  {
    CompletePrefix(c, f.bytes, f.synced);
  }

  /** The file after an append: still well formed, nothing durable lost, the record durable once synced. */
  lemma WrittenKeeps(c: Codec, f: File, r: SpoolRecord, created: bool, fault: Fault)
    requires Sound(c) && FileOk(c, f) && Clean(c, f.bytes) && c.accepts(r)
    ensures var f' := Written(f, c.frame(r), created, fault);
      && FileOk(c, f')
      && Durable(c, f) <= Durable(c, f')
      && (!fault.WriteFails? && !fault.SyncFails? ==> Durable(c, f) + multiset{r} <= Durable(c, f'))
      && Stored(c, f') <= Stored(c, f) + multiset{r}
  {
    hide Inverts, Detects, Exact, Stable, Scan, WholeFrames;
    var f' := Written(f, c.frame(r), created, fault);
    var n := if fault.WriteFails? then Min(fault.written, |c.frame(r)|) else |c.frame(r)|;
    CompleteAppend(c, f.bytes, r, n);
    DurableIsStored(c, f);
    if fault.WriteFails? || fault.SyncFails? {
      assert f'.bytes[..f'.synced] == f.bytes[..f.synced];
    } else {
      assert f'.bytes[..f'.synced] == f'.bytes;
    }
  }

  lemma EmptyFile(c: Codec, f: File)
    requires Sound(c) && f.bytes == [] && f.synced == 0
    ensures FileOk(c, f) && Clean(c, f.bytes)
    ensures Stored(c, f) == Durable(c, f) == multiset{}
  {
    EmptyScan(c);
    assert f.bytes[..0] == [];
    assert Records([]) == [];
  }

  /** Cutting a file at or after its synced bytes. */
  lemma CutKeeps(c: Codec, f: File, k: nat)
    requires Sound(c) && FileOk(c, f)
    ensures FileOk(c, Cut(f, k))
    ensures Durable(c, f) <= Durable(c, Cut(f, k))
    ensures k == 0 ==> Durable(c, Cut(f, k)) == Durable(c, f)
    ensures Stored(c, Cut(f, k)) <= Stored(c, f)
  {
    hide Inverts, Detects, Exact, Stable, Scan, WholeFrames;
    var n := |Cut(f, k).bytes|;
    CompletePrefix(c, f.bytes, n);
    CompletePrefix(c, f.bytes[..n], f.synced);
    assert f.bytes[..n][..f.synced] == f.bytes[..f.synced];
    assert f.bytes[..n][..n] == f.bytes[..n];
  }

  /* ---------- how each operation moves records between files ---------- */

  type View = File -> multiset<SpoolRecord>

  lemma ActiveAcross(s: State, s': State, view: View, gained: multiset<SpoolRecord>)
    requires s'.sealed == s.sealed && s'.quarantine == s.quarantine && s'.active.Some?
    requires (if s.active.Some? then view(s.active.value) else multiset{}) + gained <= view(s'.active.value)
    ensures Across(s, view) + gained <= Across(s', view)
  {}

  lemma ActiveAcrossAtMost(s: State, s': State, view: View, gained: multiset<SpoolRecord>)
    requires s'.sealed == s.sealed && s'.quarantine == s.quarantine && s'.active.Some?
    requires view(s'.active.value) <= (if s.active.Some? then view(s.active.value) else multiset{}) + gained
    ensures Across(s', view) <= Across(s, view) + gained
  {}

  lemma NewSealedAcross(s: State, s': State, view: View, name: Name, f: File)
    requires name !in s.sealed && s'.sealed == s.sealed[name := f]
    requires s'.active == s.active && s'.quarantine == s.quarantine
    ensures Across(s', view) == Across(s, view) + view(f)
  {
    GatherAdd(s.sealed, view, name, f);
  }

  lemma SealAcross(s: State, s': State, view: View, name: Name, f: File)
    requires s.active.Some? && s'.active.None? && view(f) == view(s.active.value)
    requires name !in s.sealed && s'.sealed == s.sealed[name := f] && s'.quarantine == s.quarantine
    ensures Across(s', view) == Across(s, view)
  {
    GatherAdd(s.sealed, view, name, f);
  }

  lemma QuarantineAcross(s: State, s': State, view: View, name: Name, q: nat, f: File)
    requires name in s.sealed && s'.sealed == s.sealed - {name} && view(f) == view(s.sealed[name])
    requires q !in s.quarantine && s'.quarantine == s.quarantine[q := f] && s'.active == s.active
    ensures Across(s', view) == Across(s, view)
  {
    GatherSplit(s.sealed, view, name);
    GatherAdd(s.quarantine, view, q, f);
  }

  lemma RemoveSealedAcross(s: State, s': State, view: View, name: Name)
    requires name in s.sealed && s'.sealed == s.sealed - {name}
    requires s'.active == s.active && s'.quarantine == s.quarantine
    ensures Across(s, view) == Across(s', view) + view(s.sealed[name])
  {
    GatherSplit(s.sealed, view, name);
  }

  lemma RemoveCarrierAcross(s: State, s': State, view: View, q: nat)
    requires q in s.quarantine && s'.quarantine == s.quarantine - {q}
    requires s'.active == s.active && s'.sealed == s.sealed
    ensures Across(s, view) == Across(s', view) + view(s.quarantine[q])
  {
    GatherSplit(s.quarantine, view, q);
  }

  /** Carry both accounts over a step: `gained` records became durable, at most `added` were stored. */
  lemma Balance(c: Codec, s: State, s': State, gained: multiset<SpoolRecord>, added: multiset<SpoolRecord>)
    requires NothingInvented(c, s)
    requires s'.history.ok == s.history.ok + gained && s'.history.attempted == s.history.attempted + added
    requires Across(s, DurableBy(c)) + Released(s.history) + gained <= Across(s', DurableBy(c)) + Released(s'.history)
    requires Across(s', StoredBy(c)) + Released(s'.history) <= Across(s, StoredBy(c)) + Released(s.history) + added
    ensures NothingInvented(c, s')
    ensures Accounted(c, s) ==> Accounted(c, s')
  {
    hide Across, DurableBy, StoredBy;
  }

  lemma ViewOf(c: Codec, f: File)
    ensures DurableBy(c)(f) == Durable(c, f) && StoredBy(c)(f) == Stored(c, f)
  {}

  /** Only the active file changed. */
  lemma ActiveBalance(c: Codec, s: State, s': State, gained: multiset<SpoolRecord>, added: multiset<SpoolRecord>)
    requires NothingInvented(c, s)
    requires s'.sealed == s.sealed && s'.quarantine == s.quarantine && s'.active.Some?
    requires s'.history.ok == s.history.ok + gained && s'.history.attempted == s.history.attempted + added
    requires s'.history.acked == s.history.acked && s'.history.reconciled == s.history.reconciled
    requires (if s.active.Some? then Durable(c, s.active.value) else multiset{}) + gained <= Durable(c, s'.active.value)
    requires Stored(c, s'.active.value) <= (if s.active.Some? then Stored(c, s.active.value) else multiset{}) + added
    ensures NothingInvented(c, s')
    ensures Accounted(c, s) ==> Accounted(c, s')
  {
    hide Across, DurableBy, StoredBy, NothingInvented, Accounted, Durable, Stored;
    if s.active.Some? {
      ViewOf(c, s.active.value);
    }
    ViewOf(c, s'.active.value);
    ActiveAcross(s, s', DurableBy(c), gained);
    ActiveAcrossAtMost(s, s', StoredBy(c), added);
    Balance(c, s, s', gained, added);
  }

  /** Nothing about records changed but their place. */
  lemma Moved(c: Codec, s: State, s': State)
    requires NothingInvented(c, s) && s'.history == s.history
    requires Across(s', DurableBy(c)) == Across(s, DurableBy(c)) && Across(s', StoredBy(c)) == Across(s, StoredBy(c))
    ensures NothingInvented(c, s')
    ensures Accounted(c, s) ==> Accounted(c, s')
  {
    hide Across, DurableBy, StoredBy;
  }

  lemma ActiveOk(c: Codec, s: State)
    requires Sound(c) && FilesOk(c, s) && s.active.Some?
    ensures FileOk(c, s.active.value)
  {}

  lemma ActiveReplaced(c: Codec, s: State, s': State)
    requires Sound(c) && FilesOk(c, s) && s'.sealed == s.sealed && s'.quarantine == s.quarantine
    requires s'.active.Some? && FileOk(c, s'.active.value)
    ensures FilesOk(c, s')
  {}

  /** Claims already handed out stay good while nothing new is claimed or acknowledged. */
  lemma ClaimsKept(c: Codec, s: State, s': State)
    requires Sound(c) && DeliveredFirst(c, s)
    requires s'.handles <= s.handles && s'.history.acked == s.history.acked
    requires s.history.delivered <= s'.history.delivered
    ensures DeliveredFirst(c, s')
  {
    hide Clean, WholeFrames;
    forall h | h in s'.handles ensures HandleOk(c, s'.history.delivered, h) {
      assert HandleOk(c, s.history.delivered, h);
    }
  }

  /* ---------- each operation keeps the invariants ---------- */

  lemma AppendKeeps(c: Codec, l: Limits, s: State, r: SpoolRecord, fault: Fault)
    requires Sound(c) && Inv(c, s)
    ensures Inv(c, Append(c, l, s, r, fault))
    ensures Accounted(c, s) ==> Accounted(c, Append(c, l, s, r, fault))
  {
    hide Inverts, Detects, Exact, Stable, Scan, WholeFrames, Durable, Stored, Across, DurableBy, StoredBy, Clean, Written, DeliveredFirst, NothingInvented, Accounted, FilesOk, FileOk, Released;
    if Writes(c, l, s, r, fault) {
      var created := s.active.None?;
      var f := if created then Created(s) else s.active.value;
      if created {
        EmptyFile(c, f);
      } else {
        ActiveOk(c, s);
      }
      WrittenKeeps(c, f, r, created, fault);
      var s' := Append(c, l, s, r, fault);
      var gained := if AppendOk(c, l, s, r, fault) then multiset{r} else multiset{};
      ActiveBalance(c, s, s', gained, multiset{r});
      ClaimsKept(c, s, s');
      ActiveReplaced(c, s, s');
    }
  }

  lemma IsolatedKeeps(c: Codec, l: Limits, s: State, hint: string, r: SpoolRecord, fault: Fault, removed: bool)
    requires Sound(c) && Inv(c, s)
    ensures Inv(c, AppendIsolated(c, l, s, hint, r, fault, removed))
    ensures Accounted(c, s) ==> Accounted(c, AppendIsolated(c, l, s, hint, r, fault, removed))
  {
    hide Inverts, Detects, Exact, Stable, Scan, WholeFrames, Durable, Stored, Across, DurableBy, StoredBy, Clean, NothingInvented, Accounted, HandleOk, Pressured, ValidHint, FileOk;
    if WritesIsolated(c, l, s, hint, r, fault) {
      var name, f0 := Isolated(hint, 0), Created(s);
      var f := Written(f0, c.frame(r), true, fault);
      assert name !in s.sealed;
      EmptyFile(c, f0);
      WrittenKeeps(c, f0, r, true, fault);
      ViewOf(c, f);
      var s' := AppendIsolated(c, l, s, hint, r, fault, removed);
      if !fault.NoFault? && removed {
        SameFiles(s, s', DurableBy(c));
        SameFiles(s, s', StoredBy(c));
        Moved(c, s, s');
        ClaimsKept(c, s, s');
      } else {
        NewSealedAcross(s, s', DurableBy(c), name, f);
        NewSealedAcross(s, s', StoredBy(c), name, f);
        Balance(c, s, s', if fault.NoFault? then multiset{r} else multiset{}, multiset{r});
        ClaimsKept(c, s, s'.(handles := s.handles));
        if fault.NoFault? {
          IsolatedHandle(c, f.bytes, r, Isolated(hint, 0), f.inode, s'.history.delivered);
        }
      }
    }
  }

  lemma SameFiles(s: State, s': State, view: View)
    requires s'.active == s.active && s'.sealed == s.sealed && s'.quarantine == s.quarantine
    ensures Across(s', view) == Across(s, view)
  {}

  lemma IsolatedHandle(c: Codec, b: Bytes, r: SpoolRecord, name: Name, inode: nat, delivered: set<SpoolRecord>)
    requires Sound(c) && c.accepts(r) && b == [] + c.frame(r)[..|c.frame(r)|] && r in delivered
    ensures HandleOk(c, delivered, Handle(name, inode, b, Page(0, [SealedFrame(r, 0, |b|)], |b|)))
  {
    hide Inverts, Detects, Exact, Stable, Scan;
    EmptyScan(c);
    CompleteAppend(c, [], r, |c.frame(r)|);
    assert WholeFrames(c, []) == [];
    assert b[..|b|] == b;
  }

  lemma SealKeeps(c: Codec, s: State, generation: nat, synced: bool)
    requires Sound(c) && Inv(c, s)
    ensures Inv(c, Seal(s, generation, synced))
    ensures Accounted(c, s) ==> Accounted(c, Seal(s, generation, synced))
  {
    hide Inverts, Detects, Exact, Stable, Scan, WholeFrames, Across, DurableBy, StoredBy, Clean, DeliveredFirst, NothingInvented, Accounted;
    var i := FreeSegment(s.sealed.Keys, generation, 0);
    if s.active.Some? && |s.active.value.bytes| != 0 && i.Some? {
      var f := s.active.value;
      var g := f.(linked := f.linked || synced);
      var s' := Seal(s, generation, synced);
      ViewOf(c, f);
      ViewOf(c, g);
      SealAcross(s, s', DurableBy(c), Segment(generation, i.value), g);
      SealAcross(s, s', StoredBy(c), Segment(generation, i.value), g);
      Moved(c, s, s');
      ClaimsKept(c, s, s');
    }
  }

  lemma QuarantineSegmentKeeps(c: Codec, s: State, name: Name)
    requires Sound(c) && Inv(c, s) && name in s.sealed
    ensures Inv(c, QuarantineSegment(s, name))
    ensures Accounted(c, s) ==> Accounted(c, QuarantineSegment(s, name))
  {
    hide Inverts, Detects, Exact, Stable, Scan, WholeFrames, Across, DurableBy, StoredBy, Clean, DeliveredFirst, NothingInvented, Accounted;
    var q := FreeCarrier(s.quarantine.Keys, 0);
    if q.Some? {
      var f := s.sealed[name];
      var g := f.(moving := true);
      var s' := QuarantineSegment(s, name);
      ViewOf(c, f);
      ViewOf(c, g);
      QuarantineAcross(s, s', DurableBy(c), name, q.value, g);
      QuarantineAcross(s, s', StoredBy(c), name, q.value, g);
      Moved(c, s, s');
      ClaimsKept(c, s, s');
    }
  }

  lemma PageKeeps(c: Codec, l: Limits, s: State, name: Name, from: Option<Handle>)
    requires Sound(c) && Inv(c, s)
    ensures Inv(c, IngestPage(c, l, s, name, from))
    ensures Accounted(c, s) ==> Accounted(c, IngestPage(c, l, s, name, from))
  {
    hide Inverts, Detects, Exact, Stable, Scan, WholeFrames, Durable, Stored, Clean, ReadPage, Unreadable, QuarantineSegment;
    if Readable(l, s, name, from) {
      var f, start := s.sealed[name], StartOf(from);
      if Unreadable(c, f.bytes, start) {
        QuarantineSegmentKeeps(c, s, name);
      } else if ReadPage(c, f.bytes, start).Ok? {
        if from.None? {
          StartsClean(c, f.bytes);
        }
        PageExtends(c, f.bytes, start);
        var page := ReadPage(c, f.bytes, start).value;
        var delivered := s.history.delivered + PageRecords(page);
        assert HandleOk(c, delivered, Handle(name, f.inode, f.bytes, page));
        assert forall h :: h in s.handles ==> HandleOk(c, delivered, h);
      }
    }
  }

  lemma StartsClean(c: Codec, b: Bytes)
    requires Sound(c)
    ensures Clean(c, b[..0]) && WholeFrames(c, b[..0]) == []
  {
    EmptyScan(c);
    assert b[..0] == [];
    assert Records([]) == [];
  }

  lemma {:induction false} PlacedRecords(frames: seq<DecodedFrame>, offset: nat, i: nat)
    requires i < |frames|
    ensures Place(frames, offset)[i].record == frames[i].record
  {
    if i > 0 {
      PlacedRecords(frames[1..], offset + frames[0].length, i - 1);
    }
  }

  /** The records before the end of a page are those before its start and those in it. */
  lemma PageExtends(c: Codec, b: Bytes, start: nat)
    requires Sound(c) && start <= |b| && Clean(c, b[..start]) && ReadPage(c, b, start).Ok?
    ensures var page := ReadPage(c, b, start).value;
      && page.end <= |b| && Clean(c, b[..page.end])
      && forall r :: r in WholeFrames(c, b[..page.end]) ==> r in WholeFrames(c, b[..start]) || r in PageRecords(page)
  {
    hide Inverts, Detects, Exact, Stable, Scan, ReadPage, WholeFrames;
    var rs := PageIsEncoded(c, b, start);
    var page := ReadPage(c, b, start).value;
    CleanComplete(c, b[..start]);
    var done := WholeFrames(c, b[..start]);
    EncodeAppend(c, done, rs);
    assert b[..page.end] == b[..start] + b[start..page.end];
    CompleteEncoded(c, done + rs);
    forall r | r in rs ensures r in PageRecords(page) {
      var i :| 0 <= i < |rs| && rs[i] == r;
      PlacedRecords(Decoded(c, rs), start, i);
      assert page.frames[i].record == r;
    }
  }

  lemma AcknowledgeKeeps(c: Codec, s: State, h: Handle, committed: nat)
    requires Sound(c) && Inv(c, s)
    ensures Inv(c, Acknowledge(c, s, h, committed))
    ensures Accounted(c, s) ==> Accounted(c, Acknowledge(c, s, h, committed))
  {
    hide Inverts, Detects, Exact, Stable, Scan, WholeFrames, Durable, Across, DurableBy, StoredBy, Clean;
    if CanAcknowledge(s, h, committed) {
      var f, s' := s.sealed[h.name], Acknowledge(c, s, h, committed);
      ViewOf(c, f);
      RemoveSealedAcross(s, s', DurableBy(c), h.name);
      RemoveSealedAcross(s, s', StoredBy(c), h.name);
      DurableIsStored(c, f);
      Balance(c, s, s', multiset{}, multiset{});
      assert HandleOk(c, s.history.delivered, h);
      assert h.content[..h.page.end] == f.bytes;
      forall r | r in s'.history.acked ensures r in s'.history.delivered {
        assert r in s.history.acked || r in multiset(WholeFrames(c, f.bytes));
      }
    }
  }

  lemma ReleaseKeeps(c: Codec, s: State, q: nat)
    requires Sound(c) && Inv(c, s)
    ensures Inv(c, ReleaseQuarantine(c, s, q))
    ensures Accounted(c, s) ==> Accounted(c, ReleaseQuarantine(c, s, q))
  {
    hide Inverts, Detects, Exact, Stable, Scan, WholeFrames, Durable, Stored, Across, DurableBy, StoredBy, Clean, DeliveredFirst, NothingInvented, Accounted;
    if q in s.quarantine {
      var f, s' := s.quarantine[q], ReleaseQuarantine(c, s, q);
      ViewOf(c, f);
      RemoveCarrierAcross(s, s', DurableBy(c), q);
      RemoveCarrierAcross(s, s', StoredBy(c), q);
      DurableIsStored(c, f);
      Balance(c, s, s', multiset{}, multiset{});
      ClaimsKept(c, s, s');
    }
  }

  /** Recovery of the active file truncates the torn tail and nothing else; it never quarantines it. */
  lemma RecoverActiveKeeps(c: Codec, s: State, sync: MoveSync)
    requires Sound(c) && Inv(c, s)
    ensures Inv(c, RecoverActive(c, s, sync))
    ensures Accounted(c, s) ==> Accounted(c, RecoverActive(c, s, sync))
    ensures s.active.Some? ==>
      && RecoverActive(c, s, sync).active.Some?
      && Clean(c, RecoverActive(c, s, sync).active.value.bytes)
      && Stored(c, RecoverActive(c, s, sync).active.value) == Stored(c, s.active.value)
  {
    hide Inverts, Detects, Exact, Stable, Scan, WholeFrames, Across, DurableBy, StoredBy, DeliveredFirst, NothingInvented, Accounted, FilesOk, Released;
    if s.active.Some? {
      var f, s' := s.active.value, RecoverActive(c, s, sync);
      ActiveOk(c, s);
      CompleteTruncate(c, f.bytes);
      EncodeScanned(c, f.bytes);
      DurableIsStored(c, f);
      var f' := s'.active.value;
      assert f'.bytes[..|f'.bytes|] == f'.bytes;
      assert f.synced <= |f'.bytes| ==> f'.bytes[..f.synced] == f.bytes[..f.synced];
      ActiveBalance(c, s, s', multiset{}, multiset{});
      ClaimsKept(c, s, s');
      ActiveReplaced(c, s, s');
    }
  }

  /* ---------- power loss ---------- */

  /** The files whose directory entry is durable. */
  ghost function LinkedFiles<K>(files: map<K, File>): map<K, File> { map k | k in files && files[k].linked :: files[k] }

  ghost function LinkedPart(s: State): State {
    s.(active := if s.active.Some? && s.active.value.linked then s.active else None,
       sealed := LinkedFiles(s.sealed), quarantine := LinkedFiles(s.quarantine))
  }

  /** Every Ok record is durable in a file whose entry is durable too, or released. */
  ghost predicate Secure(c: Codec, s: State) {
    s.history.ok <= Across(LinkedPart(s), DurableBy(c)) + Released(s.history)
  }

  /** The loss that keeps as little as it can. */
  ghost function WorstLoss(s: State): Loss { Loss(0, map[], map[], true, s.sealed.Keys, s.quarantine.Keys) }

  lemma LossKeeps<K>(c: Codec, files: map<K, File>, cuts: map<K, nat>, lost: set<K>)
    requires Sound(c) && forall k :: k in files ==> FileOk(c, files[k])
    ensures var left := LossOf(files, cuts, lost);
      && (forall k :: k in left ==> FileOk(c, left[k]))
      && Gather(left, StoredBy(c)) <= Gather(files, StoredBy(c))
      && Gather(LinkedFiles(files), DurableBy(c)) <= Gather(left, DurableBy(c))
      && (lost == files.Keys && cuts == map[] ==> Gather(left, DurableBy(c)) == Gather(LinkedFiles(files), DurableBy(c)))
  {
    hide Sound, FileOk, StoredBy, DurableBy, Cut, Gather;
    var left := LossOf(files, cuts, lost);
    forall k | k in left
      ensures FileOk(c, left[k])
      ensures StoredBy(c)(left[k]) <= StoredBy(c)(files[k])
      ensures DurableBy(c)(files[k]) <= DurableBy(c)(left[k])
      ensures cuts == map[] ==> DurableBy(c)(left[k]) == DurableBy(c)(files[k])
    {
      CutKeeps(c, files[k], CutAt(cuts, k));
      ViewOf(c, files[k]);
      ViewOf(c, left[k]);
    }
    GatherMonotone(left, files, StoredBy(c));
    GatherMonotone(LinkedFiles(files), left, DurableBy(c));
    if lost == files.Keys && cuts == map[] {
      GatherMonotone(left, LinkedFiles(files), DurableBy(c));
    }
  }

  lemma ActiveLossKeeps(c: Codec, s: State, loss: Loss)
    requires Sound(c) && (s.active.Some? ==> FileOk(c, s.active.value))
    ensures var was, left, linked := s.active, PowerLoss(s, loss).active, LinkedPart(s).active;
      && (left.Some? ==> was.Some? && FileOk(c, left.value) && StoredBy(c)(left.value) <= StoredBy(c)(was.value))
      && (linked.Some? ==> left.Some? && DurableBy(c)(linked.value) <= DurableBy(c)(left.value))
      && (linked.Some? && loss.keep == 0 ==> DurableBy(c)(left.value) == DurableBy(c)(linked.value))
      && (loss.loseActive && linked.None? ==> left.None?)
  {
    hide Sound, FileOk, StoredBy, DurableBy, Cut;
    if s.active.Some? {
      CutKeeps(c, s.active.value, loss.keep);
      ViewOf(c, s.active.value);
      ViewOf(c, Cut(s.active.value, loss.keep));
    }
  }

  /** Between what is linked and what was there. */
  lemma LossBounds(c: Codec, s: State, loss: Loss)
    requires Sound(c) && FilesOk(c, s)
    ensures FilesOk(c, PowerLoss(s, loss))
    ensures Across(PowerLoss(s, loss), StoredBy(c)) <= Across(s, StoredBy(c))
    ensures Across(LinkedPart(s), DurableBy(c)) <= Across(PowerLoss(s, loss), DurableBy(c))
    ensures loss == WorstLoss(s) ==> Across(PowerLoss(s, loss), DurableBy(c)) == Across(LinkedPart(s), DurableBy(c))
  {
    hide Sound, FileOk, StoredBy, DurableBy, Cut, LossOf, LinkedFiles, Gather;
    LossKeeps(c, s.sealed, loss.cuts, loss.lost);
    LossKeeps(c, s.quarantine, loss.carrierCuts, loss.lostCarriers);
    ActiveLossKeeps(c, s, loss);
  }

  /** A state survives every power loss exactly when it is secure. */
  lemma PowerLossExactly(c: Codec, s: State)
    requires Sound(c) && FilesOk(c, s)
    ensures (forall loss :: Accounted(c, PowerLoss(s, loss))) <==> Secure(c, s)
    ensures Secure(c, s) <==> Accounted(c, PowerLoss(s, WorstLoss(s)))
  {
    hide Sound, FilesOk, Across, DurableBy, LinkedPart;
    LossBounds(c, s, WorstLoss(s));
    if Secure(c, s) {
      forall loss ensures Accounted(c, PowerLoss(s, loss)) {
        LossBounds(c, s, loss);
      }
    }
  }

  lemma LinkedIsSecure(c: Codec, s: State)
    requires AllLinked(s) && Accounted(c, s)
    ensures Secure(c, s)
  {
    hide DurableBy;
    assert LinkedFiles(s.sealed) == s.sealed && LinkedFiles(s.quarantine) == s.quarantine;
  }

  lemma PowerLossKeeps(c: Codec, s: State, loss: Loss)
    requires Sound(c) && Inv(c, s)
    ensures Inv(c, PowerLoss(s, loss))
    ensures Secure(c, s) ==> Accounted(c, PowerLoss(s, loss))
  {
    hide Sound, FilesOk, Across, DurableBy, StoredBy, LinkedPart, DeliveredFirst, NothingInvented, Accounted, Secure;
    var s' := PowerLoss(s, loss);
    LossBounds(c, s, loss);
    PowerLossExactly(c, s);
    Survived(c, s, s');
    ClaimsKept(c, s, s');
  }

  lemma Survived(c: Codec, s: State, s': State)
    requires NothingInvented(c, s) && s'.history == s.history
    requires Across(s', StoredBy(c)) <= Across(s, StoredBy(c))
    ensures NothingInvented(c, s')
  {
    hide Across, StoredBy;
  }

  /* ---------- whole runs ---------- */

  lemma FileStepKeeps(c: Codec, l: Limits, s: State, e: Event)
    requires Sound(c) && Inv(c, s)
    ensures Inv(c, FileStep(c, l, s, e))
    ensures Accounted(c, s) && (e.PowerLossEvent? ==> Secure(c, s)) ==> Accounted(c, FileStep(c, l, s, e))
  {
    hide Sound, Inv, Accounted, Secure, Append, AppendIsolated, Seal, IngestPage, Acknowledge, ReleaseQuarantine, RecoverActive, PowerLoss;
    match e
    case AppendEvent(r, fault) => AppendKeeps(c, l, s, r, fault);
    case IsolatedEvent(hint, r, fault, removed, _) => IsolatedKeeps(c, l, s, hint, r, fault, removed);
    case SealEvent(generation, synced) => SealKeeps(c, s, generation, synced);
    case PageEvent(name, from, _) => PageKeeps(c, l, s, name, from);
    case AcknowledgeEvent(h, committed, _) => AcknowledgeKeeps(c, s, h, committed);
    case ReleaseEvent(q, _) => ReleaseKeeps(c, s, q);
    case RecoverSegmentEvent(name, _) =>
      if name in s.sealed { QuarantineSegmentKeeps(c, s, name); }
    case RecoverActiveEvent(sync) => RecoverActiveKeeps(c, s, sync);
    case KillEvent => KillKeeps(c, s);
    case PowerLossEvent(loss) => PowerLossKeeps(c, s, loss);
  }

  lemma StepKeeps(c: Codec, l: Limits, s: State, e: Event)
    requires Sound(c) && Inv(c, s)
    ensures Inv(c, Step(c, l, s, e))
    ensures Accounted(c, s) && (e.PowerLossEvent? ==> Secure(c, s)) ==> Accounted(c, Step(c, l, s, e))
  {
    hide Sound, Inv, Accounted, Secure, FileStep, SyncsMain, SyncsCarriers, LinkMain, LinkCarriers;
    FileStepKeeps(c, l, s, e);
    var t := FileStep(c, l, s, e);
    LinkCarriersKeeps(c, t);
    LinkMainKeeps(c, SyncCarriersIf(t, SyncsCarriers(c, l, s, e)));
  }

  /** Only what is known about directory entries differs. */
  predicate SameBut(f: File, g: File) { f.inode == g.inode && f.bytes == g.bytes && f.synced == g.synced }

  ghost predicate SameFilesBut<K>(a: map<K, File>, b: map<K, File>) {
    a.Keys == b.Keys && forall k :: k in a ==> SameBut(a[k], b[k])
  }

  lemma GatherSame<K>(c: Codec, a: map<K, File>, b: map<K, File>)
    requires SameFilesBut(a, b)
    ensures Gather(a, DurableBy(c)) == Gather(b, DurableBy(c)) && Gather(a, StoredBy(c)) == Gather(b, StoredBy(c))
  {
    hide WholeFrames;
    GatherMonotone(a, b, DurableBy(c));
    GatherMonotone(b, a, DurableBy(c));
    GatherMonotone(a, b, StoredBy(c));
    GatherMonotone(b, a, StoredBy(c));
  }

  /** A sync changes what is durable about the entries and nothing else. */
  lemma EntriesDoNotMatter(c: Codec, s: State, t: State)
    requires Sound(c) && Inv(c, s)
    requires t.handles == s.handles && t.history == s.history && SameFilesBut(s.sealed, t.sealed) && SameFilesBut(s.quarantine, t.quarantine)
    requires s.active.Some? == t.active.Some? && (s.active.Some? ==> SameBut(s.active.value, t.active.value))
    ensures Inv(c, t)
    ensures Accounted(c, s) ==> Accounted(c, t)
  {
    hide Sound, Scan, Gather, HandleOk, WholeFrames;
    GatherSame(c, s.sealed, t.sealed);
    GatherSame(c, s.quarantine, t.quarantine);
    if s.active.Some? {
      ViewOf(c, s.active.value);
      ViewOf(c, t.active.value);
    }
  }

  lemma LinkMainKeeps(c: Codec, s: State)
    requires Sound(c) && Inv(c, s)
    ensures Inv(c, LinkMain(s))
    ensures Accounted(c, s) ==> Accounted(c, LinkMain(s))
  {
    hide Sound, Inv, Accounted;
    EntriesDoNotMatter(c, s, LinkMain(s));
  }

  lemma LinkCarriersKeeps(c: Codec, s: State)
    requires Sound(c) && Inv(c, s)
    ensures Inv(c, LinkCarriers(s))
    ensures Accounted(c, s) ==> Accounted(c, LinkCarriers(s))
  {
    hide Sound, Inv, Accounted;
    EntriesDoNotMatter(c, s, LinkCarriers(s));
  }

  lemma KillKeeps(c: Codec, s: State)
    requires Sound(c) && Inv(c, s)
    ensures Inv(c, Kill(s))
    ensures Accounted(c, s) ==> Accounted(c, Kill(s))
  {}

  /** Whenever the power fails, every Ok record is durable under a durable entry, or released. */
  ghost predicate SecureAtLosses(c: Codec, l: Limits, s: State, es: seq<Event>)
    requires Sound(c)
    decreases |es|
  {
    es == [] || ((es[0].PowerLossEvent? ==> Secure(c, s)) && SecureAtLosses(c, l, Step(c, l, s, es[0]), es[1..]))
  }

  lemma {:induction false} RunKeeps(c: Codec, l: Limits, s: State, es: seq<Event>)
    requires Sound(c) && Inv(c, s)
    ensures Inv(c, Run(c, l, s, es))
    ensures Accounted(c, s) && SecureAtLosses(c, l, s, es) ==> Accounted(c, Run(c, l, s, es))
    decreases |es|
  {
    hide Sound, Inv, Accounted, Step, Secure;
    if es != [] {
      StepKeeps(c, l, s, es[0]);
      RunKeeps(c, l, Step(c, l, s, es[0]), es[1..]);
    }
  }

  lemma EmptyInv(c: Codec)
    requires Sound(c)
    ensures Inv(c, EMPTY) && Accounted(c, EMPTY)
  {}

  /**
   * Durability and delivery over every run from an empty spool: files are always complete frames
   * with at most one torn tail, nothing is invented, only delivered records are acknowledged, every Ok
   * record is durable or released if each power loss so far struck a secure state, and the next power
   * loss, whatever it takes, leaves that so exactly when the state is secure.
   */
  lemma EveryRunIsDurable(c: Codec, l: Limits, es: seq<Event>)
    requires Sound(c)
    ensures var s := Run(c, l, EMPTY, es);
      && FilesOk(c, s) && NothingInvented(c, s) && DeliveredFirst(c, s)
      && (SecureAtLosses(c, l, EMPTY, es) ==> Accounted(c, s))
      && ((forall loss :: Accounted(c, PowerLoss(s, loss))) <==> Secure(c, s))
  {
    hide Sound, Accounted, FilesOk, NothingInvented, DeliveredFirst, Run, SecureAtLosses, Secure, PowerLoss;
    EmptyInv(c);
    RunKeeps(c, l, EMPTY, es);
    PowerLossExactly(c, Run(c, l, EMPTY, es));
  }

  /* ---------- when every file is linked ---------- */

  /** The step leaves no newly created file and no move into quarantine behind whose entry is not durable. */
  ghost predicate EntriesComplete(c: Codec, l: Limits, s: State, e: Event)
    requires Sound(c)
  {
    match e
    case AppendEvent(r, fault) => s.active.None? && Writes(c, l, s, r, fault) ==> !Interrupted(fault)
    case IsolatedEvent(hint, r, fault, removed, cleanupSynced) =>
      !removed && WritesIsolated(c, l, s, hint, r, fault) ==> !Interrupted(fault) || cleanupSynced
    case _ => MoveSyncs(c, l, s, e) != Some(NotSynced)
  }

  /** Directory entries stay durable exactly over the steps that leave no creation and no move unfinished. */
  lemma StepLinked(c: Codec, l: Limits, s: State, e: Event)
    requires Sound(c) && AllLinked(s)
    ensures AllLinked(Step(c, l, s, e)) <==> EntriesComplete(c, l, s, e)
  {
    hide Sound, Scan, Pressured, Appendable, ValidHint, HintTaken, Healthy, ReadPage, Unreadable, Stored, Written, Step;
    match e
    case AppendEvent(r, fault) => AppendLinked(c, l, s, r, fault);
    case IsolatedEvent(hint, r, fault, removed, cleanupSynced) => IsolatedLinked(c, l, s, hint, r, fault, removed, cleanupSynced);
    case PageEvent(name, from, sync) => MoveLinked(c, l, s, e);
    case RecoverSegmentEvent(name, sync) => MoveLinked(c, l, s, e);
    case RecoverActiveEvent(sync) => MoveLinked(c, l, s, e);
    case PowerLossEvent(loss) => LossLinked(c, l, s, loss);
    case _ => OthersLinked(c, l, s, e);
  }

  lemma OthersLinked(c: Codec, l: Limits, s: State, e: Event)
    requires Sound(c) && AllLinked(s) && (e.SealEvent? || e.AcknowledgeEvent? || e.ReleaseEvent? || e.KillEvent?)
    ensures AllLinked(Step(c, l, s, e))
  {
    hide Sound, Stored;
  }

  lemma AppendLinked(c: Codec, l: Limits, s: State, r: SpoolRecord, fault: Fault)
    requires Sound(c) && AllLinked(s)
    ensures AllLinked(Step(c, l, s, AppendEvent(r, fault))) <==> EntriesComplete(c, l, s, AppendEvent(r, fault))
  {
    hide Sound, Pressured, Appendable;
  }

  lemma IsolatedLinked(c: Codec, l: Limits, s: State, hint: string, r: SpoolRecord, fault: Fault, removed: bool, cleanupSynced: bool)
    requires Sound(c) && AllLinked(s)
    ensures var e := IsolatedEvent(hint, r, fault, removed, cleanupSynced);
      AllLinked(Step(c, l, s, e)) <==> EntriesComplete(c, l, s, e)
  {
    hide Sound, Pressured, ValidHint;
    var e := IsolatedEvent(hint, r, fault, removed, cleanupSynced);
    if WritesIsolated(c, l, s, hint, r, fault) {
      var name, f := Isolated(hint, 0), Written(Created(s), c.frame(r), true, fault);
      assert name !in s.sealed;
      assert f.linked <==> !Interrupted(fault);
      var t, s' := FileStep(c, l, s, e), Step(c, l, s, e);
      if fault.NoFault? || !removed {
        assert t.sealed == s.sealed[name := f] && t.active == s.active && t.quarantine == s.quarantine;
        assert name in s'.sealed && (s'.sealed[name].linked <==> f.linked || SyncsMain(c, l, s, e));
      }
    }
  }

  /** The moved file is the only one that can be left without a durable new entry. */
  lemma MoveLinked(c: Codec, l: Limits, s: State, e: Event)
    requires Sound(c) && AllLinked(s) && (e.PageEvent? || e.RecoverSegmentEvent? || e.RecoverActiveEvent?)
    ensures AllLinked(Step(c, l, s, e)) <==> EntriesComplete(c, l, s, e)
  {
    hide Sound, FileStep, MoveSyncs, AllLinked, LinkMain, LinkCarriers;
    var t := FileStep(c, l, s, e);
    MoveShape(c, l, s, e);
    SyncedMove(t);
  }

  ghost predicate OneMoving(t: State) {
    && (t.active.Some? ==> t.active.value.linked) && (forall n :: n in t.sealed ==> t.sealed[n].linked)
    && exists q :: q in t.quarantine && t.quarantine[q].moving
  }

  lemma MoveShape(c: Codec, l: Limits, s: State, e: Event)
    requires Sound(c) && AllLinked(s) && (e.PageEvent? || e.RecoverSegmentEvent? || e.RecoverActiveEvent?)
    ensures MoveSyncs(c, l, s, e).Some? ==> OneMoving(FileStep(c, l, s, e))
    ensures MoveSyncs(c, l, s, e).None? ==> AllLinked(FileStep(c, l, s, e))
  {
    hide Sound, Scan, ReadPage, Unreadable, Healthy;
    var t := FileStep(c, l, s, e);
    var q := FreeCarrier(s.quarantine.Keys, 0);
    if MoveSyncs(c, l, s, e).Some? {
      assert q.value in t.quarantine && t.quarantine[q.value].moving;
    }
  }

  lemma SyncedMove(t: State)
    ensures OneMoving(t) ==> !AllLinked(t) && AllLinked(LinkCarriers(t)) && AllLinked(LinkMain(LinkCarriers(t)))
  {}

  lemma LossLinked(c: Codec, l: Limits, s: State, loss: Loss)
    requires Sound(c)
    ensures AllLinked(Step(c, l, s, PowerLossEvent(loss)))
  {
    hide Sound;
  }

  ghost predicate AllEntriesComplete(c: Codec, l: Limits, s: State, es: seq<Event>)
    requires Sound(c)
    decreases |es|
  {
    es == [] || (EntriesComplete(c, l, s, es[0]) && AllEntriesComplete(c, l, Step(c, l, s, es[0]), es[1..]))
  }

  lemma {:induction false} EntriesStaySecure(c: Codec, l: Limits, s: State, es: seq<Event>)
    requires Sound(c) && Inv(c, s) && Accounted(c, s) && AllLinked(s) && AllEntriesComplete(c, l, s, es)
    ensures SecureAtLosses(c, l, s, es)
    decreases |es|
  {
    hide Sound, Inv, Accounted, Secure, AllLinked, Step, EntriesComplete;
    LinkedIsSecure(c, s);
    if es != [] {
      StepLinked(c, l, s, es[0]);
      StepKeeps(c, l, s, es[0]);
      EntriesStaySecure(c, l, Step(c, l, s, es[0]), es[1..]);
    }
  }

  /** Power losses at any time included, no Ok record is lost on a run that leaves no creation and no move unfinished. */
  lemma DurableWhenEntriesComplete(c: Codec, l: Limits, es: seq<Event>)
    requires Sound(c) && AllEntriesComplete(c, l, EMPTY, es)
    ensures Accounted(c, Run(c, l, EMPTY, es))
  {
    hide Sound, Inv, Accounted, Run, AllEntriesComplete, SecureAtLosses;
    EmptyInv(c);
    EntriesStaySecure(c, l, EMPTY, es);
    EveryRunIsDurable(c, l, es);
  }

  /* ---------- no frame follows a torn one ---------- */

  /** A file is its whole frames followed by a tail in which no frame is complete. */
  lemma TornTailIsLast(c: Codec, f: File)
    requires Sound(c) && FileOk(c, f)
    ensures var whole := EncodeAll(c, WholeFrames(c, f.bytes));
      && whole <= f.bytes
      && (whole == f.bytes || c.parse(f.bytes[|whole|..]) == Incomplete)
      && (whole == f.bytes <==> Clean(c, f.bytes))
  {
    EncodeScanned(c, f.bytes);
    RemainderScan(c, f.bytes);
  }

  /** Whatever state the files are in, an append that writes anything writes directly behind whole frames. */
  lemma AppendsFollowWholeFrames(c: Codec, l: Limits, s: State, r: SpoolRecord, fault: Fault)
    requires Sound(c) && Append(c, l, s, r, fault) != s
    ensures var before := if s.active.Some? then s.active.value.bytes else [];
      var after := Append(c, l, s, r, fault).active;
      && before == EncodeAll(c, WholeFrames(c, before))
      && after.Some? && before <= after.value.bytes <= before + c.frame(r)
  {
    hide Sound, Scan, WholeFrames, Pressured;
    EmptyScan(c);
    CleanComplete(c, if s.active.Some? then s.active.value.bytes else []);
  }

  /* ---------- where durability stops ---------- */

  lemma GatherLinked<K>(c: Codec, files: map<K, File>, r: SpoolRecord)
    requires r !in Gather(files, DurableBy(c))
    ensures r !in Gather(LinkedFiles(files), DurableBy(c))
  {
    hide DurableBy;
    GatherMonotone(LinkedFiles(files), files, DurableBy(c));
  }

  /** An Ok record that is nowhere durable except in files without a durable entry is at risk. */
  lemma UnlinkedIsNotSecure(c: Codec, s: State, r: SpoolRecord)
    requires r in s.history.ok && r !in Released(s.history)
    requires s.active.Some? && s.active.value.linked ==> r !in DurableBy(c)(s.active.value)
    requires r !in Gather(LinkedFiles(s.sealed), DurableBy(c)) && r !in Gather(LinkedFiles(s.quarantine), DurableBy(c))
    ensures !Secure(c, s)
  {
    hide DurableBy;
    assert r !in Across(LinkedPart(s), DurableBy(c)) + Released(s.history);
  }

  /**
   * An active file whose directory entry was never synced keeps accepting records: the next append
   * returns Ok without syncing the directory, and a power loss can then remove the file.
   */
  lemma UnlinkedActiveLosesRecord(c: Codec, l: Limits, s: State, r: SpoolRecord)
    requires Sound(c) && FilesOk(c, s) && NothingInvented(c, s) && DeliveredFirst(c, s)
    requires s.active.Some? && !s.active.value.linked && AppendOk(c, l, s, r, NoFault)
    requires r !in Gather(s.sealed, DurableBy(c)) && r !in Gather(s.quarantine, DurableBy(c)) && r !in Released(s.history)
    ensures var s' := Append(c, l, s, r, NoFault);
      !Secure(c, s') && !Accounted(c, PowerLoss(s', WorstLoss(s')))
  {
    hide Sound, Inverts, Detects, Exact, Stable, Scan, DurableBy, Clean, WholeFrames, Pressured, Across, Accounted, Secure, FilesOk, NothingInvented, DeliveredFirst, PowerLoss, LinkedFiles, Gather;
    var s' := Append(c, l, s, r, NoFault);
    AppendKeeps(c, l, s, r, NoFault);
    GatherLinked(c, s.sealed, r);
    GatherLinked(c, s.quarantine, r);
    UnlinkedIsNotSecure(c, s', r);
    PowerLossExactly(c, s');
  }

  lemma TwoSteps(c: Codec, l: Limits, s: State, a: Event, b: Event)
    requires Sound(c)
    ensures Run(c, l, s, [a, b]) == Step(c, l, Step(c, l, s, a), b)
  {
    hide Step, Sound;
    assert [a, b][1..] == [b] && [b][1..] == [];
    assert Run(c, l, Step(c, l, s, a), [b]) == Run(c, l, Step(c, l, Step(c, l, s, a), b), []);
  }

  /** A first append whose write fails leaves an empty file without a durable entry. */
  lemma FailedCreation(c: Codec, l: Limits, r: SpoolRecord)
    requires Sound(c) && c.accepts(r) && |c.frame(r)| <= l.high && l.maxFiles > 0
    ensures var s := Step(c, l, EMPTY, AppendEvent(r, WriteFails(0)));
      && s == Append(c, l, EMPTY, r, WriteFails(0))
      && s.active == Some(File(0, [], 0, false, false)) && s.sealed == map[] && s.quarantine == map[] && s.history.acked == s.history.reconciled == multiset{}
      && AppendOk(c, l, s, r, NoFault)
      && Step(c, l, s, AppendEvent(r, NoFault)) == Append(c, l, s, r, NoFault)
  {
    hide Inverts, Detects, Exact, Stable, Scan, Clean, WholeFrames;
    FrameIsShort(c, r);
    assert Writes(c, l, EMPTY, r, WriteFails(0));
    assert [] + c.frame(r)[..0] == [];
    var s := Step(c, l, EMPTY, AppendEvent(r, WriteFails(0)));
    assert s.active == Some(File(0, [], 0, false, false));
    EmptyFile(c, s.active.value);
  }

  /** The shortest such run: a first append that fails before its directory sync, one that succeeds, a power loss. */
  lemma DurabilityCounterexample(c: Codec, l: Limits, r: SpoolRecord)
    requires Sound(c) && c.accepts(r) && |c.frame(r)| <= l.high && l.maxFiles > 0
    ensures var first, second := AppendEvent(r, WriteFails(0)), AppendEvent(r, NoFault);
      var s := Run(c, l, EMPTY, [first, second]);
      AppendOk(c, l, Step(c, l, EMPTY, first), r, NoFault) && !Secure(c, s) && !Accounted(c, PowerLoss(s, WorstLoss(s)))
  {
    hide Sound, Append, AppendOk, Step, DurableBy, Accounted, Secure, PowerLoss, FilesOk, NothingInvented, DeliveredFirst;
    var s := Step(c, l, EMPTY, AppendEvent(r, WriteFails(0)));
    TwoSteps(c, l, EMPTY, AppendEvent(r, WriteFails(0)), AppendEvent(r, NoFault));
    EmptyInv(c);
    AppendKeeps(c, l, EMPTY, r, WriteFails(0));
    FailedCreation(c, l, r);
    UnlinkedActiveLosesRecord(c, l, s, r);
  }

  /* ---------- a carrier lost on its way ---------- */

  lemma TornFile(c: Codec, r: SpoolRecord)
    requires Sound(c) && c.accepts(r) && |c.frame(r)| > 1
    ensures var b := c.frame(r) + c.frame(r)[..1];
      && Clean(c, c.frame(r)) && WholeFrames(c, c.frame(r)) == [r]
      && WholeFrames(c, b) == [r] && !Clean(c, b) && !Healthy(c, b)
  {
    hide Inverts, Detects, Exact, Stable, Scan;
    var f := c.frame(r);
    assert EncodeAll(c, [r]) == f + EncodeAll(c, []) == f by { assert [r][1..] == []; }
    CompleteEncoded(c, [r]);
    ScanTorn(c, [r], r, 1);
    CompleteAppend(c, f, r, 1);
  }

  /** An active file with one whole frame and the first byte of another. */
  function TornActive(c: Codec, r: SpoolRecord): File
    requires c.frame(r) != []
  {
    File(0, c.frame(r) + c.frame(r)[..1], |c.frame(r)|, true, false)
  }

  lemma TornAppends(c: Codec, l: Limits, r: SpoolRecord)
    requires Sound(c) && c.accepts(r) && |c.frame(r)| > 1 && 2 * |c.frame(r)| <= l.high && l.maxFiles > 0
    ensures var s := Step(c, l, Step(c, l, EMPTY, AppendEvent(r, NoFault)), AppendEvent(r, WriteFails(1)));
      && s.active == Some(TornActive(c, r)) && s.sealed == map[] && s.quarantine == map[]
      && s.history.ok == multiset{r} && Released(s.history) == multiset{}
  {
    hide Inverts, Detects, Exact, Stable, Scan, Clean, WholeFrames;
    FrameIsShort(c, r);
    var f := c.frame(r);
    TornFile(c, r);
    var s1 := Step(c, l, EMPTY, AppendEvent(r, NoFault));
    assert [] + f[..|f|] == f;
    assert Writes(c, l, EMPTY, r, NoFault);
    assert s1.active == Some(File(0, f, |f|, true, false)) && s1.sealed == map[] && s1.quarantine == map[];
    assert Writes(c, l, s1, r, WriteFails(1));
  }

  lemma TornSeal(c: Codec, l: Limits, s: State, generation: nat, f: File)
    requires Sound(c) && s.active == Some(f) && f.bytes != [] && f.linked && s.sealed == map[] && s.quarantine == map[]
    ensures var s' := Step(c, l, s, SealEvent(generation, true));
      s'.active.None? && s'.sealed == map[Segment(generation, 0) := f] && s'.quarantine == map[] && s'.history == s.history
  {
    hide Sound;
    assert FreeSegment({}, generation, 0) == Some(0);
  }

  lemma CarrierMoves(c: Codec, l: Limits, s: State, name: Name, f: File, sync: MoveSync)
    requires Sound(c) && s.active.None? && s.sealed == map[name := f] && s.quarantine == map[] && !Healthy(c, f.bytes)
    ensures var s' := Step(c, l, s, RecoverSegmentEvent(name, sync));
      && s'.active.None? && s'.sealed == map[] && s'.quarantine.Keys == {0} && s'.quarantine[0].bytes == f.bytes
      && s'.history == s.history
      && (sync.NotSynced? ==> s'.quarantine == map[0 := f.(moving := true)])
  {
    hide Sound, Healthy;
    assert FreeCarrier({}, 0) == Some(0);
  }

  /** The next append creates a file and syncs the main directory: the carrier's old entry is gone for good. */
  lemma CreationDropsCarrier(c: Codec, l: Limits, s: State, r: SpoolRecord, f: File)
    requires Sound(c) && c.accepts(r) && |c.frame(r)| <= l.high && l.maxFiles > 0
    requires s.active.None? && s.sealed == map[] && s.quarantine == map[0 := f] && f.moving
    ensures AppendOk(c, l, s, r, NoFault)
    ensures var s' := Step(c, l, s, AppendEvent(r, NoFault));
      && s'.active == Some(File(s.nextInode, c.frame(r), |c.frame(r)|, true, false))
      && s'.sealed == map[] && s'.quarantine == map[0 := f.(linked := false)]
      && s'.history.ok == s.history.ok + multiset{r} && Released(s'.history) == Released(s.history)
  {
    hide Sound, Clean;
    FrameIsShort(c, r);
    assert [] + c.frame(r)[..|c.frame(r)|] == c.frame(r);
    assert Writes(c, l, s, r, NoFault);
  }

  lemma OneFileLeft(c: Codec, s: State, inode: nat, r: SpoolRecord, f: File)
    requires Sound(c) && c.accepts(r) && |c.frame(r)| > 1
    requires s.active == Some(File(inode, c.frame(r), |c.frame(r)|, true, false))
    requires s.sealed == map[] && s.quarantine == map[0 := f] && !f.linked
    requires s.history.ok == multiset{r, r} && Released(s.history) == multiset{}
    ensures !Secure(c, s)
  {
    hide Sound, WholeFrames;
    TornFile(c, r);
    assert c.frame(r)[..|c.frame(r)|] == c.frame(r);
    assert LinkedFiles(s.sealed) == map[] && LinkedFiles(s.quarantine) == map[];
    assert Across(LinkedPart(s), DurableBy(c)) == multiset{r};
    assert multiset{r, r}[r] == 2;
  }

  /** Append, torn append, seal, an unsynced move into quarantine, and an append that creates the next active file. */
  function HalfMoved(r: SpoolRecord, generation: nat): seq<Event> {
    [AppendEvent(r, NoFault), AppendEvent(r, WriteFails(1)), SealEvent(generation, true),
     RecoverSegmentEvent(Segment(generation, 0), NotSynced), AppendEvent(r, NoFault)]
  }

  /** A second way to lose an Ok record, with every file creation completed: the carrier goes in the next power loss. */
  lemma HalfMovedCarrierLosesRecord(c: Codec, l: Limits, r: SpoolRecord, generation: nat)
    requires Sound(c) && c.accepts(r) && |c.frame(r)| > 1 && 2 * |c.frame(r)| <= l.high && l.maxFiles > 0
    ensures var s := Run(c, l, EMPTY, HalfMoved(r, generation));
      s.history.ok == multiset{r, r} && !Secure(c, s) && !Accounted(c, PowerLoss(s, WorstLoss(s)))
  {
    hide Sound, Step, Secure, Accounted, PowerLoss, FilesOk, NothingInvented, DeliveredFirst, Healthy, Clean, WholeFrames;
    var es := HalfMoved(r, generation);
    var s2 := Step(c, l, Step(c, l, EMPTY, es[0]), es[1]);
    var f := TornActive(c, r);
    TornAppends(c, l, r);
    TornFile(c, r);
    TornSeal(c, l, s2, generation, f);
    var s3 := Step(c, l, s2, es[2]);
    CarrierMoves(c, l, s3, Segment(generation, 0), f, NotSynced);
    var s4 := Step(c, l, s3, es[3]);
    CreationDropsCarrier(c, l, s4, r, f.(moving := true));
    var s5 := Step(c, l, s4, es[4]);
    FiveSteps(c, l, EMPTY, es[0], es[1], es[2], es[3], es[4]);
    OneFileLeft(c, s5, s4.nextInode, r, f.(moving := true, linked := false));
    EveryRunIsDurable(c, l, es);
    PowerLossExactly(c, s5);
  }

  lemma FiveSteps(c: Codec, l: Limits, s: State, a: Event, b: Event, d: Event, e: Event, f: Event)
    requires Sound(c)
    ensures Run(c, l, s, [a, b, d, e, f])
         == Step(c, l, Step(c, l, Step(c, l, Step(c, l, Step(c, l, s, a), b), d), e), f)
  {
    hide Step, Sound;
    var s1 := Step(c, l, s, a);
    var s2 := Step(c, l, s1, b);
    var s3 := Step(c, l, s2, d);
    assert [a, b, d, e, f][1..] == [b, d, e, f] && [b, d, e, f][1..] == [d, e, f] && [d, e, f][1..] == [e, f];
    TwoSteps(c, l, s3, e, f);
    assert Run(c, l, s2, [d, e, f]) == Run(c, l, s3, [e, f]);
    assert Run(c, l, s1, [b, d, e, f]) == Run(c, l, s2, [d, e, f]);
  }

  lemma FrameIsShort(c: Codec, r: SpoolRecord)
    requires Sound(c) && c.accepts(r)
    ensures |c.frame(r)| <= MAX_FRAME
  {}

  /* ---------- quota ---------- */

  /** The saturating admission test bounds the true sum exactly when the limit leaves headroom. */
  lemma AdmissionBoundsUsage(high: u64)
    ensures (forall usage: u64, n: u64 :: SaturatingAdd(usage, n) <= high ==> usage + n <= high) <==> high < U64_MAX
  {
    if high == U64_MAX {
      var usage: u64, n: u64 := U64_MAX, 1;
      assert SaturatingAdd(usage, n) <= high && usage + n > high;
    }
  }

  lemma SubsetSize<T>(a: set<T>, b: set<T>)
    requires a <= b
    ensures |a| <= |b|
  {
    assert b == a + (b - a);
  }

  lemma AppendQuota(c: Codec, l: Limits, s: State, r: SpoolRecord, fault: Fault)
    requires Sound(c) && l.high < U64_MAX && WithinQuota(l, s)
    ensures WithinQuota(l, Append(c, l, s, r, fault))
  {
    hide Sound, Clean;
  }

  lemma IsolatedQuota(c: Codec, l: Limits, s: State, hint: string, r: SpoolRecord, fault: Fault, removed: bool)
    requires Sound(c) && l.high < U64_MAX && WithinQuota(l, s)
    ensures WithinQuota(l, AppendIsolated(c, l, s, hint, r, fault, removed))
  {
    hide Sound, Clean;
    if WritesIsolated(c, l, s, hint, r, fault) {
      TotalAdd(s.sealed, LENGTH, Isolated(hint, 0), Written(Created(s), c.frame(r), true, fault));
    }
  }

  lemma PowerLossQuota(l: Limits, s: State, loss: Loss)
    requires WithinQuota(l, s)
    ensures WithinQuota(l, PowerLoss(s, loss))
  {
    var s' := PowerLoss(s, loss);
    SubsetSize(s'.sealed.Keys, s.sealed.Keys);
    assert |s'.sealed.Keys| == |s'.sealed| && |s.sealed.Keys| == |s.sealed|;
    TotalMonotone(s'.sealed, s.sealed, LENGTH);
  }

  lemma AcknowledgeQuota(c: Codec, l: Limits, s: State, h: Handle, committed: nat)
    requires Sound(c) && WithinQuota(l, s)
    ensures WithinQuota(l, Acknowledge(c, s, h, committed))
  {
    hide Sound;
    if h.name in s.sealed {
      RemoveQuota(l, s, h.name);
    }
  }

  lemma RecoverActiveQuota(c: Codec, l: Limits, s: State, sync: MoveSync)
    requires Sound(c) && WithinQuota(l, s)
    ensures WithinQuota(l, RecoverActive(c, s, sync))
  {
    hide Sound, Scan;
  }

  lemma FileStepQuota(c: Codec, l: Limits, s: State, e: Event)
    requires Sound(c) && l.high < U64_MAX && WithinQuota(l, s)
    ensures WithinQuota(l, FileStep(c, l, s, e))
  {
    hide Sound, Append, AppendIsolated, Seal, Acknowledge, RecoverActive, PowerLoss, Healthy, ReadPage, Unreadable, QuarantineSegment;
    match e
    case AppendEvent(r, fault) => AppendQuota(c, l, s, r, fault);
    case IsolatedEvent(hint, r, fault, removed, _) => IsolatedQuota(c, l, s, hint, r, fault, removed);
    case SealEvent(generation, synced) => SealQuota(l, s, generation, synced);
    case PageEvent(name, from, _) => if name in s.sealed { QuarantineQuota(l, s, name); }
    case AcknowledgeEvent(h, committed, _) => AcknowledgeQuota(c, l, s, h, committed);
    case ReleaseEvent(q, _) =>
    case RecoverSegmentEvent(name, _) => if name in s.sealed { QuarantineQuota(l, s, name); }
    case RecoverActiveEvent(sync) => RecoverActiveQuota(c, l, s, sync);
    case KillEvent =>
    case PowerLossEvent(loss) => PowerLossQuota(l, s, loss);
  }

  lemma StepQuota(c: Codec, l: Limits, s: State, e: Event)
    requires Sound(c) && l.high < U64_MAX && WithinQuota(l, s)
    ensures WithinQuota(l, Step(c, l, s, e))
  {
    hide Sound, FileStep, SyncsMain, SyncsCarriers;
    FileStepQuota(c, l, s, e);
    var t := FileStep(c, l, s, e);
    SyncQuota(l, SyncCarriersIf(t, SyncsCarriers(c, l, s, e)));
  }

  lemma SyncQuota(l: Limits, s: State)
    requires WithinQuota(l, s)
    ensures WithinQuota(l, LinkMain(s))
  {
    var linked := LinkMain(s);
    TotalMonotone(linked.sealed, s.sealed, LENGTH);
    assert linked.sealed.Keys == s.sealed.Keys;
    assert |linked.sealed| == |linked.sealed.Keys| && |s.sealed| == |s.sealed.Keys|;
  }

  lemma SealQuota(l: Limits, s: State, generation: nat, synced: bool)
    requires WithinQuota(l, s)
    ensures WithinQuota(l, Seal(s, generation, synced))
  {
    var i := FreeSegment(s.sealed.Keys, generation, 0);
    if s.active.Some? && i.Some? {
      var f := s.active.value;
      TotalAdd(s.sealed, LENGTH, Segment(generation, i.value), f.(linked := f.linked || synced));
    }
  }

  lemma RemoveQuota(l: Limits, s: State, name: Name)
    requires WithinQuota(l, s) && name in s.sealed
    ensures |s.sealed - {name}| <= |s.sealed|
    ensures Total(s.sealed - {name}, LENGTH) <= Total(s.sealed, LENGTH)
  {
    TotalSplit(s.sealed, LENGTH, name);
    SubsetSize((s.sealed - {name}).Keys, s.sealed.Keys);
    assert |(s.sealed - {name}).Keys| == |s.sealed - {name}| && |s.sealed.Keys| == |s.sealed|;
  }

  lemma QuarantineQuota(l: Limits, s: State, name: Name)
    requires WithinQuota(l, s) && name in s.sealed
    ensures WithinQuota(l, QuarantineSegment(s, name))
  {
    RemoveQuota(l, s, name);
  }

  /** On every run the main directory stays within both limits, torn writes and crashes included. */
  lemma {:induction false} RunQuota(c: Codec, l: Limits, s: State, es: seq<Event>)
    requires Sound(c) && l.high < U64_MAX && WithinQuota(l, s)
    ensures WithinQuota(l, Run(c, l, s, es))
    decreases |es|
  {
    hide Sound, Step, WithinQuota;
    if es != [] {
      StepQuota(c, l, s, es[0]);
      RunQuota(c, l, Step(c, l, s, es[0]), es[1..]);
    }
  }

  /** So the reader's size test never rejects a segment the spool wrote, unless it is empty. */
  lemma ReaderNeverRejectsSize(c: Codec, l: Limits, es: seq<Event>, name: Name)
    requires Sound(c) && l.high < U64_MAX
    ensures var s := Run(c, l, EMPTY, es);
      name in s.sealed && name.Segment? ==> (Readable(l, s, name, None) <==> s.sealed[name].bytes != [])
  {
    hide Sound, Run;
    RunQuota(c, l, EMPTY, es);
    var s := Run(c, l, EMPTY, es);
    if name in s.sealed {
      TotalSplit(s.sealed, LENGTH, name);
    }
  }
}
