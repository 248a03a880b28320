/**
 * The durable spool as a state machine over its files: one function per operation, with the
 * environment's choices (I/O faults, where a write is torn, what a power loss destroys) as arguments.
 */
module SpoolState {
  import opened Prelude
  import opened Record
  import opened Scanner
  import opened Validator
  import opened Paging

  datatype Limits = Limits(high: u64, low: u64, maxFiles: nat)

  /**
   * `synced` leading bytes survive a power loss; `linked` says that some directory entry does.  A file that was
   * renamed into quarantine is `moving` until the quarantine directory is synced: the entry that survives is the
   * old one.
   */
  datatype File = File(inode: nat, bytes: Bytes, synced: nat, linked: bool, moving: bool)

  datatype Name = Segment(generation: nat, index: nat) | Isolated(hint: string, index: nat)

  /** A claimed page (`SealedSegment`); inode and content stand for the identity it was read under. */
  datatype Handle = Handle(name: Name, inode: nat, content: Bytes, page: Page)

  /** History: records whose append returned Ok, every record ever written in part or whole,
      records released by acknowledgement or by quarantine reconciliation, records handed to a reader. */
  datatype History = History(
    ok: multiset<SpoolRecord>, attempted: multiset<SpoolRecord>,
    acked: multiset<SpoolRecord>, reconciled: multiset<SpoolRecord>, delivered: set<SpoolRecord>)

  datatype State = State(
    active: Option<File>, sealed: map<Name, File>, quarantine: map<nat, File>,
    handles: set<Handle>, nextInode: nat, watermark: nat, history: History)

  const EMPTY: State :=
    State(None, map[], map[], {}, 0, 0, History(multiset{}, multiset{}, multiset{}, multiset{}, {}))

  /* ---------- directory usage ---------- */

  const LENGTH: File -> nat := (f: File) => |f.bytes|

  function ActiveLength(active: Option<File>): nat {
    match active case None => 0 case Some(f) => |f.bytes|
  }

  function MainFiles(s: State): nat { |s.sealed| + if s.active.Some? then 1 else 0 }

  ghost function MainBytes(s: State): nat { Total(s.sealed, LENGTH) + ActiveLength(s.active) }

  /** `main_usage().bytes`, a saturating sum. */
  ghost function UsageBytes(s: State): u64 { Min(MainBytes(s), U64_MAX) }

  /** The admission test shared by both append operations. */
  ghost predicate Pressured(l: Limits, s: State, needsFile: bool, n: u64) {
    (needsFile && MainFiles(s) >= l.maxFiles) || SaturatingAdd(UsageBytes(s), n) > l.high
  }

  /* ---------- appending ---------- */

  /** Where the environment interrupts an append; `written` bytes of the frame reached the file. */
  datatype Fault =
    | NoFault | LookupFails | OpenFails | WriteFails(written: nat) | SyncFails | DirectorySyncFails | MetadataFails

  ghost predicate Appendable(c: Codec, l: Limits, f: File)
    requires Sound(c)
  {
    |f.bytes| <= l.high && Clean(c, f.bytes)
  }

  /** The append reaches its `write_all`. */
  ghost predicate Writes(c: Codec, l: Limits, s: State, r: SpoolRecord, fault: Fault)
    requires Sound(c)
  {
    && !fault.LookupFails? && !fault.OpenFails? && c.accepts(r)
    && !Pressured(l, s, s.active.None?, |c.frame(r)|)
    && (s.active.Some? ==> Appendable(c, l, s.active.value))
  }

  ghost predicate AppendOk(c: Codec, l: Limits, s: State, r: SpoolRecord, fault: Fault)
    requires Sound(c)
  {
    Writes(c, l, s, r, fault) && (fault.NoFault? || (fault.DirectorySyncFails? && s.active.Some?))
  }

  /** The file after `write_all` and the syncs that follow it. */
  function Written(f: File, frame: Bytes, created: bool, fault: Fault): File {
    var n := if fault.WriteFails? then Min(fault.written, |frame|) else |frame|;
    var bytes := f.bytes + frame[..n];
    File(f.inode, bytes,
         if fault.WriteFails? || fault.SyncFails? then f.synced else |bytes|,
         f.linked || (created && (fault.NoFault? || fault.MetadataFails?)), f.moving)
  }

  function Created(s: State): File { File(s.nextInode, [], 0, false, false) }

  ghost function Append(c: Codec, l: Limits, s: State, r: SpoolRecord, fault: Fault): State
    requires Sound(c)
  {
    if !Writes(c, l, s, r, fault) then s else
    var created := s.active.None?;
    var f := Written(if created then Created(s) else s.active.value, c.frame(r), created, fault);
    var h := s.history;
    s.(active := Some(f),
       nextInode := if created then s.nextInode + 1 else s.nextInode,
       watermark := if AppendOk(c, l, s, r, fault) then |f.bytes| else s.watermark,
       history := h.(attempted := h.attempted + multiset{r},
                     ok := if AppendOk(c, l, s, r, fault) then h.ok + multiset{r} else h.ok))
  }

  /** `routing_hint` is 1 to 96 ASCII letters, digits and dashes. */
  predicate ValidHint(hint: string) {
    0 < |hint| <= 96 && forall i :: 0 <= i < |hint| ==>
      ('a' <= hint[i] <= 'z' || 'A' <= hint[i] <= 'Z' || '0' <= hint[i] <= '9' || hint[i] == '-')
  }

  /** Some file name already starts with the routing prefix. */
  predicate HintTaken(sealed: set<Name>, hint: string) {
    exists n :: n in sealed && n.Isolated? && (n.hint == hint || hint + "-" <= n.hint)
  }

  /** The publication gets as far as creating its file. */
  ghost predicate AdmitsIsolated(c: Codec, l: Limits, s: State, hint: string, r: SpoolRecord, fault: Fault)
    requires Sound(c)
  {
    && !fault.LookupFails? && ValidHint(hint) && c.accepts(r)
    && !HintTaken(s.sealed.Keys, hint) && !Pressured(l, s, true, |c.frame(r)|)
  }

  ghost predicate WritesIsolated(c: Codec, l: Limits, s: State, hint: string, r: SpoolRecord, fault: Fault)
    requires Sound(c)
  {
    AdmitsIsolated(c, l, s, hint, r, fault) && !fault.OpenFails?
  }

  /** Publication of one frame as its own sealed file; a failed one is removed if `removed`. */
  ghost function AppendIsolated(c: Codec, l: Limits, s: State, hint: string, r: SpoolRecord, fault: Fault, removed: bool): State
    requires Sound(c)
  {
    if !WritesIsolated(c, l, s, hint, r, fault) then s else
    var name := Isolated(hint, 0);
    var f := Written(Created(s), c.frame(r), true, fault);
    var h := s.history;
    if fault.NoFault? then
      s.(sealed := s.sealed[name := f], nextInode := s.nextInode + 1,
         handles := s.handles + {Handle(name, f.inode, f.bytes, Page(0, [SealedFrame(r, 0, |f.bytes|)], |f.bytes|))},
         history := h.(attempted := h.attempted + multiset{r}, ok := h.ok + multiset{r}, delivered := h.delivered + {r}))
    else if removed then
      s.(nextInode := s.nextInode + 1)
    else
      s.(sealed := s.sealed[name := f], nextInode := s.nextInode + 1,
         history := h.(attempted := h.attempted + multiset{r}))
  }

  /* ---------- sealing and quarantine ---------- */

  const UNIQUE_LIMIT: nat := 1024

  /** `unique_path`: the first free index at or after `i`. */
  function FreeSegment(taken: set<Name>, generation: nat, i: nat): (r: Option<nat>)
    ensures r.Some? ==> i <= r.value < UNIQUE_LIMIT && Segment(generation, r.value) !in taken
    ensures r.Some? ==> forall k :: i <= k < r.value ==> Segment(generation, k) in taken
    ensures r.None? ==> forall k :: i <= k < UNIQUE_LIMIT ==> Segment(generation, k) in taken
    decreases UNIQUE_LIMIT - i
  {
    if i >= UNIQUE_LIMIT then None
    else if Segment(generation, i) !in taken then Some(i)
    else FreeSegment(taken, generation, i + 1)
  }

  function FreeCarrier(taken: set<nat>, i: nat): (r: Option<nat>)
    ensures r.Some? ==> i <= r.value < UNIQUE_LIMIT && r.value !in taken && forall k :: i <= k < r.value ==> k in taken
    ensures r.None? ==> forall k :: i <= k < UNIQUE_LIMIT ==> k in taken
    decreases UNIQUE_LIMIT - i
  {
    if i >= UNIQUE_LIMIT then None
    else if i !in taken then Some(i)
    else FreeCarrier(taken, i + 1)
  }

  function Seal(s: State, generation: nat, directorySynced: bool): State {
    if s.active.None? || |s.active.value.bytes| == 0 then s else
    match FreeSegment(s.sealed.Keys, generation, 0)
    case None => s
    case Some(i) =>
      var f := s.active.value;
      s.(active := None,
         sealed := s.sealed[Segment(generation, i) := f.(linked := f.linked || directorySynced)],
         watermark := if directorySynced then 0 else s.watermark)
  }

  /** How far the syncs behind a move into quarantine get: first the quarantine directory, then the main one. */
  datatype MoveSync = NotSynced | CarriersSynced | BothSynced

  /** Move a sealed segment to the quarantine directory, bytes untouched. */
  function QuarantineSegment(s: State, name: Name): State
    requires name in s.sealed
  {
    match FreeCarrier(s.quarantine.Keys, 0)
    case None => s
    case Some(q) =>
      s.(sealed := s.sealed - {name}, quarantine := s.quarantine[q := s.sealed[name].(moving := true)])
  }

  function QuarantineActive(s: State, sync: MoveSync): State
    requires s.active.Some?
  {
    match FreeCarrier(s.quarantine.Keys, 0)
    case None => s
    case Some(q) =>
      s.(active := None, watermark := if sync.BothSynced? then 0 else s.watermark,
         quarantine := s.quarantine[q := s.active.value.(moving := true)])
  }

  /* ---------- reading and acknowledging ---------- */

  /** A cursor resumes only the same file, at the end of a page that did not finish it. */
  predicate Resumes(s: State, name: Name, from: Option<Handle>) {
    from.Some? ==>
      && from.value in s.handles && from.value.name == name
      && from.value.page.end < |from.value.content|
      && name in s.sealed && s.sealed[name].inode == from.value.inode && s.sealed[name].bytes == from.value.content
  }

  function StartOf(from: Option<Handle>): nat {
    match from case None => 0 case Some(h) => h.page.end
  }

  ghost predicate Readable(l: Limits, s: State, name: Name, from: Option<Handle>) {
    && name in s.sealed && name.Segment? && Resumes(s, name, from)
    && 0 < |s.sealed[name].bytes| <= l.high && StartOf(from) <= |s.sealed[name].bytes|
  }

  /** `ingest_page` on one claimed segment: a page, or quarantine of the whole carrier. */
  ghost function IngestPage(c: Codec, l: Limits, s: State, name: Name, from: Option<Handle>): State
    requires Sound(c)
  {
    if !Readable(l, s, name, from) then s else
    var f := s.sealed[name];
    if Unreadable(c, f.bytes, StartOf(from)) then QuarantineSegment(s, name) else
    match ReadPage(c, f.bytes, StartOf(from))
    case Err(_) => s
    case Ok(page) =>
      s.(handles := s.handles + {Handle(name, f.inode, f.bytes, page)},
         history := s.history.(delivered := s.history.delivered + PageRecords(page)))
  }

  function PageRecords(page: Page): set<SpoolRecord> {
    set i | 0 <= i < |page.frames| :: page.frames[i].record
  }

  predicate CanAcknowledge(s: State, h: Handle, committed: nat) {
    && h in s.handles && Acknowledgeable(h.page, |h.content|, committed)
    && h.name in s.sealed && s.sealed[h.name].inode == h.inode && s.sealed[h.name].bytes == h.content
  }

  ghost function Acknowledge(c: Codec, s: State, h: Handle, committed: nat): State {
    if !CanAcknowledge(s, h, committed) then s else
    s.(sealed := s.sealed - {h.name},
       history := s.history.(acked := s.history.acked + Stored(c, s.sealed[h.name])))
  }

  ghost function ReleaseQuarantine(c: Codec, s: State, q: nat): State {
    if q !in s.quarantine then s else
    s.(quarantine := s.quarantine - {q},
       history := s.history.(reconciled := s.history.reconciled + Stored(c, s.quarantine[q])))
  }

  /* ---------- recovery ---------- */

  /** A sealed file `recover` leaves in place. */
  ghost predicate Healthy(c: Codec, s: Bytes)
    requires Sound(c)
  {
    Clean(c, s) && Scan(c, s).value.frames != []
  }

  ghost function RecoverSegment(c: Codec, s: State, name: Name): State
    requires Sound(c)
  {
    if name !in s.sealed || Healthy(c, s.sealed[name].bytes) then s else QuarantineSegment(s, name)
  }

  /** A torn tail is cut off; when the sync that follows fails, no more of the file is durable than before. */
  ghost function RecoverActive(c: Codec, s: State, sync: MoveSync): State
    requires Sound(c)
  {
    if s.active.None? then s else
    var f := s.active.value;
    match Scan(c, f.bytes)
    case Err(_) => QuarantineActive(s, sync)
    case Ok(scan) =>
      if scan.incompleteTail && scan.completeLength <= |f.bytes| then
        var n := scan.completeLength;
        s.(active := Some(f.(bytes := f.bytes[..n], synced := if sync.NotSynced? then Min(f.synced, n) else n)),
           watermark := if sync.NotSynced? then s.watermark else n)
      else s.(watermark := scan.completeLength)
  }

  /* ---------- crashes ---------- */

  /** What a power loss leaves of a file: at least its synced bytes, and all that is left is on disk. */
  function Cut(f: File, k: nat): File {
    var n := Min(if k < f.synced then f.synced else k, |f.bytes|);
    File(f.inode, f.bytes[..n], n, true, false)
  }

  function CutAt<K(==)>(cuts: map<K, nat>, k: K): nat { if k in cuts then cuts[k] else 0 }

  /** How much of each file a power loss keeps, and which files whose entry was never synced it removes. */
  datatype Loss = Loss(
    keep: nat, cuts: map<Name, nat>, carrierCuts: map<nat, nat>,
    loseActive: bool, lost: set<Name>, lostCarriers: set<nat>)

  function LossOf<K(==)>(files: map<K, File>, cuts: map<K, nat>, lost: set<K>): map<K, File> {
    map k | k in files && !(k in lost && !files[k].linked) :: Cut(files[k], CutAt(cuts, k))
  }

  function PowerLoss(s: State, loss: Loss): State {
    s.(active := match s.active
                 case None => None
                 case Some(f) => if loss.loseActive && !f.linked then None else Some(Cut(f, loss.keep)),
       sealed := LossOf(s.sealed, loss.cuts, loss.lost),
       quarantine := LossOf(s.quarantine, loss.carrierCuts, loss.lostCarriers),
       handles := {}, watermark := 0)
  }

  function Kill(s: State): State { s.(handles := {}, watermark := 0) }

  /* ---------- what the files hold ---------- */

  /** The records of the complete frames at the front of a byte string. */
  ghost function WholeFrames(c: Codec, s: Bytes): seq<SpoolRecord> {
    if Sound(c) && Scan(c, s).Ok? then Records(Scan(c, s).value.frames) else []
  }

  ghost function Stored(c: Codec, f: File): multiset<SpoolRecord> { multiset(WholeFrames(c, f.bytes)) }

  /** The records that are sure to survive a power loss of a linked file. */
  ghost function Durable(c: Codec, f: File): multiset<SpoolRecord> {
    if f.synced <= |f.bytes| then multiset(WholeFrames(c, f.bytes[..f.synced])) else multiset{}
  }

  ghost function StoredBy(c: Codec): File -> multiset<SpoolRecord> { (f: File) => Stored(c, f) }

  ghost function DurableBy(c: Codec): File -> multiset<SpoolRecord> { (f: File) => Durable(c, f) }

  ghost function Across(s: State, view: File -> multiset<SpoolRecord>): multiset<SpoolRecord> {
    (if s.active.Some? then view(s.active.value) else multiset{}) + Gather(s.sealed, view) + Gather(s.quarantine, view)
  }

  /** The CAS references of a run of records. */
  function RefsOf(rs: seq<SpoolRecord>): set<Bytes> {
    if rs == [] then {} else
      var n := |rs| - 1;
      RefsOf(rs[..n]) + if DecodeValidated(rs[n]).Some? then {DecodeValidated(rs[n]).value.casRef} else {}
  }

  ghost function FileRefs(c: Codec, b: Bytes): set<Bytes> { RefsOf(WholeFrames(c, b)) }

  /** The references held by the main directory. */
  ghost function MainRefs(c: Codec, s: State): set<Bytes> {
    (if s.active.Some? then FileRefs(c, s.active.value.bytes) else {})
      + set n, d | n in s.sealed && d in FileRefs(c, s.sealed[n].bytes) :: d
  }

  function Released(h: History): multiset<SpoolRecord> { h.acked + h.reconciled }

  /* ---------- syncing a directory ---------- */

  /** The append stopped after creating its file and before the directory was synced. */
  predicate Interrupted(fault: Fault) { fault.WriteFails? || fault.SyncFails? || fault.DirectorySyncFails? }

  function Linked(f: File): File { f.(linked := true) }

  /** A main-directory sync takes away the old entry of a file whose new one is not durable yet. */
  function Departed(f: File): File { f.(linked := f.linked && !f.moving) }

  function Arrived(f: File): File { f.(linked := true, moving := false) }

  /** A sync of the main directory makes all its entries durable, and all removals from it. */
  function LinkMain(s: State): State {
    s.(active := match s.active case None => None case Some(f) => Some(Linked(f)),
       sealed := map n | n in s.sealed :: Linked(s.sealed[n]),
       quarantine := map q | q in s.quarantine :: Departed(s.quarantine[q]))
  }

  /** A sync of the quarantine directory makes all its entries durable. */
  function LinkCarriers(s: State): State {
    s.(quarantine := map q | q in s.quarantine :: Arrived(s.quarantine[q]))
  }

  /* ---------- runs ---------- */

  datatype Event =
    | AppendEvent(record: SpoolRecord, fault: Fault)
    | IsolatedEvent(hint: string, record: SpoolRecord, fault: Fault, removed: bool, cleanupSynced: bool)
    | SealEvent(generation: nat, directorySynced: bool)
    | PageEvent(name: Name, from: Option<Handle>, sync: MoveSync)
    | AcknowledgeEvent(handle: Handle, committed: nat, synced: bool)
    | ReleaseEvent(carrier: nat, synced: bool)
    | RecoverSegmentEvent(name: Name, sync: MoveSync)
    | RecoverActiveEvent(sync: MoveSync)
    | KillEvent
    | PowerLossEvent(loss: Loss)

  /** What the event does to the files. */
  ghost function FileStep(c: Codec, l: Limits, s: State, e: Event): State
    requires Sound(c)
  {
    match e
    case AppendEvent(r, fault) => Append(c, l, s, r, fault)
    case IsolatedEvent(hint, r, fault, removed, _) => AppendIsolated(c, l, s, hint, r, fault, removed)
    case SealEvent(generation, synced) => Seal(s, generation, synced)
    case PageEvent(name, from, _) => IngestPage(c, l, s, name, from)
    case AcknowledgeEvent(h, committed, _) => Acknowledge(c, s, h, committed)
    case ReleaseEvent(q, _) => ReleaseQuarantine(c, s, q)
    case RecoverSegmentEvent(name, _) => RecoverSegment(c, s, name)
    case RecoverActiveEvent(sync) => RecoverActive(c, s, sync)
    case KillEvent => Kill(s)
    case PowerLossEvent(loss) => PowerLoss(s, loss)
  }

  predicate Seals(s: State, generation: nat) {
    s.active.Some? && |s.active.value.bytes| != 0 && FreeSegment(s.sealed.Keys, generation, 0).Some?
  }

  predicate HasCarrier(s: State) { FreeCarrier(s.quarantine.Keys, 0).Some? }

  /** The syncs of an event that moves a file into quarantine; `None` when it moves none. */
  ghost function MoveSyncs(c: Codec, l: Limits, s: State, e: Event): Option<MoveSync>
    requires Sound(c)
  {
    match e
    case PageEvent(name, from, sync) =>
      if Readable(l, s, name, from) && Unreadable(c, s.sealed[name].bytes, StartOf(from)) && HasCarrier(s) then Some(sync) else None
    case RecoverSegmentEvent(name, sync) =>
      if name in s.sealed && !Healthy(c, s.sealed[name].bytes) && HasCarrier(s) then Some(sync) else None
    case RecoverActiveEvent(sync) =>
      if s.active.Some? && Scan(c, s.active.value.bytes).Err? && HasCarrier(s) then Some(sync) else None
    case _ => None
  }

  /** The event syncs the quarantine directory and the sync succeeds. */
  ghost predicate SyncsCarriers(c: Codec, l: Limits, s: State, e: Event)
    requires Sound(c)
  {
    match e
    case ReleaseEvent(q, synced) => synced && q in s.quarantine
    case _ => MoveSyncs(c, l, s, e).Some? && !MoveSyncs(c, l, s, e).value.NotSynced?
  }

  /** The event syncs the main directory and the sync succeeds. */
  ghost predicate SyncsMain(c: Codec, l: Limits, s: State, e: Event)
    requires Sound(c)
  {
    match e
    case AppendEvent(r, fault) => s.active.None? && Writes(c, l, s, r, fault) && !Interrupted(fault)
    case IsolatedEvent(hint, r, fault, removed, cleanupSynced) =>
      && AdmitsIsolated(c, l, s, hint, r, fault)
      && ((!fault.OpenFails? && !Interrupted(fault)) || (!fault.NoFault? && cleanupSynced))
    case SealEvent(generation, synced) => synced && Seals(s, generation)
    case AcknowledgeEvent(h, committed, synced) => synced && CanAcknowledge(s, h, committed)
    case _ => MoveSyncs(c, l, s, e) == Some(BothSynced)
  }

  function SyncCarriersIf(s: State, synced: bool): State { if synced then LinkCarriers(s) else s }

  function SyncMainIf(s: State, synced: bool): State { if synced then LinkMain(s) else s }

  ghost function Step(c: Codec, l: Limits, s: State, e: Event): State
    requires Sound(c)
  {
    SyncMainIf(SyncCarriersIf(FileStep(c, l, s, e), SyncsCarriers(c, l, s, e)), SyncsMain(c, l, s, e))
  }

  ghost function Run(c: Codec, l: Limits, s: State, es: seq<Event>): State
    requires Sound(c)
    decreases |es|
  {
    if es == [] then s else Run(c, l, Step(c, l, s, es[0]), es[1..])
  }
}
