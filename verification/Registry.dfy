/** Hook generations, session pins and the retained set (`StableLauncher`). */
module Registry {
  import opened Prelude

  const MAX_ENTRIES: nat := 4096
  const MAX_BYTES: nat := 1_048_576

  type Session = Bytes

  predicate IsSessionByte(b: u8) {
    0x30 <= b <= 0x39 || 0x41 <= b <= 0x5A || 0x61 <= b <= 0x7A || b == 0x2D || b == 0x5F
  }

  /** `validate_session_id`. */
  predicate ValidSession(s: Session) { 0 < |s| <= 128 && forall i :: 0 <= i < |s| ==> IsSessionByte(s[i]) }

  /** A data root, as it is written in the registry's JSON. */
  type Root = Bytes

  /** `root` is the data root both paths are laid out under, or `None` when they are not laid out as required. */
  datatype Generation = Generation(number: u64, protocol: nat, root: Option<Root>, compatible: bool)

  datatype Registry = Registry(current: u64, generations: seq<Generation>)

  datatype InstallError = InvalidRegistry | GenerationUnavailable | ResourceExhausted | Io

  /** A launcher's directory: the registry file and the pin files. */
  datatype Launcher = Launcher(root: Root, registry: Option<Registry>, pins: map<Session, u64>)

  /* ---------- validation ---------- */

  /** `validate_generation` without the file checks, which can only fail. */
  predicate ValidGeneration(root: Root, g: Generation) { g.number != 0 && g.protocol != 0 && g.root == Some(root) }

  predicate Ascending(gs: seq<Generation>) {
    forall i :: 0 <= i < |gs| - 1 ==> gs[i].number < gs[i + 1].number
  }

  predicate Offers(r: Registry, n: u64) { exists g :: g in r.generations && g.number == n && g.compatible }

  /** Everything `validate_registry` asks for except the bound on the number of entries. */
  predicate WellShaped(root: Root, r: Registry) {
    && (forall g :: g in r.generations ==> ValidGeneration(root, g))
    && Ascending(r.generations)
    && Offers(r, r.current)
  }

  /** `validate_registry`. */
  predicate ValidRegistry(root: Root, r: Registry) { WellShaped(root, r) && |r.generations| <= MAX_ENTRIES }

  /* ---------- the registry file ---------- */

  function Digits(n: nat): (d: nat)
    ensures d >= 1
  {
    if n < 10 then 1 else 1 + Digits(n / 10)
  }

  /**
   * The JSON text of one entry: 161 bytes of keys, punctuation and fixed path parts, the number three times, the
   * protocol version, the data root twice, and `true` or `false`.
   */
  function EntrySize(g: Generation): nat {
    161 + 3 * Digits(g.number) + Digits(g.protocol) + 2 * (if g.root.Some? then |g.root.value| else 0) + if g.compatible then 4 else 5
  }

  /** Every entry with the comma or bracket behind it. */
  function EntriesSize(gs: seq<Generation>): nat {
    if gs == [] then 0 else EntriesSize(gs[..|gs| - 1]) + EntrySize(gs[|gs| - 1]) + 1
  }

  /** The length of the file `serde_json::to_vec` writes for a non-empty registry. */
  function Size(r: Registry): nat { 60 + Digits(r.current) + EntriesSize(r.generations) }

  /** What `read_registry` accepts. */
  predicate Readable(root: Root, r: Registry) { Size(r) <= MAX_BYTES && ValidRegistry(root, r) }

  function ReadRegistry(l: Launcher): (r: Result<Registry, InstallError>)
    ensures r.Ok? <==> l.registry.Some? && Readable(l.root, l.registry.value)
    ensures r.Ok? ==> Some(r.value) == l.registry
  {
    if l.registry.None? then Err(Io)
    else if Size(l.registry.value) > MAX_BYTES then Err(ResourceExhausted)
    else if !ValidRegistry(l.root, l.registry.value) then Err(InvalidRegistry)
    else Ok(l.registry.value)
  }

  lemma {:induction false} AscendingApart(gs: seq<Generation>, i: nat, j: nat)
    requires Ascending(gs) && i < j < |gs|
    ensures gs[i].number < gs[j].number
    decreases j
  {
    if i < j - 1 {
      AscendingApart(gs, i, j - 1);
    }
  }

  /** `iter().find(..)`: the entry with this number, if it is compatible. */
  function FindEntry(gs: seq<Generation>, n: u64): (r: Option<Generation>)
    ensures r.Some? ==> r.value in gs && r.value.number == n && r.value.compatible
    ensures r.None? ==> forall g :: g in gs ==> !(g.number == n && g.compatible)
  {
    if gs == [] then None
    else if gs[0].number == n && gs[0].compatible then Some(gs[0])
    else FindEntry(gs[1..], n)
  }

  /* ---------- publishing ---------- */

  function Without(gs: seq<Generation>, n: u64): seq<Generation> {
    if gs == [] then [] else (if gs[0].number == n then [] else [gs[0]]) + Without(gs[1..], n)
  }

  const BY_NUMBER: (Generation, Generation) -> bool := (a: Generation, b: Generation) => a.number <= b.number

  /** `retain`, `push`, `sort_by_key`. */
  function Put(gs: seq<Generation>, g: Generation): seq<Generation> {
    StableSort(Without(gs, g.number) + [g], BY_NUMBER)
  }

  ghost predicate Distinct(gs: seq<Generation>) {
    forall i, j :: 0 <= i < j < |gs| ==> gs[i].number != gs[j].number
  }

  lemma DistinctCons(x: Generation, s: seq<Generation>)
    ensures Distinct([x] + s) <==> Distinct(s) && forall g :: g in s ==> g.number != x.number
  {
    var t := [x] + s;
    if Distinct(t) {
      forall g | g in s ensures g.number != x.number {
        var i :| 0 <= i < |s| && s[i] == g;
        assert t[0] == x && t[i + 1] == g;
      }
      forall i, j | 0 <= i < j < |s| ensures s[i].number != s[j].number {
        assert t[i + 1] == s[i] && t[j + 1] == s[j];
      }
    }
  }

  lemma {:induction false} WithoutMeaning(gs: seq<Generation>, n: u64)
    requires Distinct(gs)
    ensures forall g :: g in Without(gs, n) <==> g in gs && g.number != n
    ensures Distinct(Without(gs, n)) && |Without(gs, n)| <= |gs|
  {
    if gs != [] {
      assert gs == [gs[0]] + gs[1..];
      DistinctCons(gs[0], gs[1..]);
      WithoutMeaning(gs[1..], n);
      DistinctCons(gs[0], Without(gs[1..], n));
      assert gs[0].number == n ==> Without(gs, n) == Without(gs[1..], n);
    }
  }

  lemma {:induction false} InsertDistinct(x: Generation, s: seq<Generation>)
    requires Distinct(s) && forall g :: g in s ==> g.number != x.number
    ensures Distinct(Insert(x, s, BY_NUMBER))
    ensures forall g :: g in Insert(x, s, BY_NUMBER) <==> g == x || g in s
  {
    if s != [] && !BY_NUMBER(x, s[0]) {
      InsertDistinct(x, s[1..]);
      assert s == [s[0]] + s[1..];
      assert forall g :: g in s[1..] ==> g.number != s[0].number;
    }
  }

  lemma {:induction false} SortDistinct(s: seq<Generation>)
    requires Distinct(s)
    ensures Distinct(StableSort(s, BY_NUMBER))
    ensures forall g :: g in StableSort(s, BY_NUMBER) <==> g in s
    ensures |StableSort(s, BY_NUMBER)| == |s|
  {
    if s != [] {
      SortDistinct(s[1..]);
      assert forall g :: g in s[1..] ==> g.number != s[0].number;
      InsertDistinct(s[0], StableSort(s[1..], BY_NUMBER));
      InsertLength(s[0], StableSort(s[1..], BY_NUMBER));
    }
  }

  lemma {:induction false} InsertLength(x: Generation, s: seq<Generation>)
    ensures |Insert(x, s, BY_NUMBER)| == |s| + 1
  {
    if s != [] && !BY_NUMBER(x, s[0]) {
      InsertLength(x, s[1..]);
    }
  }

  /** Publishing replaces the entry with the same number, keeps all others and the order. */
  lemma PutMeaning(gs: seq<Generation>, g: Generation)
    requires Ascending(gs)
    ensures Ascending(Put(gs, g)) && |Put(gs, g)| <= |gs| + 1
    ensures forall h :: h in Put(gs, g) <==> h == g || (h in gs && h.number != g.number)
  {
    hide StableSort;
    var kept := Without(gs, g.number);
    forall i, j | 0 <= i < j < |gs| ensures gs[i].number != gs[j].number {
      AscendingApart(gs, i, j);
    }
    WithoutMeaning(gs, g.number);
    assert Distinct(kept + [g]);
    SortDistinct(kept + [g]);
    assert TotalPreorder(BY_NUMBER);
    StableSortSorted(kept + [g], BY_NUMBER);
    var r := Put(gs, g);
    forall i | 0 <= i < |r| - 1 ensures r[i].number < r[i + 1].number {
      assert BY_NUMBER(r[i], r[i + 1]);
    }
  }

  function PublishGeneration(l: Launcher, g: Generation, files: bool): (r: (Launcher, Result<(), InstallError>)) {
    if !ValidGeneration(l.root, g) || !files then (l, Err(InvalidRegistry))
    else if l.registry.Some? && ReadRegistry(l).Err? then (l, Err(ReadRegistry(l).error))
    else
      var before := if l.registry.Some? then l.registry.value.generations else [];
      var next := Registry(g.number, Put(before, g));
      if !ValidRegistry(l.root, next) then (l, Err(InvalidRegistry))
      else (l.(registry := Some(next)), Ok(()))
  }

  /* ---------- resolving ---------- */

  datatype ResolveFault = NoFault | FirstFiles | PinWrite | LastFiles

  function ResolveForSession(l: Launcher, s: Session, fault: ResolveFault): (r: (Launcher, Result<Generation, InstallError>)) {
    if !ValidSession(s) then (l, Err(InvalidRegistry))
    else if ReadRegistry(l).Err? then (l, Err(ReadRegistry(l).error))
    else
      var r := l.registry.value;
      if s in l.pins then (l, Select(l.root, r, l.pins[s], fault))
      else match FindEntry(r.generations, r.current)
        case None => (l, Err(GenerationUnavailable))
        case Some(selected) =>
          if !ValidGeneration(l.root, selected) || fault == FirstFiles then (l, Err(InvalidRegistry))
          else if fault == PinWrite then (l, Err(Io))
          else (l.(pins := l.pins[s := r.current]), Select(l.root, r, r.current, fault))
  }

  function Select(root: Root, r: Registry, n: u64, fault: ResolveFault): Result<Generation, InstallError> {
    match FindEntry(r.generations, n)
    case None => Err(GenerationUnavailable)
    case Some(selected) =>
      if !ValidGeneration(root, selected) || fault == LastFiles then Err(InvalidRegistry) else Ok(selected)
  }

  /* ---------- package commit ---------- */

  /** The registry edit of `commit_locked`: refused unless the number is new and largest; not re-validated. */
  function CommitPackage(l: Launcher, n: u64, applied: bool): (r: (Launcher, bool)) {
    if ReadRegistry(l).Err? then (l, false)
    else
      var r := l.registry.value;
      if n == 0 || (exists g :: g in r.generations && g.number >= n) || !applied then (l, false)
      else (l.(registry := Some(Registry(n, r.generations + [Generation(n, 1, Some(l.root), true)]))), true)
  }

  /* ---------- retained generations ---------- */

  /** The largest compatible number below the current one. */
  function Previous(gs: seq<Generation>, current: u64): (r: Option<u64>)
    ensures r.Some? ==> exists g :: g in gs && g.compatible && g.number == r.value < current
    ensures forall g :: g in gs && g.compatible && g.number < current ==> r.Some? && g.number <= r.value
  {
    if gs == [] then None
    else
      var rest := Previous(gs[1..], current);
      if gs[0].compatible && gs[0].number < current && (rest.None? || rest.value < gs[0].number) then Some(gs[0].number)
      else rest
  }

  function RetainedSet(r: Registry, pins: map<Session, u64>): set<u64> {
    {r.current} + (match Previous(r.generations, r.current) case None => {} case Some(n) => {n}) + pins.Values
  }

  function Retained(l: Launcher): Result<set<u64>, InstallError> {
    if ReadRegistry(l).Err? then Err(ReadRegistry(l).error)
    else if |l.pins| > MAX_ENTRIES then Err(ResourceExhausted)
    else
      var retained := RetainedSet(l.registry.value, l.pins);
      if exists n :: n in retained && !Offers(l.registry.value, n) then Err(GenerationUnavailable)
      else Ok(retained)
  }

  /* ---------- backup and restore ---------- */

  /** `verify_backup_snapshot`: a snapshot of nothing at all, or one whose retained set is computable. */
  predicate Restorable(b: Launcher) { (b.registry.None? && b.pins == map[]) || Retained(b).Ok? }

  /** An entry after a restore: moved under the new root and compatible exactly if some session pins it. */
  function Moved(g: Generation, root: Root, pins: map<Session, u64>): Generation {
    g.(root := Some(root), compatible := g.number in pins.Values)
  }

  function MovedAll(gs: seq<Generation>, root: Root, pins: map<Session, u64>): (r: seq<Generation>)
    ensures |r| == |gs| && forall i :: 0 <= i < |gs| ==> r[i] == Moved(gs[i], root, pins)
  {
    if gs == [] then [] else [Moved(gs[0], root, pins)] + MovedAll(gs[1..], root, pins)
  }

  /** All entries moved, and a fresh generation behind them. */
  function RestoredRegistry(gs: seq<Generation>, root: Root, pins: map<Session, u64>): Registry
    requires gs != [] ==> gs[|gs| - 1].number < U64_MAX
  {
    var n := if gs == [] then 1 else gs[|gs| - 1].number + 1;
    Registry(n, MovedAll(gs, root, pins) + [Generation(n, 1, Some(root), true)])
  }

  /** `prepare_restored_package`: the launcher a snapshot becomes at `root`. */
  function RestorePackage(b: Launcher, root: Root, files: bool): Result<Launcher, InstallError> {
    if !Restorable(b) then Err(if b.registry.None? then InvalidRegistry else Retained(b).error)
    else
      var gs := if b.registry.Some? then b.registry.value.generations else [];
      if gs != [] && gs[|gs| - 1].number == U64_MAX then Err(ResourceExhausted)
      else if !files then Err(Io)
      else
        var next := RestoredRegistry(gs, root, b.pins);
        if !ValidRegistry(root, next) then Err(InvalidRegistry) else Ok(Launcher(root, Some(next), b.pins))
  }

  /* ---------- runs ---------- */

  datatype Event =
    | PublishEvent(generation: Generation, files: bool)
    | ResolveEvent(session: Session, fault: ResolveFault)
    | CommitEvent(number: u64, applied: bool)
    | BackupEvent
    | RestoreEvent(backup: nat, root: Root, restoreFiles: bool)

  /** The live launcher and every snapshot taken so far. */
  datatype World = World(live: Launcher, backups: seq<Launcher>)

  function Step(w: World, e: Event): World {
    match e
    case PublishEvent(g, files) => w.(live := PublishGeneration(w.live, g, files).0)
    case ResolveEvent(s, fault) => w.(live := ResolveForSession(w.live, s, fault).0)
    case CommitEvent(n, applied) => w.(live := CommitPackage(w.live, n, applied).0)
    case BackupEvent => w.(backups := w.backups + [w.live])
    case RestoreEvent(k, root, files) =>
      if k >= |w.backups| then w else
      match RestorePackage(w.backups[k], root, files)
      case Err(_) => w
      case Ok(l) => w.(live := l)
  }

  function Run(w: World, es: seq<Event>): World
    decreases |es|
  {
    if es == [] then w else Run(Step(w, es[0]), es[1..])
  }

  /** Every pin names a compatible generation of a well-shaped registry. */
  ghost predicate Sound(l: Launcher) {
    && (l.registry.Some? ==> WellShaped(l.root, l.registry.value))
    && (forall s :: s in l.pins ==> l.registry.Some? && Offers(l.registry.value, l.pins[s]))
  }

  ghost predicate AllSound(w: World) { Sound(w.live) && forall i :: 0 <= i < |w.backups| ==> Sound(w.backups[i]) }

  lemma PublishSound(l: Launcher, g: Generation, files: bool)
    requires Sound(l)
    ensures Sound(PublishGeneration(l, g, files).0) && PublishGeneration(l, g, files).0.pins == l.pins
  {
    hide Put, ValidGeneration;
    var (m, r) := PublishGeneration(l, g, files);
    if r.Ok? {
      var before := if l.registry.Some? then l.registry.value.generations else [];
      PutMeaning(before, g);
      var next := m.registry.value;
      var c :| c in next.generations && c.number == g.number && c.compatible;
      assert g.compatible;
      forall s | s in l.pins ensures Offers(next, l.pins[s]) {
        var h :| h in before && h.number == l.pins[s] && h.compatible;
        assert g in next.generations && (h.number != g.number ==> h in next.generations);
      }
    }
  }

  lemma ResolveSound(l: Launcher, s: Session, fault: ResolveFault)
    requires Sound(l)
    ensures Sound(ResolveForSession(l, s, fault).0)
    ensures forall t :: t in l.pins ==> t in ResolveForSession(l, s, fault).0.pins && ResolveForSession(l, s, fault).0.pins[t] == l.pins[t]
  {
    hide Size, WellShaped, Readable, Select, ValidSession, ValidGeneration, ReadRegistry;
    if l.registry.Some? {
      var current := FindEntry(l.registry.value.generations, l.registry.value.current);
      assert current.Some? ==> Offers(l.registry.value, l.registry.value.current);
    }
  }

  lemma CommitSound(l: Launcher, n: u64, applied: bool)
    requires Sound(l)
    ensures Sound(CommitPackage(l, n, applied).0) && CommitPackage(l, n, applied).0.pins == l.pins
  {
    var (m, ok) := CommitPackage(l, n, applied);
    if ok {
      var gs, next := l.registry.value.generations, m.registry.value;
      var g := Generation(n, 1, Some(l.root), true);
      assert g in next.generations;
      assert forall h :: h in gs ==> h in next.generations && h.number < n;
      forall s | s in l.pins ensures Offers(next, l.pins[s]) {
        var h :| h in gs && h.number == l.pins[s] && h.compatible;
        assert h in next.generations;
      }
      assert gs[|gs| - 1] in gs;
    }
  }

  lemma MovedOffers(gs: seq<Generation>, root: Root, pins: map<Session, u64>, s: Session)
    requires s in pins && (exists g :: g in gs && g.number == pins[s] && g.compatible) && (gs != [] ==> gs[|gs| - 1].number < U64_MAX)
    ensures Offers(RestoredRegistry(gs, root, pins), pins[s])
  {
    var moved := RestoredRegistry(gs, root, pins).generations;
    var h :| h in gs && h.number == pins[s] && h.compatible;
    var i :| 0 <= i < |gs| && gs[i] == h;
    assert moved[i] == Moved(h, root, pins) && pins[s] in pins.Values;
    assert moved[i] in moved;
  }

  lemma RestoreSound(b: Launcher, root: Root, files: bool)
    requires Sound(b)
    ensures RestorePackage(b, root, files).Ok? ==> Sound(RestorePackage(b, root, files).value) && RestorePackage(b, root, files).value.pins == b.pins
  {
    hide Restorable, WellShaped, RestoredRegistry;
    var r := RestorePackage(b, root, files);
    if r.Ok? {
      forall s | s in b.pins ensures Offers(r.value.registry.value, b.pins[s]) {
        assert Offers(b.registry.value, b.pins[s]);
        MovedOffers(b.registry.value.generations, root, b.pins, s);
      }
    }
  }

  lemma StepSound(w: World, e: Event)
    requires AllSound(w)
    ensures AllSound(Step(w, e))
  {
    hide Sound, PublishGeneration, ResolveForSession, CommitPackage, RestorePackage;
    match e
    case PublishEvent(g, files) => PublishSound(w.live, g, files);
    case ResolveEvent(s, fault) => ResolveSound(w.live, s, fault);
    case CommitEvent(n, applied) => CommitSound(w.live, n, applied);
    case BackupEvent =>
    case RestoreEvent(k, root, files) => if k < |w.backups| { RestoreSound(w.backups[k], root, files); }
  }

  /** The snapshot a restore would use holds this pin; other events always keep it. */
  predicate KeepsPin(w: World, e: Event, s: Session, n: u64) {
    match e
    case RestoreEvent(k, root, files) =>
      k < |w.backups| && RestorePackage(w.backups[k], root, files).Ok? ==> s in w.backups[k].pins && w.backups[k].pins[s] == n
    case _ => true
  }

  predicate KeepsPins(w: World, es: seq<Event>, s: Session, n: u64)
    decreases |es|
  {
    es != [] ==> KeepsPin(w, es[0], s, n) && KeepsPins(Step(w, es[0]), es[1..], s, n)
  }

  predicate Pinned(l: Launcher, s: Session, n: u64) { s in l.pins && l.pins[s] == n }

  /** One step keeps a pin exactly when it is not a restore of a snapshot without it. */
  lemma StepPin(w: World, e: Event, s: Session, n: u64)
    requires AllSound(w) && Pinned(w.live, s, n)
    ensures Pinned(Step(w, e).live, s, n) <==> KeepsPin(w, e, s, n)
  {
    hide Sound, PublishGeneration, ResolveForSession, CommitPackage, RestorePackage;
    match e
    case PublishEvent(g, files) => PublishSound(w.live, g, files);
    case ResolveEvent(t, fault) => ResolveSound(w.live, t, fault);
    case CommitEvent(m, applied) => CommitSound(w.live, m, applied);
    case BackupEvent =>
    case RestoreEvent(k, root, files) => if k < |w.backups| { RestoreSound(w.backups[k], root, files); }
  }

  lemma {:induction false} RunSound(w: World, es: seq<Event>)
    requires AllSound(w)
    ensures AllSound(Run(w, es))
    decreases |es|
  {
    hide AllSound, Step;
    if es != [] {
      StepSound(w, es[0]);
      RunSound(Step(w, es[0]), es[1..]);
    }
  }

  /** Over every run whose restores use snapshots holding the pin, a session keeps its generation. */
  lemma {:induction false} PinIsStable(w: World, es: seq<Event>, s: Session, n: u64)
    requires AllSound(w) && Pinned(w.live, s, n) && KeepsPins(w, es, s, n)
    ensures Pinned(Run(w, es).live, s, n)
    ensures Run(w, es).live.registry.Some? && Offers(Run(w, es).live.registry.value, n)
    decreases |es|
  {
    hide Step, KeepsPin;
    if es != [] {
      StepPin(w, es[0], s, n);
      StepSound(w, es[0]);
      PinIsStable(Step(w, es[0]), es[1..], s, n);
    }
  }

  /** A registry is there and both of its bounds hold: at most 4096 entries and one MiB of text. */
  predicate WithinBounds(l: Launcher) {
    l.registry.Some? && |l.registry.value.generations| <= MAX_ENTRIES && Size(l.registry.value) <= MAX_BYTES
  }

  /** A successful resolve leaves the session pinned to what it returned, and a pinned session gets its pin. */
  lemma ResolveFollowsPin(l: Launcher, s: Session, fault: ResolveFault)
    requires Sound(l)
    ensures var (m, r) := ResolveForSession(l, s, fault);
      r.Ok? ==> Pinned(m, s, r.value.number) && (s in l.pins ==> r.value.number == l.pins[s]) && r.value.compatible
    ensures fault == NoFault ==> (ResolveForSession(l, s, fault).1.Ok? <==> ValidSession(s) && WithinBounds(l))
  {
    hide Size;
  }

  /**
   * Session pin stability: two successful resolves of one session, any run between them, return the same
   * generation unless a snapshot without the pin was restored in between.
   */
  lemma ResolveIsStable(w: World, s: Session, first: ResolveFault, es: seq<Event>, second: ResolveFault)
    requires AllSound(w) && ResolveForSession(w.live, s, first).1.Ok?
    requires KeepsPins(Step(w, ResolveEvent(s, first)), es, s, ResolveForSession(w.live, s, first).1.value.number)
    ensures var w' := Run(Step(w, ResolveEvent(s, first)), es);
      var again := ResolveForSession(w'.live, s, second).1;
      again.Ok? ==> again.value.number == ResolveForSession(w.live, s, first).1.value.number
  {
    hide ResolveForSession, KeepsPins, Run, Sound;
    ResolveFollowsPin(w.live, s, first);
    var w1 := Step(w, ResolveEvent(s, first));
    StepSound(w, ResolveEvent(s, first));
    PinIsStable(w1, es, s, ResolveForSession(w.live, s, first).1.value.number);
    RunSound(w1, es);
    ResolveFollowsPin(Run(w1, es).live, s, second);
  }

  const ROOT: Root := [0x2F]
  const EMPTY: World := World(Launcher(ROOT, None, map[]), [])

  lemma EveryRunIsSound(es: seq<Event>)
    ensures AllSound(Run(EMPTY, es))
  {
    RunSound(EMPTY, es);
  }

  /* ---------- exactly when publishing and restoring succeed ---------- */

  lemma {:induction false} WithoutLength(gs: seq<Generation>, n: u64)
    requires Distinct(gs)
    ensures |Without(gs, n)| == |gs| - (if exists g :: g in gs && g.number == n then 1 else 0)
  {
    if gs != [] {
      assert gs == [gs[0]] + gs[1..];
      DistinctCons(gs[0], gs[1..]);
      WithoutLength(gs[1..], n);
    }
  }

  lemma PutLength(gs: seq<Generation>, g: Generation)
    requires Ascending(gs)
    ensures |Put(gs, g)| == |gs| + (if exists h :: h in gs && h.number == g.number then 0 else 1)
  {
    hide StableSort;
    forall i, j | 0 <= i < j < |gs| ensures gs[i].number != gs[j].number {
      AscendingApart(gs, i, j);
    }
    WithoutLength(gs, g.number);
    WithoutMeaning(gs, g.number);
    assert Distinct(Without(gs, g.number) + [g]);
    SortDistinct(Without(gs, g.number) + [g]);
  }

  /** Publishing succeeds exactly for a valid compatible generation for which the registry has room. */
  lemma PublishExactly(l: Launcher, g: Generation, files: bool)
    requires Sound(l)
    ensures PublishGeneration(l, g, files).1.Ok? <==>
      && ValidGeneration(l.root, g) && files && g.compatible
      && (l.registry.Some? ==> var gs := l.registry.value.generations;
            Size(l.registry.value) <= MAX_BYTES &&
            (|gs| < MAX_ENTRIES || (|gs| == MAX_ENTRIES && exists h :: h in gs && h.number == g.number)))
  {
    hide Put, ValidGeneration, Size;
    var gs := if l.registry.Some? then l.registry.value.generations else [];
    PutMeaning(gs, g);
    PutLength(gs, g);
    var next := Registry(g.number, Put(gs, g));
    assert g in next.generations;
    assert Offers(next, g.number) <==> g.compatible;
  }

  lemma MovedAscending(gs: seq<Generation>, root: Root, pins: map<Session, u64>)
    requires Ascending(gs) && (gs != [] ==> gs[|gs| - 1].number < U64_MAX)
    ensures Ascending(RestoredRegistry(gs, root, pins).generations)
  {
    var r := RestoredRegistry(gs, root, pins).generations;
    forall i | 0 <= i < |r| - 1 ensures r[i].number < r[i + 1].number {
      assert r[i].number == gs[i].number;
      if i + 1 < |gs| {
        assert gs[i].number < gs[i + 1].number && r[i + 1].number == gs[i + 1].number;
      }
    }
  }

  lemma MovedValid(from: Root, gs: seq<Generation>, root: Root, pins: map<Session, u64>)
    requires gs != [] && gs[|gs| - 1].number < U64_MAX && Ascending(gs)
    requires forall g :: g in gs ==> ValidGeneration(from, g)
    ensures WellShaped(root, RestoredRegistry(gs, root, pins))
    ensures |RestoredRegistry(gs, root, pins).generations| == |gs| + 1
  {
    MovedAscending(gs, root, pins);
    var r := RestoredRegistry(gs, root, pins);
    forall g | g in r.generations ensures ValidGeneration(root, g) {
      var i :| 0 <= i < |r.generations| && r.generations[i] == g;
      if i < |gs| {
        assert ValidGeneration(from, gs[i]);
      }
    }
    assert r.generations[|gs|] in r.generations;
  }

  lemma NotEmpty(root: Root, r: Registry)
    requires WellShaped(root, r)
    ensures r.generations != [] && Ascending(r.generations) && forall g :: g in r.generations ==> ValidGeneration(root, g)
  {}

  lemma FirstRestoreValid(root: Root, pins: map<Session, u64>)
    ensures ValidRegistry(root, RestoredRegistry([], root, pins))
  {
    var r := RestoredRegistry([], root, pins);
    assert r.generations == [Generation(1, 1, Some(root), true)];
    assert r.generations[0] in r.generations;
  }

  /** A snapshot can be restored exactly when it verifies, numbers are left, and its registry has room. */
  lemma RestoreExactly(b: Launcher, root: Root, files: bool)
    requires Sound(b)
    ensures RestorePackage(b, root, files).Ok? <==>
      && Restorable(b) && files
      && (b.registry.Some? ==> var gs := b.registry.value.generations;
            |gs| < MAX_ENTRIES && gs[|gs| - 1].number < U64_MAX)
  {
    hide Restorable, WellShaped, RestoredRegistry;
    if b.registry.None? {
      FirstRestoreValid(root, b.pins);
    } else {
      NotEmpty(b.root, b.registry.value);
      if b.registry.value.generations[|b.registry.value.generations| - 1].number < U64_MAX {
        MovedValid(b.root, b.registry.value.generations, root, b.pins);
      }
    }
  }

  /* ---------- the retained set ---------- */

  /** The retained set never fails for pins created by resolving; only the size bounds can refuse it. */
  lemma RetainedNeverFails(l: Launcher)
    requires Sound(l)
    ensures Retained(l).Ok? <==> WithinBounds(l) && |l.pins| <= MAX_ENTRIES
  {
    hide WellShaped, RetainedSet, Offers, Size;
    if l.registry.Some? {
      forall n | n in RetainedSet(l.registry.value, l.pins) ensures Offers(l.registry.value, n) {
        RetainedIsOffered(l, n);
      }
    }
  }

  lemma RetainedIsOffered(l: Launcher, n: u64)
    requires Sound(l) && l.registry.Some? && n in RetainedSet(l.registry.value, l.pins)
    ensures Offers(l.registry.value, n)
  {
    if n in l.pins.Values {
      var s :| s in l.pins && l.pins[s] == n;
    }
  }

  /** `n` is the largest compatible generation below the current one. */
  ghost predicate IsPrevious(r: Registry, n: u64) {
    Offers(r, n) && n < r.current && forall g :: g in r.generations && g.compatible && g.number < r.current ==> g.number <= n
  }

  lemma PreviousExactly(r: Registry, n: u64)
    ensures Previous(r.generations, r.current) == Some(n) <==> IsPrevious(r, n)
  {
    var p := Previous(r.generations, r.current);
    if IsPrevious(r, n) {
      var g :| g in r.generations && g.number == n && g.compatible;
      assert p.Some? && n <= p.value;
    }
  }

  /** The retained set is exactly the current generation, its largest compatible predecessor and all pins. */
  lemma RetainedExactly(l: Launcher, n: u64)
    requires Retained(l).Ok?
    ensures n in Retained(l).value <==>
      n == l.registry.value.current || IsPrevious(l.registry.value, n) || exists s :: Pinned(l, s, n)
  {
    hide ValidRegistry, Previous, IsPrevious, Offers;
    var r := l.registry.value;
    PreviousExactly(r, n);
    assert Retained(l).value == RetainedSet(r, l.pins);
    hide Retained;
    if n in l.pins.Values {
      var s :| s in l.pins && l.pins[s] == n;
      assert Pinned(l, s, n);
    }
  }

  /* ---------- registries that cannot be read back ---------- */

  /**
   * A commit leaves a registry the launcher can read back exactly when there is room for one more entry and its
   * text: neither bound is checked before the new registry is published.
   */
  lemma CommitReadable(l: Launcher, n: u64)
    requires Sound(l) && CommitPackage(l, n, true).1
    ensures var r := l.registry.value;
      Readable(l.root, CommitPackage(l, n, true).0.registry.value) <==>
        && |r.generations| < MAX_ENTRIES
        && Size(r) - Digits(r.current) + Digits(n) + EntrySize(Generation(n, 1, Some(l.root), true)) + 1 <= MAX_BYTES
  {
    hide Digits, EntrySize, WellShaped;
    CommitSound(l, n, true);
    var gs, g := l.registry.value.generations, Generation(n, 1, Some(l.root), true);
    assert (gs + [g])[..|gs|] == gs;
  }

  /** Publishing checks the number of entries but not the length of the text. */
  lemma PublishReadable(l: Launcher, g: Generation, files: bool)
    requires PublishGeneration(l, g, files).1.Ok?
    ensures var r := PublishGeneration(l, g, files).0.registry.value;
      r == Registry(g.number, Put(if l.registry.Some? then l.registry.value.generations else [], g))
      && (Readable(l.root, r) <==> Size(r) <= MAX_BYTES)
  {
    hide Size, Put;
  }

  /** So does restoring. */
  lemma RestoreReadable(b: Launcher, root: Root, files: bool)
    requires RestorePackage(b, root, files).Ok?
    ensures var r := RestorePackage(b, root, files).value.registry.value; Readable(root, r) <==> Size(r) <= MAX_BYTES
  {
    hide Size, Restorable;
  }

  /** From an unreadable registry on, publish, resolve and commit change nothing; only a restore leads out. */
  lemma {:induction false} UnreadableIsPermanent(w: World, es: seq<Event>)
    requires w.live.registry.Some? && !Readable(w.live.root, w.live.registry.value)
    requires forall i :: 0 <= i < |es| ==> !es[i].RestoreEvent?
    ensures Run(w, es).live == w.live && Retained(w.live).Err?
    decreases |es|
  {
    hide Readable;
    if es != [] {
      UnreadableIsPermanent(Step(w, es[0]), es[1..]);
    }
  }

  /** A generation number higher than all others goes to the end. */
  lemma PutLast(gs: seq<Generation>, g: Generation)
    requires Ascending(gs) && forall h :: h in gs ==> h.number < g.number
    ensures Put(gs, g) == gs + [g]
  {
    WithoutNothing(gs, g.number);
    assert TotalPreorder(BY_NUMBER);
    var all := gs + [g];
    forall i, j | 0 <= i < j < |all| ensures BY_NUMBER(all[i], all[j]) {
      if j < |gs| {
        AscendingApart(gs, i, j);
      }
    }
    SortedIsFixed(all, BY_NUMBER);
  }

  lemma {:induction false} WithoutNothing(gs: seq<Generation>, n: u64)
    requires forall h :: h in gs ==> h.number != n
    ensures Without(gs, n) == gs
  {
    if gs != [] {
      assert gs[0] in gs;
      WithoutNothing(gs[1..], n);
      assert gs == [gs[0]] + gs[1..];
    }
  }

  /** Generations 1 to `n` under one root. */
  function FirstGenerations(root: Root, n: nat): (gs: seq<Generation>)
    requires n <= MAX_ENTRIES
    ensures |gs| == n && forall i :: 0 <= i < n ==> gs[i] == Generation(i + 1, 1, Some(root), true)
  {
    seq(n, i requires 0 <= i < n => Generation(i + 1, 1, Some(root), true))
  }

  function PublishEvents(root: Root, n: nat): seq<Event>
    requires n <= MAX_ENTRIES
  {
    seq(n, i requires 0 <= i < n => PublishEvent(Generation(i + 1, 1, Some(root), true), true))
  }

  lemma {:induction false} EntriesAtLeast(gs: seq<Generation>, each: nat)
    requires forall g :: g in gs ==> EntrySize(g) + 1 >= each
    ensures EntriesSize(gs) >= |gs| * each
  {
    hide EntrySize;
    if gs != [] {
      assert gs[|gs| - 1] in gs;
      EntriesAtLeast(gs[..|gs| - 1], each);
    }
  }

  lemma PublishNext(root: Root, n: nat)
    requires n < MAX_ENTRIES
    ensures var gs := FirstGenerations(root, n); var g := Generation(n + 1, 1, Some(root), true);
      && Put(gs, g) == FirstGenerations(root, n + 1)
      && ValidRegistry(root, Registry(n + 1, FirstGenerations(root, n + 1)))
  {
    var gs, g := FirstGenerations(root, n), Generation(n + 1, 1, Some(root), true);
    PutLast(gs, g);
    var more := FirstGenerations(root, n + 1);
    assert gs + [g] == more;
    assert more[n] in more;
  }

  /** After publishing 1 to `n` in turn: either all of them are there, or some publish left too long a text. */
  lemma {:induction false} Grown(root: Root, n: nat)
    requires n <= MAX_ENTRIES
    ensures var l := Run(World(Launcher(root, None, map[]), []), PublishEvents(root, n)).live;
      && l.root == root
      && ((l.registry == if n == 0 then None else Some(Registry(n, FirstGenerations(root, n))))
          || (l.registry.Some? && !Readable(root, l.registry.value) && ValidRegistry(root, l.registry.value)
              && |l.registry.value.generations| < n))
  {
    hide Put, Size, ValidRegistry, FirstGenerations;
    if n > 0 {
      var m := n - 1;
      Grown(root, m);
      var start, es, e := World(Launcher(root, None, map[]), []), PublishEvents(root, m), PublishEvent(Generation(n, 1, Some(root), true), true);
      assert PublishEvents(root, n) == es + [e];
      RunSnoc(start, es, e);
      PublishNext(root, m);
      if m > 0 {
        PublishNext(root, m - 1);
      } else {
        assert FirstGenerations(root, m) == [];
      }
    }
  }

  lemma {:induction false} RunSnoc(w: World, es: seq<Event>, e: Event)
    ensures Run(w, es + [e]) == Step(Run(w, es), e)
    decreases |es|
  {
    hide Step;
    if es == [] {
      assert [] + [e] == [e] && [e][1..] == [];
      assert Run(w, [e]) == Run(Step(w, e), []);
    } else {
      assert (es + [e])[1..] == es[1..] + [e];
      RunSnoc(Step(w, es[0]), es[1..], e);
    }
  }

  /**
   * The text bound bites first: under a data root of 44 bytes or more, publishing one generation after another
   * makes the registry unreadable before it holds 4096 entries.
   */
  lemma PublishingOverflowsText(root: Root)
    requires |root| >= 44
    ensures var l := Run(World(Launcher(root, None, map[]), []), PublishEvents(root, 4095)).live;
      l.registry.Some? && ValidRegistry(root, l.registry.value) && !Readable(root, l.registry.value)
      && |l.registry.value.generations| < MAX_ENTRIES
  {
    hide Run, PublishEvents;
    Grown(root, 4095);
    PublishNext(root, 4094);
    var gs := FirstGenerations(root, 4095);
    EntriesAtLeast(gs, 258);
  }

  /* ---------- more pins than can be listed ---------- */

  /** 4097 and more session identifiers: three letters. */
  function SessionName(i: nat): Session
    requires i < 26 * 26 * 26
  {
    [0x61 + i / 676, 0x61 + i / 26 % 26, 0x61 + i % 26]
  }

  lemma SessionNames(i: nat, j: nat)
    requires i < 26 * 26 * 26 && j < 26 * 26 * 26
    ensures ValidSession(SessionName(i))
    ensures SessionName(i) == SessionName(j) ==> i == j
  {
    SessionIsValid(i);
    if SessionName(i) == SessionName(j) {
      assert SessionName(i)[0] == SessionName(j)[0] && SessionName(i)[1] == SessionName(j)[1] && SessionName(i)[2] == SessionName(j)[2];
      Digits26(i);
      Digits26(j);
    }
  }

  lemma SessionIsValid(i: nat)
    requires i < 26 * 26 * 26
    ensures ValidSession(SessionName(i))
  {
    var s := SessionName(i);
    assert IsSessionByte(s[0]) && IsSessionByte(s[1]) && IsSessionByte(s[2]);
  }

  lemma Digits26(i: nat)
    ensures i == 676 * (i / 676) + 26 * (i / 26 % 26) + i % 26
  {
    assert i / 26 / 26 == i / 676;
  }

  function FirstPins(n: nat): map<Session, u64>
    requires n <= 26 * 26 * 26
  {
    if n == 0 then map[] else FirstPins(n - 1)[SessionName(n - 1) := 1]
  }

  lemma {:induction false} PinCount(n: nat)
    requires n <= 26 * 26 * 26
    ensures |FirstPins(n)| == n
    ensures forall i :: n <= i < 26 * 26 * 26 ==> SessionName(i) !in FirstPins(n)
  {
    hide SessionName;
    if n > 0 {
      PinCount(n - 1);
      forall i | n <= i < 26 * 26 * 26 ensures SessionName(i) != SessionName(n - 1) {
        SessionNames(i, n - 1);
      }
    }
  }

  /** One publish, then `n` sessions resolve. */
  function PinEvents(n: nat): seq<Event>
    requires n <= 26 * 26 * 26
  {
    if n == 0 then [PublishEvent(FIRST, true)] else PinEvents(n - 1) + [ResolveEvent(SessionName(n - 1), NoFault)]
  }

  lemma {:induction false} PinnedState(n: nat)
    requires n <= 26 * 26 * 26
    ensures Run(EMPTY, PinEvents(n)) == World(Launcher(ROOT, Some(Registry(1, [FIRST])), FirstPins(n)), [])
  {
    hide SessionName, PublishGeneration, ResolveForSession, Readable, ValidSession, Sound;
    var l := Launcher(ROOT, Some(Registry(1, [FIRST])), map[]);
    FirstPublished(l);
    if n == 0 {
      assert Run(World(l, []), []) == World(l, []);
      assert PinEvents(0)[1..] == [];
    } else {
      PinnedState(n - 1);
      PinCount(n - 1);
      SessionNames(n - 1, n - 1);
      RunSnoc(EMPTY, PinEvents(n - 1), ResolveEvent(SessionName(n - 1), NoFault));
      var m := l.(pins := FirstPins(n - 1));
      EveryRunIsSound(PinEvents(n - 1));
      ResolvesToCurrent(m, SessionName(n - 1));
    }
  }

  /** Nothing bounds the pins: 4097 sessions make the retained set fail. */
  lemma TooManySessions()
    ensures var l := Run(EMPTY, PinEvents(4097)).live;
      |l.pins| == 4097 && Retained(l) == Err(ResourceExhausted)
  {
    hide PinEvents, FirstPins, Readable;
    PinnedState(4097);
    PinCount(4097);
    FirstPublished(Launcher(ROOT, Some(Registry(1, [FIRST])), map[]));
  }

  /** And from then on it fails, whatever is published, resolved or committed. */
  lemma {:induction false} TooManyPinsIsPermanent(w: World, es: seq<Event>)
    requires AllSound(w) && |w.live.pins| > MAX_ENTRIES && forall i :: 0 <= i < |es| ==> !es[i].RestoreEvent?
    ensures |Run(w, es).live.pins| > MAX_ENTRIES && Retained(Run(w, es).live).Err?
    decreases |es|
  {
    hide PublishGeneration, ResolveForSession, CommitPackage, Sound;
    if es != [] {
      StepSound(w, es[0]);
      PinsOnlyGrow(w, es[0]);
      TooManyPinsIsPermanent(Step(w, es[0]), es[1..]);
    }
  }

  lemma PinsOnlyGrow(w: World, e: Event)
    requires AllSound(w) && !e.RestoreEvent?
    ensures |Step(w, e).live.pins| >= |w.live.pins|
  {
    hide PublishGeneration, ResolveForSession, CommitPackage, Sound;
    match e
    case PublishEvent(g, files) => PublishSound(w.live, g, files);
    case ResolveEvent(s, fault) =>
      ResolveSound(w.live, s, fault);
      var more := ResolveForSession(w.live, s, fault).0.pins;
      assert w.live.pins.Keys <= more.Keys;
      KeysCount(w.live.pins.Keys, more.Keys);
      assert |w.live.pins.Keys| == |w.live.pins| && |more.Keys| == |more|;
    case CommitEvent(n, applied) => CommitSound(w.live, n, applied);
    case BackupEvent =>
  }

  lemma KeysCount(a: set<Session>, b: set<Session>)
    requires a <= b
    ensures |a| <= |b|
  {
    assert b == a + (b - a);
  }

  /* ---------- restoring an older snapshot ---------- */

  /** A session the snapshot does not pin is pinned anew, to a generation the snapshot has never seen. */
  lemma RestoreRepins(b: Launcher, root: Root, files: bool, s: Session)
    requires Sound(b) && RestorePackage(b, root, files).Ok? && ValidSession(s) && s !in b.pins
    ensures var r := ResolveForSession(RestorePackage(b, root, files).value, s, NoFault).1;
      var l := RestorePackage(b, root, files).value;
      && (r.Ok? <==> Size(l.registry.value) <= MAX_BYTES)
      && (r.Ok? ==> r.value.number == l.registry.value.current)
      && (b.registry.Some? ==> forall g :: g in b.registry.value.generations ==> g.number < l.registry.value.current)
  {
    hide WellShaped, ResolveForSession, ValidSession, Size;
    RestoreSound(b, root, files);
    var l := RestorePackage(b, root, files).value;
    ResolveFollowsPin(l, s, NoFault);
    if Size(l.registry.value) <= MAX_BYTES {
      ResolvesToCurrent(l, s);
    }
    if b.registry.Some? {
      var gs := b.registry.value.generations;
      forall g | g in gs ensures g.number < l.registry.value.current {
        BelowNext(b.root, b.registry.value, g);
      }
    }
  }

  lemma BelowNext(root: Root, r: Registry, g: Generation)
    requires WellShaped(root, r) && g in r.generations
    ensures g.number <= r.generations[|r.generations| - 1].number
  {
    var i :| 0 <= i < |r.generations| && r.generations[i] == g;
    if i < |r.generations| - 1 {
      AscendingApart(r.generations, i, |r.generations| - 1);
    }
  }

  lemma ResolvesToCurrent(l: Launcher, s: Session)
    requires Sound(l) && ValidSession(s) && s !in l.pins && l.registry.Some? && Readable(l.root, l.registry.value)
    ensures ResolveForSession(l, s, NoFault).1.Ok?
    ensures ResolveForSession(l, s, NoFault).1.value.number == l.registry.value.current
    ensures ResolveForSession(l, s, NoFault).0 == l.(pins := l.pins[s := l.registry.value.current])
  {
    hide ValidSession, Size;
  }

  const SESSION: Session := [0x61]
  const FIRST: Generation := Generation(1, 1, Some(ROOT), true)
  const ROLLED_BACK: seq<Event> :=
    [PublishEvent(FIRST, true), BackupEvent, ResolveEvent(SESSION, NoFault), RestoreEvent(0, ROOT, true)]

  /** A run in which a session resolves to generation 1 and, after an older snapshot is restored, to generation 2. */
  lemma OlderSnapshotMovesPin()
    ensures Pinned(Run(EMPTY, ROLLED_BACK[..3]).live, SESSION, 1)
    ensures var again := ResolveForSession(Run(EMPTY, ROLLED_BACK).live, SESSION, NoFault).1; again.Ok? && again.value.number == 2
  {
    hide ResolveForSession, RestorePackage, PublishGeneration, Readable;
    var r1 := Registry(1, [FIRST]);
    var l1 := Launcher(ROOT, Some(r1), map[]);
    var l2 := l1.(pins := map[SESSION := 1]);
    var second := Generation(2, 1, Some(ROOT), true);
    var l3 := Launcher(ROOT, Some(Registry(2, [FIRST.(compatible := false), second])), map[]);
    var w1, w2, w3, w4 := World(l1, []), World(l1, [l1]), World(l2, [l1]), World(l3, [l1]);
    FirstPublished(l1);
    ResolvesToCurrent(l1, SESSION);
    assert map[][SESSION := 1 as u64] == l2.pins;
    FirstRestored(l1, l3);
    ResolvesToCurrent(l3, SESSION);
    assert Step(EMPTY, ROLLED_BACK[0]) == w1 && Step(w1, ROLLED_BACK[1]) == w2;
    assert Step(w2, ROLLED_BACK[2]) == w3 && Step(w3, ROLLED_BACK[3]) == w4;
    UnfoldRun(EMPTY, ROLLED_BACK, w1, w2, w3, w4);
  }

  lemma UnfoldRun(w: World, es: seq<Event>, w1: World, w2: World, w3: World, w4: World)
    requires |es| == 4 && Step(w, es[0]) == w1 && Step(w1, es[1]) == w2 && Step(w2, es[2]) == w3 && Step(w3, es[3]) == w4
    ensures Run(w, es[..3]) == w3 && Run(w, es) == w4
  {
    hide Step;
    assert Run(w2, [es[2]]) == w3 by { assert Run(w3, []) == w3; }
    assert es[..3][1..] == [es[1], es[2]] && [es[1], es[2]][1..] == [es[2]];
    assert Run(w1, [es[1], es[2]]) == w3;
    assert es[1..] == [es[1], es[2], es[3]] && [es[1], es[2], es[3]][1..] == [es[2], es[3]] && [es[2], es[3]][1..] == [es[3]];
    assert Run(w3, [es[3]]) == w4 by { assert Run(w4, []) == w4; }
    assert Run(w2, [es[2], es[3]]) == w4;
    assert Run(w1, [es[1], es[2], es[3]]) == w4;
  }

  lemma FirstPublished(l1: Launcher)
    requires l1 == Launcher(ROOT, Some(Registry(1, [FIRST])), map[])
    ensures PublishGeneration(EMPTY.live, FIRST, true) == (l1, Ok(()))
    ensures Readable(ROOT, Registry(1, [FIRST])) && Sound(l1) && ValidSession(SESSION)
  {
    assert Without([], 1) == [];
    assert [] + [FIRST] == [FIRST] && [FIRST][1..] == [];
    assert StableSort([FIRST], BY_NUMBER) == [FIRST];
    assert FIRST in [FIRST];
    assert Offers(Registry(1, [FIRST]), 1);
    assert EntriesSize([FIRST]) == EntrySize(FIRST) + 1;
  }

  lemma FirstRestored(l1: Launcher, l3: Launcher)
    requires l1 == Launcher(ROOT, Some(Registry(1, [FIRST])), map[]) && Sound(l1) && Readable(ROOT, l1.registry.value)
    requires l3 == Launcher(ROOT, Some(Registry(2, [FIRST.(compatible := false), Generation(2, 1, Some(ROOT), true)])), map[])
    ensures RestorePackage(l1, ROOT, true) == Ok(l3) && Sound(l3) && Readable(ROOT, l3.registry.value)
  {
    RetainedNeverFails(l1);
    hide Retained;
    var gs := [FIRST];
    assert MovedAll(gs, ROOT, map[]) == [FIRST.(compatible := false)];
    assert RestoredRegistry(gs, ROOT, map[]) == l3.registry.value;
    var second := Generation(2, 1, Some(ROOT), true);
    assert second == l3.registry.value.generations[1];
    assert Offers(l3.registry.value, 2) by { assert second in l3.registry.value.generations; }
    var moved := l3.registry.value.generations;
    assert moved[..1] == [moved[0]] && EntriesSize(moved[..1]) == EntrySize(moved[0]) + 1;
    assert EntriesSize(moved) == EntriesSize(moved[..1]) + EntrySize(second) + 1;
  }

  /* ---------- the launcher object ---------- */

  class StableLauncher {
    const root: Root
    var registry: Option<Registry>
    var pins: map<Session, u64>

    constructor (root: Root)
      ensures State() == Launcher(root, None, map[])
    {
      this.root, registry, pins := root, None, map[];
    }

    function State(): Launcher
      reads this
    {
      Launcher(root, registry, pins)
    }

    method Publish(g: Generation, files: bool) returns (r: Result<(), InstallError>)
      modifies this`registry
      ensures (State(), r) == PublishGeneration(old(State()), g, files)
    {
      hide ValidRegistry, Put;
      if !ValidGeneration(root, g) || !files {
        return Err(InvalidRegistry);
      }
      var generations: seq<Generation> := [];
      if registry.Some? {
        var read := ReadRegistry(Launcher(root, registry, pins));
        if read.Err? {
          return Err(read.error);
        }
        generations := read.value.generations;
      }
      var kept := Retain(generations, g.number);
      var next := Registry(g.number, StableSort(kept + [g], BY_NUMBER));
      PutIs(generations, g);
      if !ValidRegistry(root, next) {
        return Err(InvalidRegistry);
      }
      registry := Some(next);
      return Ok(());
    }

    method Resolve(s: Session, fault: ResolveFault) returns (r: Result<Generation, InstallError>)
      modifies this`pins
      ensures (State(), r) == ResolveForSession(old(State()), s, fault)
    {
      hide ValidRegistry, ValidSession, ValidGeneration;
      if !ValidSession(s) {
        return Err(InvalidRegistry);
      }
      var read := ReadRegistry(Launcher(root, registry, pins));
      if read.Err? {
        return Err(read.error);
      }
      var current := registry.value.current;
      var number := current;
      if s in pins {
        number := pins[s];
      } else {
        var selected := FindEntry(registry.value.generations, current);
        if selected.None? {
          return Err(GenerationUnavailable);
        }
        if !ValidGeneration(root, selected.value) || fault == FirstFiles {
          return Err(InvalidRegistry);
        }
        if fault == PinWrite {
          return Err(Io);
        }
        pins := pins[s := current];
      }
      var selected := FindEntry(registry.value.generations, number);
      if selected.None? {
        return Err(GenerationUnavailable);
      }
      if !ValidGeneration(root, selected.value) || fault == LastFiles {
        return Err(InvalidRegistry);
      }
      return Ok(selected.value);
    }

    /** `retained_generations`: the list ascends; `files` says that every listed generation's files are in place. */
    method RetainedGenerations(files: bool) returns (r: Result<seq<u64>, InstallError>)
      ensures r.Ok? <==> Retained(State()).Ok? && files
      ensures r.Err? && Retained(State()).Err? ==> r.error == Retained(State()).error
      ensures r.Ok? ==>
        && (forall n :: n in r.value <==> n in Retained(State()).value)
        && forall i, j :: 0 <= i < j < |r.value| ==> r.value[i] < r.value[j]
    {
      hide Readable, Retained;
      var retained := RetainedMembers();
      if retained.Err? {
        return Err(retained.error);
      }
      if !files {
        return Err(InvalidRegistry);
      }
      RetainedFacts(State());
      var list := NumbersIn(registry.value.generations, retained.value);
      OfferedIsListed(registry.value, retained.value, list);
      return Ok(list);
    }

    /** The set itself: current, largest compatible predecessor and every pin, all of them still offered. */
    method RetainedMembers() returns (r: Result<set<u64>, InstallError>)
      ensures r == Retained(State())
    {
      hide Readable, Offers, Previous, ReadRegistry, RetainedSet;
      var read := ReadRegistry(Launcher(root, registry, pins));
      if read.Err? {
        return Err(read.error);
      }
      if |pins| > MAX_ENTRIES {
        return Err(ResourceExhausted);
      }
      var current := read.value.current;
      var previous := LargestBelow(read.value.generations, current);
      var retained := {current};
      if previous.Some? {
        retained := retained + {previous.value};
      }
      retained := retained + pins.Values;
      RetainedSetIs(read.value, pins);
      if exists n :: n in retained && !Offers(read.value, n) {
        return Err(GenerationUnavailable);
      }
      return Ok(retained);
    }
  }

  lemma RetainedSetIs(r: Registry, pins: map<Session, u64>)
    ensures var previous := Previous(r.generations, r.current);
      RetainedSet(r, pins) == (if previous.Some? then {r.current} + {previous.value} else {r.current}) + pins.Values
  {}

  lemma RetainedFacts(l: Launcher)
    requires Retained(l).Ok?
    ensures l.registry.Some? && Ascending(l.registry.value.generations)
    ensures forall n :: n in Retained(l).value ==> Offers(l.registry.value, n)
  {
    hide Offers, RetainedSet, Size;
  }

  lemma OfferedIsListed(r: Registry, wanted: set<u64>, list: seq<u64>)
    requires forall n :: n in wanted ==> Offers(r, n)
    requires forall n :: n in list <==> n in wanted && exists g :: g in r.generations && g.number == n
    ensures forall n :: n in list <==> n in wanted
  {}

  /** The ascending list of a set of numbers, each of which is some entry's. */
  method NumbersIn(gs: seq<Generation>, wanted: set<u64>) returns (list: seq<u64>)
    requires Ascending(gs)
    ensures forall n :: n in list <==> n in wanted && exists g :: g in gs && g.number == n
    ensures forall i, j :: 0 <= i < j < |list| ==> list[i] < list[j]
  {
    list := [];
    for i := 0 to |gs|
      invariant forall n :: n in list <==> n in wanted && exists g :: g in gs[..i] && g.number == n
      invariant forall k, j :: 0 <= k < j < |list| ==> list[k] < list[j]
    {
      assert gs[..i + 1] == gs[..i] + [gs[i]];
      assert forall g :: g in gs[..i] ==> g.number < gs[i].number by {
        forall g | g in gs[..i] ensures g.number < gs[i].number {
          var j :| 0 <= j < i && gs[j] == g;
          AscendingApart(gs, j, i);
        }
      }
      forall k | 0 <= k < |list| ensures list[k] < gs[i].number {
        assert list[k] in list;
        var g :| g in gs[..i] && g.number == list[k];
      }
      if gs[i].number in wanted {
        list := list + [gs[i].number];
      }
    }
    assert gs[..|gs|] == gs;
  }

  lemma PutIs(gs: seq<Generation>, g: Generation)
    ensures Put(gs, g) == StableSort(Without(gs, g.number) + [g], BY_NUMBER)
  {}

  lemma {:induction false} WithoutSnoc(gs: seq<Generation>, g: Generation, n: u64)
    ensures Without(gs + [g], n) == Without(gs, n) + (if g.number == n then [] else [g])
  {
    if gs == [] {
      assert gs + [g] == [g];
    } else {
      assert (gs + [g])[1..] == gs[1..] + [g];
      WithoutSnoc(gs[1..], g, n);
    }
  }

  method Retain(gs: seq<Generation>, n: u64) returns (kept: seq<Generation>)
    ensures kept == Without(gs, n)
  {
    kept := [];
    for i := 0 to |gs|
      invariant kept == Without(gs[..i], n)
    {
      WithoutSnoc(gs[..i], gs[i], n);
      assert gs[..i + 1] == gs[..i] + [gs[i]];
      if gs[i].number != n {
        kept := kept + [gs[i]];
      }
    }
    assert gs[..|gs|] == gs;
  }

  /** `filter(..).max()`. */
  method LargestBelow(gs: seq<Generation>, current: u64) returns (best: Option<u64>)
    ensures best == Previous(gs, current)
  {
    best := None;
    for i := 0 to |gs|
      invariant best.Some? ==> exists g :: g in gs[..i] && g.compatible && g.number == best.value < current
      invariant forall g :: g in gs[..i] && g.compatible && g.number < current ==> best.Some? && g.number <= best.value
    {
      assert gs[..i + 1] == gs[..i] + [gs[i]];
      if gs[i].compatible && gs[i].number < current && (best.None? || best.value < gs[i].number) {
        best := Some(gs[i].number);
        assert gs[i] in gs[..i + 1];
      }
    }
    assert gs[..|gs|] == gs;
  }
}
