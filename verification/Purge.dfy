/** Progress records of a repository purge and the chains they form (`purge.rs`). */
module Purge {
  import opened Prelude

  const SCHEMA_VERSION: nat := 1

  datatype Stage = Pending | ProjectionClosed | PhysicalDeleting | Purged {
    function Rank(): nat {
      match this case Pending => 0 case ProjectionClosed => 1 case PhysicalDeleting => 2 case Purged => 3
    }
  }

  datatype Target = Repository(repositoryId: nat, revision: nat)

  type JobId = nat

  datatype Progress = Progress(
    schemaVersion: nat, target: Target, frontier: u64, generation: u64, stage: Stage, ordinal: u64, job: JobId,
    recordedAt: int, audit: Option<JobId>)
  {
    predicate Valid() {
      && schemaVersion == SCHEMA_VERSION && target.revision > 0 && generation > 0 && recordedAt >= 0
      && match stage
         case Pending => ordinal == 0 && audit.None?
         case ProjectionClosed => ordinal == 0 && audit.None?
         case PhysicalDeleting => audit.None?
         case Purged => audit == Some(job)
    }

    predicate Accepts(next: Progress) {
      && Valid() && next.Valid()
      && target == next.target && frontier == next.frontier && generation == next.generation && job == next.job
      && recordedAt <= next.recordedAt
      && stage != Purged
      && (match (stage, next.stage)
          case (Pending, ProjectionClosed) => next.ordinal == 0
          case (ProjectionClosed, PhysicalDeleting) => next.ordinal > 0
          case (ProjectionClosed, Purged) => ordinal == 0 && next.ordinal == 0
          case (PhysicalDeleting, PhysicalDeleting) => next.ordinal > ordinal
          case (PhysicalDeleting, Purged) => next.ordinal == ordinal
          case _ => false)
      && next.stage.Rank() >= stage.Rank()
    }
  }

  /** Records appended one by one, each accepted as the successor of the one before, from a valid `Pending` on. */
  predicate Chain(c: seq<Progress>) {
    && c != [] && c[0].Valid() && c[0].stage == Pending
    && forall i :: 0 <= i < |c| - 1 ==> c[i].Accepts(c[i + 1])
  }

  predicate SameJob(a: Progress, b: Progress) {
    a.target == b.target && a.frontier == b.frontier && a.generation == b.generation && a.job == b.job
  }

  /** Along a chain the identity never changes, and time and ordinal never go back. */
  lemma {:induction false} ChainIsMonotone(c: seq<Progress>, i: nat, j: nat)
    requires Chain(c) && i <= j < |c|
    ensures SameJob(c[i], c[j]) && c[i].recordedAt <= c[j].recordedAt && c[i].ordinal <= c[j].ordinal && c[j].Valid()
    decreases j
  {
    if i < j {
      ChainIsMonotone(c, i, j - 1);
      assert c[j - 1].Accepts(c[j]);
    } else if j > 0 {
      assert c[j - 1].Accepts(c[j]);
    }
  }

  /** Where in its chain a record stands decides its stage, and bounds its ordinal from below. */
  lemma {:induction false} StageByPosition(c: seq<Progress>, i: nat)
    requires Chain(c) && i < |c|
    ensures i == 0 <==> c[i].stage == Pending
    ensures i == 1 ==> c[i].stage == ProjectionClosed
    ensures i >= 2 ==> c[i].stage == PhysicalDeleting || (c[i].stage == Purged && i == |c| - 1)
    ensures c[i].ordinal + (if c[i].stage == Purged then 2 else 1) >= i
    decreases i
  {
    if i > 0 {
      StageByPosition(c, i - 1);
      assert c[i - 1].Accepts(c[i]);
    }
    if i < |c| - 1 {
      assert c[i].Accepts(c[i + 1]);
    }
  }

  /** What may be recorded behind `last`: the same job, no earlier, in one of five forms. */
  predicate Continues(last: Progress, next: Progress) {
    var later := last.(recordedAt := next.recordedAt);
    var purged := later.(stage := Purged, audit := Some(last.job));
    && next.recordedAt >= last.recordedAt
    && match last.stage
       case Pending => next == later.(stage := ProjectionClosed)
       case ProjectionClosed =>
         (next == later.(stage := PhysicalDeleting, ordinal := next.ordinal) && next.ordinal > 0) || next == purged
       case PhysicalDeleting =>
         (next == later.(ordinal := next.ordinal) && next.ordinal > last.ordinal) || next == purged
       case Purged => false
  }

  /** A chain can be continued by exactly these records, at any time not before its last and with any higher ordinal. */
  lemma ChainContinuesExactly(c: seq<Progress>, next: Progress)
    requires Chain(c)
    ensures Chain(c + [next]) <==> Continues(c[|c| - 1], next)
  {
    var last, d := c[|c| - 1], c + [next];
    ChainIsMonotone(c, 0, |c| - 1);
    assert d[|c| - 1] == last && d[|c|] == next;
    assert forall i :: 0 <= i < |c| ==> d[i] == c[i];
    assert Chain(d) <==> last.Accepts(next);
  }

  /** The shape of a chain: at most its final ordinal plus three records, and nothing follows `Purged`. */
  lemma ChainIsBounded(c: seq<Progress>)
    requires Chain(c)
    ensures |c| <= c[|c| - 1].ordinal + 3
    ensures c[|c| - 1].stage == Purged ==> forall next :: !Chain(c + [next])
  {
    StageByPosition(c, |c| - 1);
    if c[|c| - 1].stage == Purged {
      forall next ensures !Chain(c + [next]) {
        var d := c + [next];
        assert d[|c| - 1] == c[|c| - 1] && !d[|c| - 1].Accepts(d[|c|]);
      }
    }
  }

  /** One record per ordinal, from `Pending` to `Purged`: the longest chain ending at `n`. */
  function Longest(start: Progress, n: nat, i: nat): Progress
    requires n <= U64_MAX && i <= n + 2
  {
    if i == 0 then start
    else if i == 1 then start.(stage := ProjectionClosed)
    else if i == n + 2 then start.(stage := Purged, ordinal := n, audit := Some(start.job))
    else start.(stage := PhysicalDeleting, ordinal := i - 1)
  }

  /** The bound is attained for every ordinal. */
  lemma BoundIsTight(start: Progress, n: u64)
    requires start.Valid() && start.stage == Pending
    ensures var c := seq(n + 3, i requires 0 <= i < n + 3 => Longest(start, n, i));
      Chain(c) && c[|c| - 1].ordinal == n && |c| == n + 3
  {
    var c := seq(n + 3, i requires 0 <= i < n + 3 => Longest(start, n, i));
    forall i | 0 <= i < |c| - 1 ensures c[i].Accepts(c[i + 1]) {
      assert c[i] == Longest(start, n, i) && c[i + 1] == Longest(start, n, i + 1);
    }
  }
}
