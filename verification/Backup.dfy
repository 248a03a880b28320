/** Backup boundary over the claimed segments (`freeze_backup_boundary`) and per-file verification (`verify_backup_spool_file`). */
module Backup {
  import opened Prelude
  import opened Record
  import opened Scanner
  import opened Validator
  import opened SpoolState

  const U32_MAX: nat := 0xFFFF_FFFF

  datatype Summary = Summary(
    frames: nat, casRefs: set<Bytes>, watermarks: map<SourceKey, u64>, generations: set<u64>)

  const NOTHING: Summary := Summary(0, {}, map[], {})

  function Body(rs: seq<SpoolRecord>, i: nat): CaptureBody
    requires Decodable(rs) && i < |rs|
  {
    DecodeValidated(rs[i]).value
  }

  ghost predicate HoldsRefs(refs: set<Bytes>, rs: seq<SpoolRecord>)
    requires Decodable(rs)
  {
    forall d :: d in refs <==> exists i :: 0 <= i < |rs| && Body(rs, i).casRef == d
  }

  ghost predicate HoldsGenerations(generations: set<u64>, rs: seq<SpoolRecord>) {
    forall g :: g in generations <==> exists i :: 0 <= i < |rs| && rs[i].generation == g
  }

  /** Every record is at or below the watermark of its source. */
  ghost predicate Bounds(marks: map<SourceKey, u64>, rs: seq<SpoolRecord>)
    requires Decodable(rs)
  {
    forall i :: 0 <= i < |rs| ==> Body(rs, i).source in marks && Body(rs, i).sequence <= marks[Body(rs, i).source]
  }

  /** Every watermark is the sequence of some record of that source. */
  ghost predicate Attained(marks: map<SourceKey, u64>, rs: seq<SpoolRecord>)
    requires Decodable(rs)
  {
    forall k :: k in marks ==> exists i :: 0 <= i < |rs| && Body(rs, i).source == k && Body(rs, i).sequence == marks[k]
  }

  /** What a summary of these records must say, without saying how it is accumulated. */
  ghost predicate Describes(sum: Summary, rs: seq<SpoolRecord>) {
    && Decodable(rs) && sum.frames == |rs|
    && HoldsRefs(sum.casRefs, rs) && HoldsGenerations(sum.generations, rs)
    && Bounds(sum.watermarks, rs) && Attained(sum.watermarks, rs)
  }

  function Larger(a: u64, b: u64): u64 { if a < b then b else a }

  /** The accumulation step shared by both operations. */
  function Observe(sum: Summary, generation: u64, body: CaptureBody): Summary {
    Summary(sum.frames + 1, sum.casRefs + {body.casRef},
      sum.watermarks[body.source :=
        if body.source in sum.watermarks then Larger(sum.watermarks[body.source], body.sequence) else body.sequence],
      sum.generations + {generation})
  }

  lemma ObserveDescribes(sum: Summary, rs: seq<SpoolRecord>, r: SpoolRecord)
    requires Describes(sum, rs) && DecodeValidated(r).Some?
    ensures Describes(Observe(sum, r.generation, DecodeValidated(r).value), rs + [r])
  {
    hide DecodeValidated, Describes;
    var body := DecodeValidated(r).value;
    var single := Summary(1, {body.casRef}, map[body.source := body.sequence], {r.generation});
    SingleDescribes(r);
    MergeDescribes(sum, rs, single, [r]);
    assert Observe(sum, r.generation, body).watermarks == Merge(sum, single).watermarks;
  }

  lemma SingleDescribes(r: SpoolRecord)
    requires DecodeValidated(r).Some?
    ensures var body := DecodeValidated(r).value;
      Describes(Summary(1, {body.casRef}, map[body.source := body.sequence], {r.generation}), [r])
  {
    hide DecodeValidated;
    var rs := [r];
    assert Body(rs, 0) == DecodeValidated(r).value && rs[0] == r;
  }

  /** A description fixes the summary. */
  lemma DescriptionIsUnique(a: Summary, b: Summary, rs: seq<SpoolRecord>)
    requires Describes(a, rs) && Describes(b, rs)
    ensures a == b
  {
    hide DecodeValidated;
    assert a.casRefs == b.casRefs;
    assert a.generations == b.generations;
    forall k | k in a.watermarks ensures k in b.watermarks && a.watermarks[k] == b.watermarks[k] {
      var i :| 0 <= i < |rs| && Body(rs, i).source == k && Body(rs, i).sequence == a.watermarks[k];
      var j :| 0 <= j < |rs| && Body(rs, j).source == k && Body(rs, j).sequence == b.watermarks[k];
    }
    forall k | k in b.watermarks ensures k in a.watermarks {
      var i :| 0 <= i < |rs| && Body(rs, i).source == k && Body(rs, i).sequence == b.watermarks[k];
    }
    assert a.watermarks == b.watermarks;
  }

  /** Union of references and generations, sum of counts, pointwise maximum of watermarks. */
  function Merge(a: Summary, b: Summary): Summary {
    Summary(a.frames + b.frames, a.casRefs + b.casRefs,
      map k | k in a.watermarks.Keys + b.watermarks.Keys ::
        if k !in a.watermarks then b.watermarks[k]
        else if k !in b.watermarks then a.watermarks[k]
        else Larger(a.watermarks[k], b.watermarks[k]),
      a.generations + b.generations)
  }

  lemma Joined(rs: seq<SpoolRecord>, qs: seq<SpoolRecord>)
    requires Decodable(rs) && Decodable(qs)
    ensures Decodable(rs + qs)
    ensures forall i :: 0 <= i < |rs| ==> Body(rs + qs, i) == Body(rs, i)
    ensures forall i :: |rs| <= i < |rs + qs| ==> Body(rs + qs, i) == Body(qs, i - |rs|)
    ensures forall i :: 0 <= i < |qs| ==> Body(rs + qs, |rs| + i) == Body(qs, i)
  {
    hide DecodeValidated;
  }

  lemma MergedRefs(a: set<Bytes>, rs: seq<SpoolRecord>, b: set<Bytes>, qs: seq<SpoolRecord>)
    requires Decodable(rs) && Decodable(qs) && HoldsRefs(a, rs) && HoldsRefs(b, qs)
    ensures Decodable(rs + qs) && HoldsRefs(a + b, rs + qs)
  {
    Joined(rs, qs);
    hide Decodable, Body;
    forall d | d in a + b ensures exists i :: 0 <= i < |rs + qs| && Body(rs + qs, i).casRef == d {
      if d in a {
        var i :| 0 <= i < |rs| && Body(rs, i).casRef == d;
        assert Body(rs + qs, i).casRef == d;
      } else {
        var i :| 0 <= i < |qs| && Body(qs, i).casRef == d;
        assert Body(rs + qs, |rs| + i).casRef == d;
      }
    }
  }

  lemma MergedGenerations(a: set<u64>, rs: seq<SpoolRecord>, b: set<u64>, qs: seq<SpoolRecord>)
    requires HoldsGenerations(a, rs) && HoldsGenerations(b, qs)
    ensures HoldsGenerations(a + b, rs + qs)
  {
    forall g | g in a + b ensures exists i :: 0 <= i < |rs + qs| && (rs + qs)[i].generation == g {
      if g in a {
        var i :| 0 <= i < |rs| && rs[i].generation == g;
        assert (rs + qs)[i].generation == g;
      } else {
        var i :| 0 <= i < |qs| && qs[i].generation == g;
        assert (rs + qs)[|rs| + i].generation == g;
      }
    }
  }

  lemma MergedBounds(a: Summary, rs: seq<SpoolRecord>, b: Summary, qs: seq<SpoolRecord>)
    requires Decodable(rs) && Decodable(qs) && Bounds(a.watermarks, rs) && Bounds(b.watermarks, qs)
    ensures Decodable(rs + qs) && Bounds(Merge(a, b).watermarks, rs + qs)
  {
    Joined(rs, qs);
    hide Decodable, Body;
  }

  lemma MergedAttained(a: Summary, rs: seq<SpoolRecord>, b: Summary, qs: seq<SpoolRecord>)
    requires Decodable(rs) && Decodable(qs) && Attained(a.watermarks, rs) && Attained(b.watermarks, qs)
    ensures Decodable(rs + qs) && Attained(Merge(a, b).watermarks, rs + qs)
  {
    Joined(rs, qs);
    hide Decodable, Body;
    var m := Merge(a, b).watermarks;
    forall k | k in m
      ensures exists i :: 0 <= i < |rs + qs| && Body(rs + qs, i).source == k && Body(rs + qs, i).sequence == m[k]
    {
      if k in a.watermarks && m[k] == a.watermarks[k] {
        var i :| 0 <= i < |rs| && Body(rs, i).source == k && Body(rs, i).sequence == m[k];
        assert Body(rs + qs, i) == Body(rs, i);
      } else {
        var i :| 0 <= i < |qs| && Body(qs, i).source == k && Body(qs, i).sequence == m[k];
        assert Body(rs + qs, |rs| + i) == Body(qs, i);
      }
    }
  }

  lemma MergeDescribes(a: Summary, rs: seq<SpoolRecord>, b: Summary, qs: seq<SpoolRecord>)
    requires Describes(a, rs) && Describes(b, qs)
    ensures Describes(Merge(a, b), rs + qs)
  {
    hide Decodable, HoldsRefs, HoldsGenerations, Bounds, Attained;
    MergedRefs(a.casRefs, rs, b.casRefs, qs);
    MergedGenerations(a.generations, rs, b.generations, qs);
    MergedBounds(a, rs, b, qs);
    MergedAttained(a, rs, b, qs);
  }

  /* ---------- the two operations ---------- */

  /** Accumulate the records of one file onto a summary. */
  method ObserveFrames(sum: Summary, ghost before: seq<SpoolRecord>, frames: seq<DecodedFrame>) returns (result: Option<Summary>)
    requires Describes(sum, before)
    ensures result.Some? <==> Decodable(Records(frames))
    ensures result.Some? ==> Describes(result.value, before + Records(frames))
  {
    hide DecodeValidated, Describes;
    var next := sum;
    assert before + [] == before;
    for i := 0 to |frames|
      invariant Decodable(Records(frames[..i]))
      invariant Describes(next, before + Records(frames[..i]))
    {
      var body := DecodeValidated(frames[i].record);
      assert Records(frames)[i] == frames[i].record;
      if body.None? {
        return None;
      }
      assert Records(frames[..i + 1]) == Records(frames[..i]) + [frames[i].record];
      ObserveDescribes(next, before + Records(frames[..i]), frames[i].record);
      assert before + Records(frames[..i]) + [frames[i].record] == before + Records(frames[..i + 1]);
      next := Observe(next, frames[i].record.generation, body.value);
    }
    assert frames[..|frames|] == frames;
    return Some(next);
  }

  /** A file both operations accept: within the limit, whole frames only, every body decodable. */
  ghost predicate Verifiable(c: Codec, bytes: Bytes, maxBytes: nat)
    requires Sound(c)
  {
    && 0 < |bytes| <= maxBytes && Healthy(c, bytes)
    && Decodable(WholeFrames(c, bytes)) && |WholeFrames(c, bytes)| <= U32_MAX
  }

  /** A sealed segment of either kind. */
  method VerifySegment(c: Codec, bytes: Bytes, maxBytes: nat) returns (result: Result<Summary, SpoolError>)
    requires Sound(c)
    ensures result.Ok? <==> Verifiable(c, bytes, maxBytes)
    ensures result.Ok? ==> Describes(result.value, WholeFrames(c, bytes))
  {
    hide Inverts, Detects, Exact, Stable, Scan, Decodable;
    if |bytes| == 0 || |bytes| > maxBytes {
      return Err(ResourceExhausted);
    }
    var scan := ScanFrames(c, bytes);
    if scan.Err? {
      return Err(FromFrameError(scan.error));
    }
    EncodeScanned(c, bytes);
    if scan.value.incompleteTail || scan.value.completeLength != |bytes| || scan.value.frames == [] {
      return Err(SpoolCorrupt);
    }
    NothingDescribed();
    var sum := ObserveFrames(NOTHING, [], scan.value.frames);
    assert [] + Records(scan.value.frames) == Records(scan.value.frames);
    if sum.None? {
      return Err(FrameInvalid);
    }
    if |scan.value.frames| > U32_MAX {
      return Err(ResourceExhausted);
    }
    return Ok(sum.value);
  }

  datatype FileKind = NormalFile | IsolatedFile | GapFile | QuarantineFile

  datatype Extension = SealedExtension | MarkerExtension | SpoolExtension | OtherExtension

  /** The parts of a file name that verification looks at. */
  datatype FileName = FileName(extension: Extension, isolatedPrefix: bool)

  type MarkerTest = f: Bytes -> bool | true witness ((b: Bytes) => false)

  /** Whether `decode_marker` accepts the bytes: an arbitrary predicate. */
  const MARKER_DECODES: MarkerTest

  predicate NameFits(kind: FileKind, name: FileName) {
    match kind
    case NormalFile => name.extension == SealedExtension && !name.isolatedPrefix
    case IsolatedFile => name.extension == SealedExtension && name.isolatedPrefix
    case GapFile => name.extension == MarkerExtension
    case QuarantineFile => name.extension == SpoolExtension
  }

  /** `verify_backup_spool_file`: only sealed segments are interpreted; a carrier in quarantine is taken as it is. */
  method VerifyBackupFile(c: Codec, kind: FileKind, name: FileName, bytes: Bytes, maxBytes: nat) returns (result: Result<Summary, SpoolError>)
    requires Sound(c)
    ensures result.Ok? <==>
      && 0 < |bytes| <= maxBytes && NameFits(kind, name)
      && (kind.NormalFile? || kind.IsolatedFile? ==> Verifiable(c, bytes, maxBytes))
      && (kind.GapFile? ==> MARKER_DECODES(bytes))
    ensures result.Ok? ==> Describes(result.value, if kind.NormalFile? || kind.IsolatedFile? then WholeFrames(c, bytes) else [])
  {
    hide Sound, Describes, WholeFrames;
    NothingDescribed();
    if |bytes| == 0 || |bytes| > maxBytes {
      return Err(ResourceExhausted);
    }
    if !NameFits(kind, name) {
      return Err(SpoolCorrupt);
    }
    match kind {
      case QuarantineFile => return Ok(NOTHING);
      case GapFile => return if MARKER_DECODES(bytes) then Ok(NOTHING) else Err(SpoolCorrupt);
      case _ => result := VerifySegment(c, bytes, maxBytes);
    }
  }

  lemma NothingDescribed()
    ensures Describes(NOTHING, [])
  {}

  /** The records of a list of files, in order. */
  ghost function AllRecords(c: Codec, files: seq<Bytes>): seq<SpoolRecord> {
    if files == [] then [] else AllRecords(c, files[..|files| - 1]) + WholeFrames(c, files[|files| - 1])
  }

  /** One claimed segment: scanned whole, counted with overflow checks, and observed. */
  method ObserveSegment(c: Codec, sum: Summary, ghost before: seq<SpoolRecord>, bytes: Bytes, high: nat, count: nat)
    returns (result: Result<Summary, SpoolError>, total: nat)
    requires Sound(c) && Describes(sum, before) && count <= U32_MAX
    ensures result.Ok? <==> Verifiable(c, bytes, high) && count + |WholeFrames(c, bytes)| <= U32_MAX
    ensures result.Ok? ==> Describes(result.value, before + WholeFrames(c, bytes)) && total == count + |WholeFrames(c, bytes)|
  {
    hide Inverts, Detects, Exact, Stable, Scan, Decodable, Describes, DecodeValidated;
    total := count;
    if |bytes| == 0 || |bytes| > high {
      return Err(SpoolCorrupt), total;
    }
    var scan := ScanFrames(c, bytes);
    if scan.Err? {
      return Err(FromFrameError(scan.error)), total;
    }
    if scan.value.incompleteTail || scan.value.frames == [] {
      return Err(SpoolCorrupt), total;
    }
    if |scan.value.frames| > U32_MAX || count + |scan.value.frames| > U32_MAX {
      return Err(ResourceExhausted), total;
    }
    total := count + |scan.value.frames|;
    var seen := ObserveFrames(sum, before, scan.value.frames);
    if seen.None? {
      return Err(FrameInvalid), total;
    }
    return Ok(seen.value), total;
  }

  /** One pass of the boundary's outer loop: all segments of one kind, with their checked frame count. */
  method ObserveSegments(c: Codec, sum: Summary, ghost before: seq<SpoolRecord>, files: seq<Bytes>, high: nat)
    returns (result: Result<Summary, SpoolError>, count: nat)
    requires Sound(c) && Describes(sum, before)
    ensures result.Ok? <==> (forall i :: 0 <= i < |files| ==> Verifiable(c, files[i], high)) && |AllRecords(c, files)| <= U32_MAX
    ensures result.Ok? ==> Describes(result.value, before + AllRecords(c, files)) && count == |AllRecords(c, files)|
  {
    hide Sound, WholeFrames, Verifiable, Describes;
    var next := sum;
    count := 0;
    assert before + AllRecords(c, files[..0]) == before;
    for i := 0 to |files|
      invariant forall j :: 0 <= j < i ==> Verifiable(c, files[j], high)
      invariant Describes(next, before + AllRecords(c, files[..i]))
      invariant count == |AllRecords(c, files[..i])| <= U32_MAX
    {
      CountGrows(c, files, i);
      var seen;
      seen, count := ObserveSegment(c, next, before + AllRecords(c, files[..i]), files[i], high, count);
      if seen.Err? {
        return seen, count;
      }
      assert files[..i + 1][..i] == files[..i];
      assert before + AllRecords(c, files[..i]) + WholeFrames(c, files[i]) == before + AllRecords(c, files[..i + 1]);
      next := seen.value;
    }
    assert files[..|files|] == files;
    return Ok(next), count;
  }

  lemma {:induction false} CountGrows(c: Codec, files: seq<Bytes>, i: nat)
    requires i < |files|
    ensures |AllRecords(c, files[..i + 1])| == |AllRecords(c, files[..i])| + |WholeFrames(c, files[i])|
    ensures |AllRecords(c, files[..i + 1])| <= |AllRecords(c, files)|
    decreases |files| - i
  {
    hide WholeFrames;
    assert files[..i + 1][..i] == files[..i];
    if i + 1 < |files| {
      CountGrows(c, files, i + 1);
    } else {
      assert files[..i + 1] == files;
    }
  }

  /** The boundary's loop over the segments it claimed: normal ones first, then isolated ones. */
  method ObserveBoundary(c: Codec, normal: seq<Bytes>, isolated: seq<Bytes>, high: nat)
    returns (result: Result<Summary, SpoolError>, normalFrames: nat, isolatedFrames: nat)
    requires Sound(c)
    ensures result.Ok? <==>
      && (forall i :: 0 <= i < |normal| ==> Verifiable(c, normal[i], high)) && |AllRecords(c, normal)| <= U32_MAX
      && (forall i :: 0 <= i < |isolated| ==> Verifiable(c, isolated[i], high)) && |AllRecords(c, isolated)| <= U32_MAX
    ensures result.Ok? ==>
      && Describes(result.value, AllRecords(c, normal) + AllRecords(c, isolated))
      && normalFrames == |AllRecords(c, normal)| && isolatedFrames == |AllRecords(c, isolated)|
  {
    hide Sound, Describes, AllRecords, Verifiable;
    normalFrames, isolatedFrames := 0, 0;
    NothingDescribed();
    var first;
    first, normalFrames := ObserveSegments(c, NOTHING, [], normal, high);
    assert [] + AllRecords(c, normal) == AllRecords(c, normal);
    if first.Err? {
      return first, normalFrames, isolatedFrames;
    }
    result, isolatedFrames := ObserveSegments(c, first.value, AllRecords(c, normal), isolated, high);
  }

  datatype Boundary = Boundary(summary: Summary, normalFrames: nat, isolatedFrames: nat, gaps: nat, carriers: nat)

  /**
   * `freeze_backup_boundary`: the claimed segments, the emergency markers and the quarantined carriers, all within
   * the configured limits.
   */
  method FreezeBoundary(c: Codec, limits: Limits, normal: seq<Bytes>, isolated: seq<Bytes>, markers: seq<Bytes>, carriers: seq<Bytes>)
    returns (result: Result<Boundary, SpoolError>)
    requires Sound(c)
    ensures result.Ok? <==>
      && |normal| + |isolated| <= limits.maxFiles && |carriers| <= limits.maxFiles
      && |markers| <= U32_MAX && |carriers| <= U32_MAX
      && (forall i :: 0 <= i < |markers| ==> MARKER_DECODES(markers[i]))
      && (forall i :: 0 <= i < |carriers| ==> 0 < |carriers[i]| <= limits.high)
      && (forall i :: 0 <= i < |normal| ==> Verifiable(c, normal[i], limits.high)) && |AllRecords(c, normal)| <= U32_MAX
      && (forall i :: 0 <= i < |isolated| ==> Verifiable(c, isolated[i], limits.high)) && |AllRecords(c, isolated)| <= U32_MAX
    ensures result.Ok? ==>
      && Describes(result.value.summary, AllRecords(c, normal) + AllRecords(c, isolated))
      && result.value.normalFrames == |AllRecords(c, normal)| && result.value.isolatedFrames == |AllRecords(c, isolated)|
      && result.value.gaps == |markers| && result.value.carriers == |carriers|
  {
    hide Sound, Describes, AllRecords, Verifiable;
    if |normal| + |isolated| > limits.maxFiles {
      return Err(ResourceExhausted);
    }
    for i := 0 to |markers|
      invariant forall j :: 0 <= j < i ==> MARKER_DECODES(markers[j])
    {
      if !MARKER_DECODES(markers[i]) {
        return Err(SpoolCorrupt);
      }
    }
    if |carriers| > limits.maxFiles {
      return Err(ResourceExhausted);
    }
    for i := 0 to |carriers|
      invariant forall j :: 0 <= j < i ==> 0 < |carriers[j]| <= limits.high
    {
      if |carriers[i]| == 0 || |carriers[i]| > limits.high {
        return Err(ResourceExhausted);
      }
    }
    var observed, normalFrames, isolatedFrames := ObserveBoundary(c, normal, isolated, limits.high);
    if observed.Err? {
      return Err(observed.error);
    }
    if |markers| > U32_MAX || |carriers| > U32_MAX {
      return Err(ResourceExhausted);
    }
    return Ok(Boundary(observed.value, normalFrames, isolatedFrames, |markers|, |carriers|));
  }

  /* ---------- agreement ---------- */

  function MergeAll(sums: seq<Summary>): Summary {
    if sums == [] then NOTHING else Merge(MergeAll(sums[..|sums| - 1]), sums[|sums| - 1])
  }

  lemma {:induction false} MergeAllDescribes(c: Codec, files: seq<Bytes>, sums: seq<Summary>)
    requires |sums| == |files| && forall i :: 0 <= i < |files| ==> Describes(sums[i], WholeFrames(c, files[i]))
    ensures Describes(MergeAll(sums), AllRecords(c, files))
  {
    hide Describes, WholeFrames;
    if files == [] {
      NothingDescribed();
    } else {
      var n := |files| - 1;
      MergeAllDescribes(c, files[..n], sums[..n]);
      MergeDescribes(MergeAll(sums[..n]), AllRecords(c, files[..n]), sums[n], WholeFrames(c, files[n]));
    }
  }

  /** The boundary is the merge of what verification computes for each file by itself. */
  lemma BoundaryAgreesWithFiles(c: Codec, normal: seq<Bytes>, isolated: seq<Bytes>, boundary: Summary,
                                normalSums: seq<Summary>, isolatedSums: seq<Summary>)
    requires |normalSums| == |normal| && |isolatedSums| == |isolated|
    requires forall i :: 0 <= i < |normal| ==> Describes(normalSums[i], WholeFrames(c, normal[i]))
    requires forall i :: 0 <= i < |isolated| ==> Describes(isolatedSums[i], WholeFrames(c, isolated[i]))
    requires Describes(boundary, AllRecords(c, normal) + AllRecords(c, isolated))
    ensures boundary == Merge(MergeAll(normalSums), MergeAll(isolatedSums))
  {
    hide Describes, WholeFrames, Merge, MergeAll, AllRecords;
    MergeAllDescribes(c, normal, normalSums);
    MergeAllDescribes(c, isolated, isolatedSums);
    MergeDescribes(MergeAll(normalSums), AllRecords(c, normal), MergeAll(isolatedSums), AllRecords(c, isolated));
    DescriptionIsUnique(boundary, Merge(MergeAll(normalSums), MergeAll(isolatedSums)), AllRecords(c, normal) + AllRecords(c, isolated));
  }
}
