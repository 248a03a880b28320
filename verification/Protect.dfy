/** Protecting a raw payload: detection, redaction and the keyed digest of what was removed (`protect`). */
module Protect {
  import opened Prelude
  import opened Detect
  import opened Redact
  import Canonical
  import Record
  import Paging

  datatype Payload = Payload(bytes: Bytes, rawLength: u64, spans: seq<Candidate>, digest: Option<Bytes>)

  datatype ProtectError = LengthOverflow | Digest

  type Mac = f: (Bytes, Bytes) -> Bytes | forall k, m :: |f(k, m)| == 32 witness ((k: Bytes, m: Bytes) => seq(32, _ => 0))

  /** HMAC-SHA-256 as an arbitrary total function of key and message. */
  const HMAC_SHA256: Mac

  function Spans(input: Bytes): seq<Candidate> { Resolve(DetectCandidates(input)) }

  /** The selected spans are ordered, inside the input, and at least eight bytes long. */
  lemma SpansAreOrdered(input: Bytes)
    ensures Ordered(|input|, Spans(input), 0)
    ensures forall c :: c in Spans(input) ==> WellFormed(input, c)
  {
    hide Resolve, DetectCandidates;
    var candidates := DetectCandidates(input);
    ResolveMeaning(candidates);
    forall c | c in Spans(input) ensures WellFormed(input, c) {
      CandidatesWellFormed(input, c);
    }
    SelectionOrdered(|input|, Spans(input), 0);
  }

  /**
   * Detection carried through selection: every span is a secret, and every secret is a span or overlaps one that
   * ranks no lower. A secret that overlaps no other is redacted as it stands.
   */
  lemma SpansAreTheSecrets(input: Bytes)
    ensures forall c :: c in Spans(input) ==> Secret(input, c)
    ensures forall c :: Secret(input, c) ==> c in Spans(input) || Covered(c, Spans(input))
    ensures forall c :: Secret(input, c) && (forall d :: Secret(input, d) && d != c ==> Apart(c, d)) ==> c in Spans(input)
  {
    hide Resolve, DetectCandidates, Secret, Covered, Apart;
    var candidates := DetectCandidates(input);
    ResolveMeaning(candidates);
    forall c ensures c in candidates <==> Secret(input, c) {
      CandidatesExactly(input, c);
    }
    forall c | Secret(input, c) && (forall d :: Secret(input, d) && d != c ==> Apart(c, d)) ensures c in Spans(input) {
      IsolatedIsSelected(candidates, c);
    }
  }

  /* ---------- the digest's message ---------- */

  const KIND: Bytes := [0x6B, 0x69, 0x6E, 0x64]                                            // kind
  const START: Bytes := [0x73, 0x74, 0x61, 0x72, 0x74]                                     // start
  const END: Bytes := [0x65, 0x6E, 0x64]                                                   // end
  const BYTES: Bytes := [0x62, 0x79, 0x74, 0x65, 0x73]                                     // bytes
  const RAW_LENGTH: Bytes := [0x72, 0x61, 0x77, 0x5F, 0x6C, 0x65, 0x6E, 0x67, 0x74, 0x68]  // raw_length
  const SPANS: Bytes := [0x73, 0x70, 0x61, 0x6E, 0x73]                                     // spans

  predicate Inside(input: Bytes, c: Candidate) { c.start < c.end <= |input| <= U64_MAX }

  predicate AllInside(input: Bytes, spans: seq<Candidate>) { forall c :: c in spans ==> Inside(input, c) }

  function DigestSpan(input: Bytes, c: Candidate): Canonical.Value
    requires Inside(input, c)
  {
    Canonical.Map([
      Canonical.Entry(KIND, Canonical.Str(KindText(c.kind))),
      Canonical.Entry(START, Canonical.Integer(c.start)),
      Canonical.Entry(END, Canonical.Integer(c.end)),
      Canonical.Entry(BYTES, Canonical.Raw(input[c.start..c.end]))])
  }

  function DigestSpans(input: Bytes, spans: seq<Candidate>): (r: seq<Canonical.Value>)
    requires AllInside(input, spans)
    ensures |r| == |spans| && forall i :: 0 <= i < |r| ==> r[i] == DigestSpan(input, spans[i])
  {
    if spans == [] then []
    else assert spans[0] in spans; [DigestSpan(input, spans[0])] + DigestSpans(input, spans[1..])
  }

  function DigestValue(input: Bytes, spans: seq<Candidate>): Canonical.Value
    requires |input| <= U64_MAX && AllInside(input, spans)
  {
    Canonical.Map([
      Canonical.Entry(RAW_LENGTH, Canonical.Integer(|input|)),
      Canonical.Entry(SPANS, Canonical.Sequence(DigestSpans(input, spans)))])
  }

  const SECRET_TAG: Bytes := [
    0x65, 0x76, 0x65, 0x72, 0x74, 0x72, 0x61, 0x63, 0x65, 0x2E, 0x70, 0x72, 0x6F, 0x74, 0x65, 0x63, 0x74, 0x65, 0x64,
    0x5F, 0x73, 0x65, 0x63, 0x72, 0x65, 0x74]  // evertrace.protected_secret

  const REDACTION_REVISION: Canonical.u32 := 1

  function DigestMessage(input: Bytes, spans: seq<Candidate>): Canonical.Encoded
    requires |input| <= U64_MAX && AllInside(input, spans)
  {
    Canonical.Encode(SECRET_TAG, REDACTION_REVISION, DigestValue(input, spans))
  }

  lemma SpanKeysDistinct(input: Bytes, c: Candidate)
    requires Inside(input, c)
    ensures Canonical.DistinctKeys(DigestSpan(input, c).entries)
  {
    assert KIND[0] != START[0] && KIND[0] != END[0] && KIND[0] != BYTES[0];
    assert START[0] != END[0] && START[0] != BYTES[0] && END[0] != BYTES[0];
  }

  lemma ValueKeysDistinct(input: Bytes, spans: seq<Candidate>)
    requires |input| <= U64_MAX && AllInside(input, spans)
    ensures Canonical.DistinctKeys(DigestValue(input, spans).entries)
  {
    assert RAW_LENGTH[0] != SPANS[0];
  }

  lemma SpanFits(input: Bytes, c: Candidate)
    requires Inside(input, c)
    ensures Canonical.NoDuplicates(DigestSpan(input, c)) && Canonical.LengthsFit(DigestSpan(input, c))
  {
    SpanKeysDistinct(input, c);
  }

  /** The digest never fails: its value has distinct keys and fitting lengths. */
  lemma DigestAlwaysEncodes(input: Bytes, spans: seq<Candidate>)
    requires |input| <= U64_MAX && AllInside(input, spans) && |spans| <= U64_MAX
    ensures DigestMessage(input, spans).Ok?
  {
    hide Canonical.EncodeValue, DigestSpan, Canonical.DistinctKeys;
    var v := DigestValue(input, spans);
    var items := DigestSpans(input, spans);
    forall i | 0 <= i < |items| ensures Canonical.NoDuplicates(items[i]) && Canonical.LengthsFit(items[i]) {
      SpanFits(input, spans[i]);
    }
    ValueKeysDistinct(input, spans);
    var list := Canonical.Sequence(items);
    assert Canonical.NoDuplicates(list) && Canonical.LengthsFit(list);
    assert v.entries[0].value == Canonical.Integer(|input|) && v.entries[1].value == list;
    assert Canonical.NoDuplicates(v.entries[0].value) && Canonical.LengthsFit(v.entries[0].value);
    assert |v.entries[0].key| == 10 && |v.entries[1].key| == 5;
    assert Canonical.NoDuplicates(v);
    assert Canonical.LengthsFit(v);
    Canonical.EncodesExactly(v);
  }

  lemma ScalarAgrees(v: Canonical.Value, w: Canonical.Value, i: nat)
    requires v.Map? && w.Map? && Canonical.Norm(v) == Canonical.Norm(w) && Canonical.DistinctKeys(w.entries)
    requires i < |v.entries| && i < |w.entries| && v.entries[i].key == w.entries[i].key
    requires !v.entries[i].value.Map? && !v.entries[i].value.Sequence?
    requires !w.entries[i].value.Map? && !w.entries[i].value.Sequence?
    ensures v.entries[i].value == w.entries[i].value
  {
    hide Canonical.Norm, Canonical.DistinctKeys;
    Canonical.NormLookup(v, w, i, i);
    Canonical.NormScalar(v.entries[i].value);
    Canonical.NormScalar(w.entries[i].value);
  }

  /** Equal normal forms of two span values mean equal spans over equal bytes. */
  lemma SpanDetermined(a: Bytes, c: Candidate, b: Bytes, d: Candidate)
    requires Inside(a, c) && Inside(b, d)
    requires Canonical.Norm(DigestSpan(a, c)) == Canonical.Norm(DigestSpan(b, d))
    ensures c == d && a[c.start..c.end] == b[d.start..d.end]
  {
    hide Canonical.Norm, KindText, Canonical.DistinctKeys;
    var v, w := DigestSpan(a, c), DigestSpan(b, d);
    SpanKeysDistinct(b, d);
    ScalarAgrees(v, w, 0);
    ScalarAgrees(v, w, 1);
    ScalarAgrees(v, w, 2);
    ScalarAgrees(v, w, 3);
    KindTextInjective(c.kind, d.kind);
  }

  /** The message determines the length, the spans and every removed byte. */
  lemma MessageDetermined(a: Bytes, s: seq<Candidate>, b: Bytes, t: seq<Candidate>)
    requires |a| <= U64_MAX && |b| <= U64_MAX && AllInside(a, s) && AllInside(b, t)
    requires DigestMessage(a, s).Ok? && DigestMessage(a, s) == DigestMessage(b, t)
    ensures |a| == |b| && s == t
    ensures Removed(a, s) == Removed(b, t)
  {
    hide Canonical.Encode, Canonical.Norm, Canonical.DistinctKeys, DigestSpan;
    var v, w := DigestValue(a, s), DigestValue(b, t);
    Canonical.EncodeIsCanonical(SECRET_TAG, REDACTION_REVISION, v, SECRET_TAG, REDACTION_REVISION, w);
    ValueKeysDistinct(b, t);
    ScalarAgrees(v, w, 0);
    Canonical.NormLookup(v, w, 1, 1);
    Canonical.NormItemsAgree(v.entries[1].value, w.entries[1].value);
    SpansDetermined(a, s, b, t);
  }

  lemma SpansDetermined(a: Bytes, s: seq<Candidate>, b: Bytes, t: seq<Candidate>)
    requires AllInside(a, s) && AllInside(b, t) && |s| == |t|
    requires forall i :: 0 <= i < |s| ==> Canonical.Norm(DigestSpans(a, s)[i]) == Canonical.Norm(DigestSpans(b, t)[i])
    ensures s == t && Removed(a, s) == Removed(b, t)
  {
    hide Canonical.Norm, DigestSpan;
    assert forall i :: 0 <= i < |s| ==> Inside(a, s[i]);
    assert forall i :: 0 <= i < |t| ==> Inside(b, t[i]);
    forall i | 0 <= i < |s| ensures s[i] == t[i] && a[s[i].start..s[i].end] == b[t[i].start..t[i].end] {
      assert Canonical.Norm(DigestSpans(a, s)[i]) == Canonical.Norm(DigestSpans(b, t)[i]);
      SpanDetermined(a, s[i], b, t[i]);
    }
  }

  /* ---------- the whole operation ---------- */

  method Protect(input: Bytes, key: Bytes) returns (r: Result<Payload, ProtectError>)
    ensures r.Err? <==> |input| > U64_MAX
    ensures r.Err? ==> r.error == LengthOverflow
    ensures Ordered(|input|, Spans(input), 0)
    ensures r.Ok? ==> forall c :: c in r.value.spans ==> Secret(input, c)
    ensures r.Ok? ==> forall c :: Secret(input, c) ==> c in r.value.spans || Covered(c, r.value.spans)
    ensures r.Ok? ==> AllInside(input, Spans(input)) && DigestMessage(input, Spans(input)).Ok?
    ensures r.Ok? ==>
      && r.value.spans == Spans(input) && r.value.rawLength == |input|
      && r.value.bytes == Spliced(input, Spans(input), 0)
      && r.value.digest == (if Spans(input) == [] then None else Some(HMAC_SHA256(key, DigestMessage(input, Spans(input)).value)))
  {
    hide Resolve, DetectCandidates, DigestValue, Canonical.Encode, Spliced, Secret, Covered;
    SpansAreOrdered(input);
    SpansAreTheSecrets(input);
    if |input| > U64_MAX {
      return Err(LengthOverflow);
    }
    PayloadFacts(input);
    var candidates := FindCandidates(input);
    var spans := ResolveOverlaps(candidates);
    if spans == [] {
      NothingSpliced(input);
      return Ok(Payload(input, |input|, spans, None));
    }
    var bytes := RedactSpans(input, spans);
    var message := Canonical.WriteCanonical(SECRET_TAG, REDACTION_REVISION, DigestValue(input, spans));
    if message.Err? {
      assert false;
    }
    return Ok(Payload(bytes, |input|, spans, Some(HMAC_SHA256(key, message.value))));
  }

  lemma NothingSpliced(input: Bytes)
    ensures Spliced(input, [], 0) == input
  {}

  /**
   * What a protected payload guarantees: its spans are in order and at least eight bytes long, the digest can
   * always be computed, the removed bytes restore the input, and the protected length is accounted for and at
   * most a quarter above the raw length.
   */
  lemma PayloadFacts(input: Bytes)
    requires |input| <= U64_MAX
    ensures Ordered(|input|, Spans(input), 0) && AllInside(input, Spans(input)) && DigestMessage(input, Spans(input)).Ok?
    ensures Restore(Spliced(input, Spans(input), 0), Spans(input), Removed(input, Spans(input)), 0) == input
    ensures |Spliced(input, Spans(input), 0)| == |input| - SpanTotal(Spans(input)) + 10 * |Spans(input)|
    ensures |Spliced(input, Spans(input), 0)| <= |input| + |input| / 4
  {
    hide Resolve, DetectCandidates, DigestMessage, Spliced, Restore, Removed, Spans;
    var spans := Spans(input);
    SpansAreOrdered(input);
    SplicedLength(input, spans, 0);
    SpanTotalAtLeast(spans);
    DigestAlwaysEncodes(input, spans);
    RestoreSpliced(input, spans, 0);
    assert input[0..] == input;
  }

  /** Protected bytes and digest message together determine the raw payload. */
  lemma PayloadDeterminesInput(a: Bytes, b: Bytes)
    requires |a| <= U64_MAX && |b| <= U64_MAX
    requires Ordered(|a|, Spans(a), 0) && AllInside(a, Spans(a)) && Ordered(|b|, Spans(b), 0) && AllInside(b, Spans(b))
    requires Spliced(a, Spans(a), 0) == Spliced(b, Spans(b), 0)
    requires DigestMessage(a, Spans(a)) == DigestMessage(b, Spans(b))
    ensures a == b
  {
    hide Resolve, DetectCandidates, DigestMessage, Spliced, Restore, Removed, Spans;
    PayloadFacts(a);
    PayloadFacts(b);
    MessageDetermined(a, Spans(a), b, Spans(b));
  }

  /** An admitted payload of at most one MiB never exhausts a page's CAS budget by itself. */
  lemma AdmittedPayloadFitsPage(input: Bytes, r: Record.SpoolRecord, body: Record.CaptureBody)
    requires |input| <= Record.MAX_RECORD_BODY && Ordered(|input|, Spans(input), 0)
    requires Record.DecodeValidated(r) == Some(body) && body.protectedLength == |Spliced(input, Spans(input), 0)|
    ensures Paging.Fits(r)
  {
    hide Resolve, DetectCandidates, DigestMessage, Spliced, Spans, Restore, Removed;
    PayloadFacts(input);
  }
}
