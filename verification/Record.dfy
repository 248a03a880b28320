/** Spool records and the text they carry (`SpoolRecord`, `validate_record`). */
module Record {
  import opened Prelude

  /* ---------- strings and digests ---------- */

  predicate Continuation(b: u8) { 0x80 <= b <= 0xBF }

  /** Length of the well-formed UTF-8 sequence at the head of `s`, or 0 when there is none. */
  function Utf8Step(s: Bytes): (n: nat)
    requires s != []
    ensures n <= |s|
  {
    var a := s[0];
    if a <= 0x7F then 1
    else if 0xC2 <= a <= 0xDF then
      (if |s| >= 2 && Continuation(s[1]) then 2 else 0)
    else if 0xE0 <= a <= 0xEF then
      (if |s| >= 3 && Continuation(s[1]) && Continuation(s[2])
          && (a == 0xE0 ==> s[1] >= 0xA0) && (a == 0xED ==> s[1] <= 0x9F) then 3 else 0)
    else if 0xF0 <= a <= 0xF4 then
      (if |s| >= 4 && Continuation(s[1]) && Continuation(s[2]) && Continuation(s[3])
          && (a == 0xF0 ==> s[1] >= 0x90) && (a == 0xF4 ==> s[1] <= 0x8F) then 4 else 0)
    else 0
  }

  /** `str::from_utf8(s).is_ok()`. */
  predicate IsUtf8(s: Bytes) {
    s == [] || (Utf8Step(s) > 0 && IsUtf8(s[Utf8Step(s)..]))
  }

  type Utf8 = s: Bytes | IsUtf8(s)

  predicate IsHexDigit(b: u8) { 0x30 <= b <= 0x39 || 0x61 <= b <= 0x66 }

  /** `valid_digest`: 64 lower-case hexadecimal digits. */
  predicate IsDigest(s: Bytes) {
    |s| == 64 && forall i :: 0 <= i < |s| ==> IsHexDigit(s[i])
  }

  lemma {:induction false} HexIsUtf8(s: Bytes)
    requires forall i :: 0 <= i < |s| ==> IsHexDigit(s[i])
    ensures IsUtf8(s)
  {
    if s != [] {
      assert IsHexDigit(s[0]);
      HexIsUtf8(s[1..]);
    }
  }

  /* ---------- records ---------- */

  const MAX_RECORD_BODY: nat := 1_048_576

  datatype SpoolRecord = SpoolRecord(
    generation: u64, recordId: Utf8, observationId: Utf8, casRefs: seq<Utf8>, body: Bytes)

  predicate Distinct<T(==)>(s: seq<T>) {
    forall i, j :: 0 <= i < j < |s| ==> s[i] != s[j]
  }

  /** `validate_record`. */
  predicate ValidRecord(r: SpoolRecord) {
    && r.generation != 0
    && 0 < |r.recordId| <= 256
    && 0 < |r.observationId| <= 256
    && |r.body| <= MAX_RECORD_BODY
    && Distinct(r.casRefs)
    && forall i :: 0 <= i < |r.casRefs| ==> IsDigest(r.casRefs[i])
  }

  /** Exactly the records `encode_frame` accepts. */
  predicate Encodable(r: SpoolRecord) {
    ValidRecord(r) && |r.casRefs| <= 0xFFFF
  }

  /* ---------- record bodies ---------- */

  datatype SourceKey = SourceKey(instance: Bytes, revision: Bytes)

  /** The part of a capture record body that the spool looks at. */
  datatype CaptureBody = CaptureBody(
    casRef: Bytes, observationId: Bytes, protectedLength: u64, source: SourceKey, sequence: u64)

  /** `decode_record_body`, including its validation, as an arbitrary partial function of the bytes. */
  type BodyDecoder = f: Bytes -> Option<CaptureBody> | true witness ((b: Bytes) => None)

  const DECODE_BODY: BodyDecoder

  /** `decode_validated_record_body`: the body decodes and agrees with the record that carries it. */
  function DecodeValidated(r: SpoolRecord): Option<CaptureBody> {
    match DECODE_BODY(r.body)
    case None => None
    case Some(body) =>
      if r.observationId != body.observationId || r.casRefs != [body.casRef] then None else Some(body)
  }

  /** Every record's body decodes. */
  predicate Decodable(rs: seq<SpoolRecord>) {
    forall i :: 0 <= i < |rs| ==> DecodeValidated(rs[i]).Some?
  }
}
