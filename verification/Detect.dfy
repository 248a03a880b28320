/** Secret detectors: assignments, bearer headers and PEM blocks (`protect.rs`). */
module Detect {
  import opened Prelude

  datatype SecretKind = ApiKey | Token | Credential | AuthorizationBearer | PemPrivateKey

  datatype Candidate = Candidate(start: nat, end: nat, kind: SecretKind)

  datatype Range = Range(start: nat, end: nat)

  /* ---------- bytes ---------- */

  predicate IsNameByte(b: u8) { 0x30 <= b <= 0x39 || 0x41 <= b <= 0x5A || 0x61 <= b <= 0x7A || b == 0x5F }

  predicate IsBlank(b: u8) { b == 0x20 || b == 0x09 }

  predicate IsBreak(b: u8) { b == 0x0D || b == 0x0A }

  /** `u8::is_ascii_whitespace`. */
  predicate IsSpace(b: u8) { b == 0x20 || b == 0x09 || b == 0x0A || b == 0x0C || b == 0x0D }

  function Lower(b: u8): u8 { if 0x41 <= b <= 0x5A then b + 0x20 else b }

  /** Comparison of bytes, exact or ignoring ASCII case. */
  predicate Same(fold: bool, a: u8, b: u8) { if fold then Lower(a) == Lower(b) else a == b }

  predicate OccursAt(input: Bytes, needle: Bytes, fold: bool, i: nat) {
    i + |needle| <= |input| && forall t :: 0 <= t < |needle| ==> Same(fold, input[i + t], needle[t])
  }

  /** The first occurrence at or after `from` (`windows(..).position(..)`). */
  function Find(input: Bytes, needle: Bytes, fold: bool, from: nat): (r: Option<nat>)
    ensures r.Some? ==> from <= r.value && OccursAt(input, needle, fold, r.value)
    ensures r.Some? ==> forall i :: from <= i < r.value ==> !OccursAt(input, needle, fold, i)
    ensures r.None? ==> forall i :: from <= i ==> !OccursAt(input, needle, fold, i)
    decreases |input| - from
  {
    if from + |needle| > |input| then None
    else if OccursAt(input, needle, fold, from) then Some(from)
    else if from == |input| then None
    else Find(input, needle, fold, from + 1)
  }

  /** No proper shift of the needle matches itself, so its occurrences never overlap. */
  ghost predicate NoSelfOverlap(needle: Bytes, fold: bool) {
    forall k :: 0 < k < |needle| ==> ShiftDiffers(needle, fold, k)
  }

  ghost predicate ShiftDiffers(needle: Bytes, fold: bool, k: nat) {
    exists t :: DiffersAt(needle, fold, k, t)
  }

  predicate DiffersAt(needle: Bytes, fold: bool, k: nat, t: nat) {
    t + k < |needle| && !Same(fold, needle[t], needle[t + k])
  }

  lemma OverlapForcesAgreement(input: Bytes, needle: Bytes, fold: bool, i: nat, k: nat)
    ensures OccursAt(input, needle, fold, i) && OccursAt(input, needle, fold, i + k) ==> !ShiftDiffers(needle, fold, k)
  {
    if OccursAt(input, needle, fold, i) && OccursAt(input, needle, fold, i + k) {
      forall t: nat | t + k < |needle| ensures Same(fold, needle[t], needle[t + k]) {
        assert Same(fold, input[i + k + t], needle[t]);
        assert Same(fold, input[i + (t + k)], needle[t + k]);
      }
    }
  }

  lemma OccurrencesApart(input: Bytes, needle: Bytes, fold: bool, i: nat, j: nat)
    requires NoSelfOverlap(needle, fold) && i < j
    requires OccursAt(input, needle, fold, i) && OccursAt(input, needle, fold, j)
    ensures i + |needle| <= j
  {
    hide OccursAt, ShiftDiffers;
    OverlapForcesAgreement(input, needle, fold, i, j - i);
  }

  /* ---------- the shared scan ---------- */

  /** What a detector finds behind the name at a position. */
  type Probe = nat -> Option<Range>

  /** The detectors' loop: find a name, probe it, resume behind the name. */
  function ScanFrom(input: Bytes, needle: Bytes, fold: bool, probe: Probe, kind: SecretKind, cursor: nat): seq<Candidate>
    requires needle != []
    decreases |input| - cursor
  {
    match Find(input, needle, fold, cursor)
    case None => []
    case Some(i) =>
      (match probe(i) case None => [] case Some(r) => [Candidate(r.start, r.end, kind)])
        + ScanFrom(input, needle, fold, probe, kind, i + |needle|)
  }

  /** The reference: probe every position at which the name occurs. */
  function Everywhere(input: Bytes, needle: Bytes, fold: bool, probe: Probe, kind: SecretKind, i: nat): seq<Candidate>
    decreases |input| - i
  {
    if i >= |input| then [] else
      (if OccursAt(input, needle, fold, i) && probe(i).Some?
       then [Candidate(probe(i).value.start, probe(i).value.end, kind)] else [])
        + Everywhere(input, needle, fold, probe, kind, i + 1)
  }

  lemma {:induction false} SkipTo(input: Bytes, needle: Bytes, fold: bool, probe: Probe, kind: SecretKind, i: nat, j: nat)
    requires i <= j <= |input| && forall k :: i <= k < j ==> !OccursAt(input, needle, fold, k)
    ensures Everywhere(input, needle, fold, probe, kind, i) == Everywhere(input, needle, fold, probe, kind, j)
    decreases j - i
  {
    if i < j {
      SkipTo(input, needle, fold, probe, kind, i + 1, j);
    }
  }

  /** Resuming behind a match skips nothing: the loop finds exactly what probing every position finds. */
  lemma {:induction false} ScanIsComplete(input: Bytes, needle: Bytes, fold: bool, probe: Probe, kind: SecretKind, cursor: nat)
    requires needle != [] && NoSelfOverlap(needle, fold) && cursor <= |input|
    ensures ScanFrom(input, needle, fold, probe, kind, cursor) == Everywhere(input, needle, fold, probe, kind, cursor)
    decreases |input| - cursor
  {
    hide NoSelfOverlap, OccursAt, Find;
    var found := Find(input, needle, fold, cursor);
    if found.None? {
      SkipTo(input, needle, fold, probe, kind, cursor, |input|);
    } else {
      var i, n := found.value, |needle|;
      OccurrenceFits(input, needle, fold, i);
      SkipTo(input, needle, fold, probe, kind, cursor, i);
      forall k | i + 1 <= k < i + n ensures !OccursAt(input, needle, fold, k) {
        if OccursAt(input, needle, fold, k) {
          OccurrencesApart(input, needle, fold, i, k);
        }
      }
      SkipTo(input, needle, fold, probe, kind, i + 1, i + n);
      ScanIsComplete(input, needle, fold, probe, kind, i + n);
    }
  }

  lemma OccurrenceFits(input: Bytes, needle: Bytes, fold: bool, i: nat)
    requires OccursAt(input, needle, fold, i)
    ensures i + |needle| <= |input|
  {}

  lemma {:induction false} EverywhereHolds(input: Bytes, needle: Bytes, fold: bool, probe: Probe, kind: SecretKind, from: nat, c: Candidate)
    ensures c in Everywhere(input, needle, fold, probe, kind, from) <==>
      exists i :: from <= i < |input| && OccursAt(input, needle, fold, i) && probe(i) == Some(Range(c.start, c.end)) && c.kind == kind
    decreases |input| - from
  {
    hide OccursAt;
    if from < |input| {
      EverywhereHolds(input, needle, fold, probe, kind, from + 1, c);
    }
  }

  /* ---------- assignments ---------- */

  function SkipBlanks(input: Bytes, i: nat): (j: nat)
    ensures i <= j && (i <= |input| ==> j <= |input|)
    decreases |input| - i
  {
    if i < |input| && IsBlank(input[i]) then SkipBlanks(input, i + 1) else i
  }

  predicate InValue(quote: Option<u8>, b: u8) {
    if quote.Some? then b != quote.value && !IsBreak(b)
    else !IsBlank(b) && !IsBreak(b) && b != 0x2C && b != 0x3B
  }

  function ValueEnd(input: Bytes, quote: Option<u8>, i: nat): (j: nat)
    ensures i <= j && (i <= |input| ==> j <= |input|)
    ensures forall k :: i <= k < j ==> k < |input| && InValue(quote, input[k])
    ensures j < |input| ==> !InValue(quote, input[j])
    decreases |input| - i
  {
    if i < |input| && InValue(quote, input[i]) then ValueEnd(input, quote, i + 1) else i
  }

  const MIN_SECRET: nat := 8

  function QuoteAt(input: Bytes, i: nat): Option<u8> {
    if i < |input| && (input[i] == 0x27 || input[i] == 0x22) then Some(input[i]) else None
  }

  /** A word-bounded name of `n` bytes at `start`, a separator, and a value of at least eight bytes. */
  function AssignedValue(input: Bytes, n: nat, start: nat): (r: Option<Range>)
    ensures r.Some? ==> r.value.start + MIN_SECRET <= r.value.end <= |input|
  {
    var after := start + n;
    if after > |input| then None
    else if (start > 0 && IsNameByte(input[start - 1])) || (after < |input| && IsNameByte(input[after])) then None
    else
      var separator := SkipBlanks(input, after);
      if separator >= |input| || (input[separator] != 0x3D && input[separator] != 0x3A) then None
      else
        var opening := SkipBlanks(input, separator + 1);
        var quote := QuoteAt(input, opening);
        var value := if quote.Some? then opening + 1 else opening;
        var end := ValueEnd(input, quote, value);
        if end - value >= MIN_SECRET then Some(Range(value, end)) else None
  }

  predicate AllBlank(input: Bytes, from: nat, to: nat) {
    from <= to <= |input| && forall k :: from <= k < to ==> IsBlank(input[k])
  }

  predicate Separates(b: u8) { b == 0x3D || b == 0x3A }

  /** The shape of an assignment, position by position: a bounded name, blanks, a separator, blanks, a value. */
  predicate Assigns(input: Bytes, n: nat, start: nat, separator: nat, opening: nat, value: Range) {
    var after := start + n;
    && after <= |input|
    && (start > 0 ==> !IsNameByte(input[start - 1]))
    && (after < |input| ==> !IsNameByte(input[after]))
    && AllBlank(input, after, separator)
    && separator < |input| && Separates(input[separator])
    && AllBlank(input, separator + 1, opening)
    && (opening < |input| ==> !IsBlank(input[opening]))
    && value.start == (if QuoteAt(input, opening).Some? then opening + 1 else opening)
    && MaximalValue(input, QuoteAt(input, opening), value)
  }

  /** A run of at least eight value bytes that cannot be extended. */
  predicate MaximalValue(input: Bytes, quote: Option<u8>, value: Range) {
    && value.start + MIN_SECRET <= value.end <= |input|
    && (forall k :: value.start <= k < value.end ==> InValue(quote, input[k]))
    && (value.end < |input| ==> !InValue(quote, input[value.end]))
  }

  lemma {:induction false} SkipIs(input: Bytes, from: nat, to: nat)
    requires from <= |input|
    ensures to == SkipBlanks(input, from) <==> AllBlank(input, from, to) && (to < |input| ==> !IsBlank(input[to]))
    decreases |input| - from
  {
    if from < |input| && IsBlank(input[from]) {
      SkipIs(input, from + 1, to);
    }
  }

  lemma EndIs(input: Bytes, quote: Option<u8>, from: nat, value: Range)
    requires value.start == from
    ensures MaximalValue(input, quote, value) <==> value.end == ValueEnd(input, quote, from) && value.end >= from + MIN_SECRET && from <= |input|
  {
    var end := ValueEnd(input, quote, from);
    if MaximalValue(input, quote, value) {
      assert end >= value.end;
    }
  }

  /** The scan of one occurrence computes the declarative shape. */
  lemma AssignedValueIs(input: Bytes, n: nat, start: nat, value: Range)
    ensures AssignedValue(input, n, start) == Some(value) <==>
      exists separator: nat, opening: nat :: Assigns(input, n, start, separator, opening, value)
  {
    hide SkipBlanks, ValueEnd, InValue, AllBlank, MaximalValue;
    var after := start + n;
    if after <= |input| {
      var s := SkipBlanks(input, after);
      SkipIs(input, after, s);
      if s < |input| {
        var o := SkipBlanks(input, s + 1);
        SkipIs(input, s + 1, o);
        EndIs(input, QuoteAt(input, o), value.start, value);
        if AssignedValue(input, n, start) == Some(value) {
          assert Assigns(input, n, start, s, o, value);
        }
      }
      if separator: nat, opening: nat :| Assigns(input, n, start, separator, opening, value) {
        assert !IsBlank(input[separator]);
        SkipIs(input, after, separator);
        SkipIs(input, separator + 1, opening);
      }
    }
  }

  const API_KEY_: Bytes := [0x61, 0x70, 0x69, 0x5F, 0x6B, 0x65, 0x79]                                    // api_key
  const APIKEY: Bytes := [0x61, 0x70, 0x69, 0x6B, 0x65, 0x79]                                            // apikey
  const ACCESS_TOKEN: Bytes := [0x61, 0x63, 0x63, 0x65, 0x73, 0x73, 0x5F, 0x74, 0x6F, 0x6B, 0x65, 0x6E]   // access_token
  const TOKEN: Bytes := [0x74, 0x6F, 0x6B, 0x65, 0x6E]                                                   // token
  const PASSWORD: Bytes := [0x70, 0x61, 0x73, 0x73, 0x77, 0x6F, 0x72, 0x64]                              // password
  const CREDENTIAL: Bytes := [0x63, 0x72, 0x65, 0x64, 0x65, 0x6E, 0x74, 0x69, 0x61, 0x6C]                // credential
  const SECRET_KEY: Bytes := [0x73, 0x65, 0x63, 0x72, 0x65, 0x74, 0x5F, 0x6B, 0x65, 0x79]                // secret_key

  datatype Name = Name(bytes: Bytes, kind: SecretKind)

  const NAMES: seq<Name> := [
    Name(API_KEY_, ApiKey), Name(APIKEY, ApiKey), Name(ACCESS_TOKEN, Token), Name(TOKEN, Token),
    Name(PASSWORD, Credential), Name(CREDENTIAL, Credential), Name(SECRET_KEY, Credential)]

  /** A name whose first letter never recurs cannot overlap itself. */
  lemma FirstLetterUnique(name: Bytes)
    requires forall k :: 0 < k < |name| ==> Lower(name[k]) != Lower(name[0])
    ensures NoSelfOverlap(name, true)
  {
    forall k | 0 < k < |name| ensures ShiftDiffers(name, true, k) {
      assert DiffersAt(name, true, k, 0);
    }
  }

  lemma NamesDoNotOverlap(i: nat)
    requires i < |NAMES|
    ensures NAMES[i].bytes != [] && NoSelfOverlap(NAMES[i].bytes, true)
  {
    hide NoSelfOverlap;
    FirstLetterUnique(API_KEY_);
    FirstLetterUnique(APIKEY);
    FirstLetterUnique(ACCESS_TOKEN);
    FirstLetterUnique(TOKEN);
    FirstLetterUnique(PASSWORD);
    FirstLetterUnique(CREDENTIAL);
    FirstLetterUnique(SECRET_KEY);
  }

  function AssignmentProbe(input: Bytes, n: nat): Probe { (i: nat) => AssignedValue(input, n, i) }

  function DetectAssignment(input: Bytes, name: Name): seq<Candidate> {
    if name.bytes == [] then [] else
    ScanFrom(input, name.bytes, true, AssignmentProbe(input, |name.bytes|), name.kind, 0)
  }

  /** The name occurs at `at`, in any case, and is assigned the candidate's range. */
  ghost predicate AssignedAt(input: Bytes, name: Bytes, at: nat, c: Candidate) {
    && OccursAt(input, name, true, at)
    && exists separator: nat, opening: nat :: Assigns(input, |name|, at, separator, opening, Range(c.start, c.end))
  }

  /** For each of the seven names: a candidate for exactly every assignment, nowhere else. */
  lemma AssignmentsAreComplete(input: Bytes, i: nat, c: Candidate)
    requires i < |NAMES|
    ensures c in DetectAssignment(input, NAMES[i]) <==>
      c.kind == NAMES[i].kind && exists at: nat :: AssignedAt(input, NAMES[i].bytes, at, c)
  {
    hide NoSelfOverlap, OccursAt, AssignedValue, Assigns;
    NamesDoNotOverlap(i);
    var name := NAMES[i];
    var n := |name.bytes|;
    var probe := AssignmentProbe(input, n);
    ScanIsComplete(input, name.bytes, true, probe, name.kind, 0);
    EverywhereHolds(input, name.bytes, true, probe, name.kind, 0, c);
    if at: nat :| AssignedAt(input, name.bytes, at, c) {
      OccurrenceFits(input, name.bytes, true, at);
      AssignedValueIs(input, n, at, Range(c.start, c.end));
    }
    if at :| 0 <= at < |input| && OccursAt(input, name.bytes, true, at) && probe(at) == Some(Range(c.start, c.end)) {
      AssignedValueIs(input, n, at, Range(c.start, c.end));
      assert AssignedAt(input, name.bytes, at, c);
    }
  }

  /* ---------- bearer headers ---------- */

  const AUTHORIZATION: Bytes := [0x61, 0x75, 0x74, 0x68, 0x6F, 0x72, 0x69, 0x7A, 0x61, 0x74, 0x69, 0x6F, 0x6E]  // authorization
  const BEARER: Bytes := [0x62, 0x65, 0x61, 0x72, 0x65, 0x72]                                                  // bearer

  function TokenEnd(input: Bytes, i: nat): (j: nat)
    ensures i <= j && (i <= |input| ==> j <= |input|)
    ensures forall k :: i <= k < j ==> k < |input| && !IsSpace(input[k])
    ensures j < |input| ==> IsSpace(input[j])
    decreases |input| - i
  {
    if i < |input| && !IsSpace(input[i]) then TokenEnd(input, i + 1) else i
  }

  function BearerValue(input: Bytes, start: nat): (r: Option<Range>)
    ensures r.Some? ==> r.value.start + MIN_SECRET <= r.value.end <= |input|
  {
    var after := start + |AUTHORIZATION|;
    if after > |input| || (start > 0 && IsNameByte(input[start - 1])) then None
    else
      var colon := SkipBlanks(input, after);
      if colon >= |input| || input[colon] != 0x3A then None
      else
        var scheme := SkipBlanks(input, colon + 1);
        if !OccursAt(input, BEARER, true, scheme) then None
        else
          var gap := scheme + |BEARER|;
          if gap >= |input| || !IsSpace(input[gap]) then None
          else
            var token := SkipBlanks(input, gap);
            var end := TokenEnd(input, token);
            if end - token >= MIN_SECRET then Some(Range(token, end)) else None
  }

  /** The shape of a bearer header: an unprefixed name, a colon, the scheme, white space, a maximal token. */
  predicate Bears(input: Bytes, start: nat, colon: nat, scheme: nat, value: Range) {
    var after := start + |AUTHORIZATION|;
    && after <= |input|
    && (start > 0 ==> !IsNameByte(input[start - 1]))
    && AllBlank(input, after, colon)
    && colon < |input| && input[colon] == 0x3A
    && AllBlank(input, colon + 1, scheme)
    && OccursAt(input, BEARER, true, scheme)
    && var gap := scheme + |BEARER|;
    && gap < |input| && IsSpace(input[gap])
    && AllBlank(input, gap, value.start) && (value.start < |input| ==> !IsBlank(input[value.start]))
    && MaximalToken(input, value)
  }

  predicate MaximalToken(input: Bytes, value: Range) {
    && value.start + MIN_SECRET <= value.end <= |input|
    && (forall k :: value.start <= k < value.end ==> !IsSpace(input[k]))
    && (value.end < |input| ==> IsSpace(input[value.end]))
  }

  lemma TokenIs(input: Bytes, value: Range)
    ensures MaximalToken(input, value) <==>
      value.end == TokenEnd(input, value.start) && value.end >= value.start + MIN_SECRET && value.start <= |input|
  {
    var end := TokenEnd(input, value.start);
    if MaximalToken(input, value) {
      assert end >= value.end;
    }
  }

  /** The scheme's first letter is not blank, so the run of blanks before it is maximal. */
  lemma SchemeIsNotBlank(input: Bytes, scheme: nat)
    requires OccursAt(input, BEARER, true, scheme)
    ensures scheme + |BEARER| <= |input| && !IsBlank(input[scheme])
  {
    assert Same(true, input[scheme + 0], BEARER[0]);
  }

  /** The scan of one occurrence computes the declarative shape. */
  lemma BearerValueIs(input: Bytes, start: nat, value: Range)
    ensures BearerValue(input, start) == Some(value) <==>
      exists colon: nat, scheme: nat :: Bears(input, start, colon, scheme, value)
  {
    hide SkipBlanks, TokenEnd, AllBlank, MaximalToken, OccursAt, IsNameByte, AUTHORIZATION;
    var after := start + |AUTHORIZATION|;
    if after <= |input| {
      var c := SkipBlanks(input, after);
      SkipIs(input, after, c);
      if c < |input| {
        var s := SkipBlanks(input, c + 1);
        SkipIs(input, c + 1, s);
        TokenIs(input, value);
        if OccursAt(input, BEARER, true, s) {
          SchemeIsNotBlank(input, s);
          SkipIs(input, s + |BEARER|, value.start);
          if BearerValue(input, start) == Some(value) {
            assert Bears(input, start, c, s, value);
          }
        }
      }
      if colon: nat, scheme: nat :| Bears(input, start, colon, scheme, value) {
        SchemeIsNotBlank(input, scheme);
        SkipIs(input, after, colon);
        SkipIs(input, colon + 1, scheme);
      }
    }
  }

  function BearerProbe(input: Bytes): Probe { (i: nat) => BearerValue(input, i) }

  function DetectBearer(input: Bytes): seq<Candidate> {
    ScanFrom(input, AUTHORIZATION, true, BearerProbe(input), AuthorizationBearer, 0)
  }

  lemma AuthorizationDoesNotOverlap()
    ensures AUTHORIZATION != [] && NoSelfOverlap(AUTHORIZATION, true)
  {
    var n := AUTHORIZATION;
    forall k | 0 < k < |n| ensures ShiftDiffers(n, true, k) {
      assert DiffersAt(n, true, k, if k == 8 then 1 else 0);
    }
  }

  ghost predicate BearerAt(input: Bytes, at: nat, c: Candidate) {
    && OccursAt(input, AUTHORIZATION, true, at)
    && exists colon: nat, scheme: nat :: Bears(input, at, colon, scheme, Range(c.start, c.end))
  }

  /** A candidate for exactly every bearer header, nowhere else. */
  lemma BearersAreComplete(input: Bytes, c: Candidate)
    ensures c in DetectBearer(input) <==> c.kind == AuthorizationBearer && exists at: nat :: BearerAt(input, at, c)
  {
    hide NoSelfOverlap, OccursAt, BearerValue, Bears, AUTHORIZATION;
    AuthorizationDoesNotOverlap();
    var probe := BearerProbe(input);
    ScanIsComplete(input, AUTHORIZATION, true, probe, AuthorizationBearer, 0);
    EverywhereHolds(input, AUTHORIZATION, true, probe, AuthorizationBearer, 0, c);
    if at: nat :| BearerAt(input, at, c) {
      OccurrenceFits(input, AUTHORIZATION, true, at);
      BearerValueIs(input, at, Range(c.start, c.end));
    }
    if at :| 0 <= at < |input| && OccursAt(input, AUTHORIZATION, true, at) && probe(at) == Some(Range(c.start, c.end)) {
      BearerValueIs(input, at, Range(c.start, c.end));
      assert BearerAt(input, at, c);
    }
  }

  /* ---------- PEM blocks ---------- */

  const BEGIN: Bytes := [0x2D, 0x2D, 0x2D, 0x2D, 0x2D, 0x42, 0x45, 0x47, 0x49, 0x4E, 0x20]  // -----BEGIN
  const PRIVATE: Bytes := [0x50, 0x52, 0x49, 0x56, 0x41, 0x54, 0x45, 0x20, 0x4B, 0x45, 0x59, 0x2D, 0x2D, 0x2D, 0x2D, 0x2D]  // PRIVATE KEY-----
  const END_PREFIX: Bytes := [0x2D, 0x2D, 0x2D, 0x2D, 0x2D, 0x45, 0x4E, 0x44, 0x20]  // -----END
  const DASHES: Bytes := [0x2D, 0x2D, 0x2D, 0x2D, 0x2D]

  /** Where the label of a block opened at `start` ends, if a private-key label follows at all. */
  function LabelEnd(input: Bytes, start: nat): (r: Option<nat>)
    ensures r.Some? ==> start + |BEGIN| + |PRIVATE| <= r.value <= |input|
  {
    match Find(input, PRIVATE, false, start + |BEGIN|)
    case None => None
    case Some(i) => Some(i + |PRIVATE|)
  }

  /** The block closed by the end marker that repeats its label. */
  function PemEnd(input: Bytes, start: nat): (r: Option<nat>)
    ensures r.Some? ==> start + MIN_SECRET <= r.value <= |input|
  {
    match LabelEnd(input, start)
    case None => None
    case Some(labelEnd) =>
      var marker := END_PREFIX + input[start + |BEGIN|..labelEnd - |DASHES|] + DASHES;
      match Find(input, marker, false, labelEnd)
      case None => None
      case Some(i) => Some(i + |marker|)
  }

  function PemFrom(input: Bytes, cursor: nat): seq<Candidate>
    decreases |input| - cursor
  {
    match Find(input, BEGIN, false, cursor)
    case None => []
    case Some(start) =>
      if LabelEnd(input, start).None? then []
      else match PemEnd(input, start)
        case Some(end) => [Candidate(start, end, PemPrivateKey)] + PemFrom(input, end)
        case None => PemFrom(input, start + |BEGIN|)
  }

  function DetectPem(input: Bytes): seq<Candidate> { PemFrom(input, 0) }

  lemma BeginDoesNotOverlap()
    ensures NoSelfOverlap(BEGIN, false)
  {
    var n := BEGIN;
    forall k | 0 < k < |n| ensures ShiftDiffers(n, false, k) {
      assert DiffersAt(n, false, k, |n| - k - 1);
    }
  }

  /** A later opening finds no label that an earlier one did not. */
  lemma LabelMonotone(input: Bytes, start: nat, later: nat)
    requires start <= later && LabelEnd(input, start).None?
    ensures LabelEnd(input, later).None?
  {
    hide OccursAt;
  }

  /** A block is opened at `start` and can be closed. */
  predicate Closable(input: Bytes, start: nat) { OccursAt(input, BEGIN, false, start) && PemEnd(input, start).Some? }

  /** Every candidate is a block closed by its own label. */
  lemma {:induction false} PemFromSound(input: Bytes, cursor: nat, c: Candidate)
    requires c in PemFrom(input, cursor)
    ensures c.start >= cursor && Closable(input, c.start) && PemEnd(input, c.start) == Some(c.end) && c.kind == PemPrivateKey
    decreases |input| - cursor
  {
    hide OccursAt, PemEnd, LabelEnd, Find, PemFrom;
    PemStep(input, cursor);
    var b := Find(input, BEGIN, false, cursor).value;
    OccurrenceFits(input, BEGIN, false, b);
    if PemEnd(input, b).None? {
      PemFromSound(input, b + |BEGIN|, c);
    } else if c != Candidate(b, PemEnd(input, b).value, PemPrivateKey) {
      PemFromSound(input, PemEnd(input, b).value, c);
    }
  }

  /** Every closable block starts inside some candidate. */
  lemma {:induction false} PemFromCovers(input: Bytes, cursor: nat, start: nat) returns (c: Candidate)
    requires start >= cursor && Closable(input, start)
    ensures c in PemFrom(input, cursor) && c.start <= start < c.end
    decreases |input| - cursor
  {
    hide OccursAt, PemEnd, LabelEnd, Find, PemFrom;
    PemStep(input, cursor);
    var found := Find(input, BEGIN, false, cursor);
    assert found.Some? && found.value <= start;
    var b := found.value;
    OccurrenceFits(input, BEGIN, false, b);
    if LabelEnd(input, b).None? {
      NoLabelNoBlock(input, b, start);
      assert false;
    }
    if PemEnd(input, b).None? {
      BeginDoesNotOverlap();
      OccurrencesApart(input, BEGIN, false, b, start);
      c := PemFromCovers(input, b + |BEGIN|, start);
    } else if start < PemEnd(input, b).value {
      c := Candidate(b, PemEnd(input, b).value, PemPrivateKey);
    } else {
      c := PemFromCovers(input, PemEnd(input, b).value, start);
    }
  }

  lemma NoLabelNoBlock(input: Bytes, b: nat, start: nat)
    requires LabelEnd(input, b).None? && b <= start
    ensures PemEnd(input, start).None?
  {
    hide LabelEnd;
    LabelMonotone(input, b, start);
  }

  /** `p` is the first occurrence of the needle at or behind `from`. */
  predicate FirstFrom(input: Bytes, needle: Bytes, from: nat, p: nat) {
    && from <= p && OccursAt(input, needle, false, p)
    && forall i :: from <= i < p ==> !OccursAt(input, needle, false, i)
  }

  /** The end marker of a block whose label lies in `input[from..to]`. */
  function EndMarker(input: Bytes, from: nat, to: nat): Bytes
    requires from <= to <= |input|
  {
    END_PREFIX + input[from..to] + DASHES
  }

  /**
   * A block by its positions: the opening marker at `start`, the first private-key label behind it ending at
   * `named + 16`, and the first end marker behind that which repeats the label, at `close`.
   */
  predicate Block(input: Bytes, start: nat, named: nat, close: nat, end: nat) {
    && OccursAt(input, BEGIN, false, start)
    && FirstFrom(input, PRIVATE, start + |BEGIN|, named)
    && named + |PRIVATE| <= |input|
    && var marker := EndMarker(input, start + |BEGIN|, named + |PRIVATE| - |DASHES|);
    && FirstFrom(input, marker, named + |PRIVATE|, close)
    && end == close + |marker|
  }

  ghost predicate PemBlock(input: Bytes, start: nat, end: nat) {
    exists named: nat, close: nat :: Block(input, start, named, close, end)
  }

  lemma FindIsFirst(input: Bytes, needle: Bytes, from: nat, p: nat)
    ensures Find(input, needle, false, from) == Some(p) <==> FirstFrom(input, needle, from, p)
  {
    hide OccursAt;
  }

  /** The two searches compute the block's positions. */
  lemma PemEndIs(input: Bytes, start: nat, end: nat)
    ensures OccursAt(input, BEGIN, false, start) && PemEnd(input, start) == Some(end) <==> PemBlock(input, start, end)
  {
    hide OccursAt, Find, FirstFrom;
    var found := Find(input, PRIVATE, false, start + |BEGIN|);
    if OccursAt(input, BEGIN, false, start) && PemEnd(input, start) == Some(end) {
      var named := found.value;
      FindIsFirst(input, PRIVATE, start + |BEGIN|, named);
      var marker := EndMarker(input, start + |BEGIN|, named + |PRIVATE| - |DASHES|);
      var close := Find(input, marker, false, named + |PRIVATE|).value;
      FindIsFirst(input, marker, named + |PRIVATE|, close);
      assert Block(input, start, named, close, end);
    }
    if named: nat, close: nat :| Block(input, start, named, close, end) {
      FindIsFirst(input, PRIVATE, start + |BEGIN|, named);
      var marker := EndMarker(input, start + |BEGIN|, named + |PRIVATE| - |DASHES|);
      FindIsFirst(input, marker, named + |PRIVATE|, close);
    }
  }

  /** A block is reported exactly unless it opens inside one that is reported. */
  ghost predicate PemReported(input: Bytes, c: Candidate)
    decreases c.start
  {
    && c.kind == PemPrivateKey && PemBlock(input, c.start, c.end)
    && forall d: Candidate :: d.start < c.start < d.end ==> !PemReported(input, d)
  }

  /** Reported blocks do not overlap. */
  lemma {:induction false} PemApart(input: Bytes, cursor: nat, a: Candidate, b: Candidate)
    requires a in PemFrom(input, cursor) && b in PemFrom(input, cursor) && a.start < b.start
    ensures a.end <= b.start
    decreases |input| - cursor
  {
    hide OccursAt, PemEnd, LabelEnd, Find, PemFrom;
    PemStep(input, cursor);
    var start := Find(input, BEGIN, false, cursor).value;
    OccurrenceFits(input, BEGIN, false, start);
    if PemEnd(input, start).None? {
      PemApart(input, start + |BEGIN|, a, b);
    } else {
      var end := PemEnd(input, start).value;
      if b in PemFrom(input, end) {
        PemFromSound(input, end, b);
      }
      if a in PemFrom(input, end) {
        PemFromSound(input, end, a);
        PemApart(input, end, a, b);
      }
    }
  }

  lemma PemReportedIs(input: Bytes, c: Candidate)
    ensures PemReported(input, c) <==>
      && c.kind == PemPrivateKey && PemBlock(input, c.start, c.end)
      && forall d: Candidate :: d.start < c.start < d.end ==> !PemReported(input, d)
  {
    hide PemBlock;
  }

  /** The loop and the description agree on every block that opens before `start`. */
  ghost predicate AgreeBefore(input: Bytes, start: nat) {
    forall d: Candidate :: d.start < start ==> (d in DetectPem(input) <==> PemReported(input, d))
  }

  lemma FoundIsReported(input: Bytes, c: Candidate)
    requires c in DetectPem(input) && AgreeBefore(input, c.start)
    ensures PemReported(input, c)
  {
    hide OccursAt, PemEnd, PemFrom, PemBlock, PemReported;
    PemFromSound(input, 0, c);
    PemEndIs(input, c.start, c.end);
    forall d: Candidate | d.start < c.start < d.end ensures !PemReported(input, d) {
      if d in DetectPem(input) {
        PemApart(input, 0, d, c);
      }
    }
    PemReportedIs(input, c);
  }

  lemma ReportedIsFound(input: Bytes, c: Candidate)
    requires PemReported(input, c) && AgreeBefore(input, c.start)
    ensures c in DetectPem(input)
  {
    hide OccursAt, PemEnd, PemFrom, PemBlock, PemReported;
    PemEndIs(input, c.start, c.end);
    PemReportedIs(input, c);
    var e := PemFromCovers(input, 0, c.start);
    PemFromSound(input, 0, e);
    if e.start < c.start {
      assert false;
    }
  }

  /** The resuming loop reports exactly the blocks that open outside every reported one. */
  lemma {:induction false} PemBlocksAreComplete(input: Bytes, c: Candidate)
    ensures c in DetectPem(input) <==> PemReported(input, c)
    decreases c.start
  {
    hide DetectPem, PemReported;
    forall d: Candidate | d.start < c.start ensures d in DetectPem(input) <==> PemReported(input, d) {
      PemBlocksAreComplete(input, d);
    }
    if c in DetectPem(input) {
      FoundIsReported(input, c);
    }
    if PemReported(input, c) {
      ReportedIsFound(input, c);
    }
  }

  /* ---------- all detectors ---------- */

  function AssignmentsFrom(input: Bytes, i: nat): seq<Candidate>
    decreases |NAMES| - i
  {
    if i >= |NAMES| then [] else DetectAssignment(input, NAMES[i]) + AssignmentsFrom(input, i + 1)
  }

  function DetectCandidates(input: Bytes): seq<Candidate> {
    DetectPem(input) + DetectBearer(input) + AssignmentsFrom(input, 0)
  }

  /** Assigned to one of the seven names, with that name's kind. */
  ghost predicate NamedSecret(input: Bytes, c: Candidate) {
    exists i, at: nat :: 0 <= i < |NAMES| && c.kind == NAMES[i].kind && AssignedAt(input, NAMES[i].bytes, at, c)
  }

  ghost predicate BearerSecret(input: Bytes, c: Candidate) {
    c.kind == AuthorizationBearer && exists at: nat :: BearerAt(input, at, c)
  }

  /** What counts as a secret, by shapes and positions only. */
  ghost predicate Secret(input: Bytes, c: Candidate) {
    PemReported(input, c) || BearerSecret(input, c) || NamedSecret(input, c)
  }

  predicate FoundBy(input: Bytes, i: nat, c: Candidate) { i < |NAMES| && c in DetectAssignment(input, NAMES[i]) }

  lemma AssignmentsStep(input: Bytes, from: nat, c: Candidate)
    ensures c in AssignmentsFrom(input, from) <==>
      from < |NAMES| && (c in DetectAssignment(input, NAMES[from]) || c in AssignmentsFrom(input, from + 1))
  {
    hide DetectAssignment, NAMES;
  }

  lemma {:induction false} AssignmentsFromHolds(input: Bytes, from: nat, c: Candidate)
    ensures c in AssignmentsFrom(input, from) <==> exists i: nat :: from <= i && FoundBy(input, i, c)
    decreases |NAMES| - from
  {
    hide DetectAssignment, NAMES, AssignmentsFrom;
    AssignmentsStep(input, from, c);
    if from < |NAMES| {
      AssignmentsFromHolds(input, from + 1, c);
      if c in DetectAssignment(input, NAMES[from]) {
        assert FoundBy(input, from, c);
      }
    }
  }

  lemma NamedSecretsAreComplete(input: Bytes, c: Candidate)
    ensures c in AssignmentsFrom(input, 0) <==> NamedSecret(input, c)
  {
    hide DetectAssignment, NAMES, AssignedAt, AssignmentsFrom;
    AssignmentsFromHolds(input, 0, c);
    forall i: nat | i < |NAMES|
      ensures FoundBy(input, i, c) <==> c.kind == NAMES[i].kind && exists at: nat :: AssignedAt(input, NAMES[i].bytes, at, c)
    {
      AssignmentsAreComplete(input, i, c);
    }
    if i, at: nat :| 0 <= i < |NAMES| && c.kind == NAMES[i].kind && AssignedAt(input, NAMES[i].bytes, at, c) {
      assert FoundBy(input, i, c);
    }
  }

  /** The candidates are exactly the secrets: reported blocks, bearer headers and assignments to the seven names. */
  lemma CandidatesExactly(input: Bytes, c: Candidate)
    ensures c in DetectCandidates(input) <==> Secret(input, c)
  {
    hide DetectPem, DetectBearer, AssignmentsFrom, PemReported, NamedSecret, BearerAt;
    PemBlocksAreComplete(input, c);
    BearersAreComplete(input, c);
    NamedSecretsAreComplete(input, c);
  }

  predicate WellFormed(input: Bytes, c: Candidate) { c.start + MIN_SECRET <= c.end <= |input| }

  lemma {:induction false} AssignmentsWellFormed(input: Bytes, i: nat, c: Candidate)
    requires c in AssignmentsFrom(input, i)
    ensures WellFormed(input, c)
    decreases |NAMES| - i
  {
    hide OccursAt, AssignedValue, DetectAssignment, NAMES;
    if c in DetectAssignment(input, NAMES[i]) {
      AssignmentsAreComplete(input, i, c);
      var at: nat :| AssignedAt(input, NAMES[i].bytes, at, c);
      AssignedValueIs(input, |NAMES[i].bytes|, at, Range(c.start, c.end));
    } else {
      AssignmentsWellFormed(input, i + 1, c);
    }
  }

  /** Every candidate lies inside the input and is at least eight bytes long. */
  lemma CandidatesWellFormed(input: Bytes, c: Candidate)
    requires c in DetectCandidates(input)
    ensures WellFormed(input, c)
  {
    hide OccursAt, BearerValue, PemEnd, PemFrom, ScanFrom, AssignmentsFrom;
    if c in DetectPem(input) {
      PemFromSound(input, 0, c);
    } else if c in DetectBearer(input) {
      BearersAreComplete(input, c);
      var at: nat :| BearerAt(input, at, c);
      BearerValueIs(input, at, Range(c.start, c.end));
    } else {
      AssignmentsWellFormed(input, 0, c);
    }
  }

  /* ---------- the detectors as loops ---------- */

  method SkipBlankBytes(input: Bytes, from: nat) returns (i: nat)
    ensures i == SkipBlanks(input, from)
  {
    i := from;
    while i < |input| && IsBlank(input[i])
      invariant SkipBlanks(input, from) == SkipBlanks(input, i)
    {
      i := i + 1;
    }
  }

  method SkipValueBytes(input: Bytes, quote: Option<u8>, from: nat) returns (end: nat)
    requires from <= |input|
    ensures end == ValueEnd(input, quote, from)
  {
    end := from;
    while end < |input| && InValue(quote, input[end])
      invariant from <= end <= |input|
      invariant ValueEnd(input, quote, from) == ValueEnd(input, quote, end)
    {
      end := end + 1;
    }
  }

  /** What follows one occurrence of a name. */
  method ProbeAssignment(input: Bytes, start: nat, after: nat) returns (r: Option<Range>)
    requires start <= after <= |input|
    ensures r == AssignedValue(input, after - start, start)
  {
    hide IsNameByte, IsBlank, SkipBlanks, InValue, ValueEnd;
    if (start > 0 && IsNameByte(input[start - 1])) || (after < |input| && IsNameByte(input[after])) {
      return None;
    }
    var value := SkipBlankBytes(input, after);
    if value >= |input| || (input[value] != 0x3D && input[value] != 0x3A) {
      return None;
    }
    value := SkipBlankBytes(input, value + 1);
    var quote := QuoteAt(input, value);
    if quote.Some? {
      value := value + 1;
    }
    var end := SkipValueBytes(input, quote, value);
    r := if end - value >= MIN_SECRET then Some(Range(value, end)) else None;
  }

  function Hit(r: Option<Range>, kind: SecretKind): seq<Candidate> {
    match r case None => [] case Some(v) => [Candidate(v.start, v.end, kind)]
  }

  lemma ScanStep(input: Bytes, needle: Bytes, fold: bool, probe: Probe, kind: SecretKind, cursor: nat)
    requires needle != []
    ensures var next := Find(input, needle, fold, cursor);
      ScanFrom(input, needle, fold, probe, kind, cursor) ==
        if next.None? then []
        else Hit(probe(next.value), kind) + ScanFrom(input, needle, fold, probe, kind, next.value + |needle|)
  {
    hide Find;
  }

  /** One pass over the input for one name; the candidates are appended to `output`. */
  method FindAssignments(input: Bytes, name: Name, output: seq<Candidate>) returns (found: seq<Candidate>)
    requires name.bytes != []
    ensures found == output + DetectAssignment(input, name)
  {
    hide OccursAt, Find, ScanFrom, AssignedValue;
    var n := |name.bytes|;
    ghost var probe := AssignmentProbe(input, n);
    var cursor := 0;
    found := output;
    while true
      invariant cursor <= |input|
      invariant output + DetectAssignment(input, name)
             == found + ScanFrom(input, name.bytes, true, probe, name.kind, cursor)
      decreases |input| - cursor
    {
      ScanStep(input, name.bytes, true, probe, name.kind, cursor);
      var next := Find(input, name.bytes, true, cursor);
      if next.None? {
        break;
      }
      OccurrenceFits(input, name.bytes, true, next.value);
      cursor := next.value + n;
      var value := ProbeAssignment(input, next.value, cursor);
      if value.Some? {
        found := found + [Candidate(value.value.start, value.value.end, name.kind)];
      }
    }
  }

  method ProbeBearer(input: Bytes, start: nat) returns (r: Option<Range>)
    requires start + |AUTHORIZATION| <= |input|
    ensures r == BearerValue(input, start)
  {
    hide IsNameByte, IsBlank, IsSpace, OccursAt;
    if start > 0 && IsNameByte(input[start - 1]) {
      return None;
    }
    var position := SkipBlankBytes(input, start + |AUTHORIZATION|);
    if position >= |input| || input[position] != 0x3A {
      return None;
    }
    position := SkipBlankBytes(input, position + 1);
    if !OccursAt(input, BEARER, true, position) {
      return None;
    }
    OccurrenceFits(input, BEARER, true, position);
    position := position + |BEARER|;
    if position >= |input| || !IsSpace(input[position]) {
      return None;
    }
    position := SkipBlankBytes(input, position);
    var end := position;
    while end < |input| && !IsSpace(input[end])
      invariant position <= end <= |input|
      invariant TokenEnd(input, position) == TokenEnd(input, end)
    {
      end := end + 1;
    }
    r := if end - position >= MIN_SECRET then Some(Range(position, end)) else None;
  }

  method FindBearers(input: Bytes, output: seq<Candidate>) returns (found: seq<Candidate>)
    ensures found == output + DetectBearer(input)
  {
    hide OccursAt, Find, ScanFrom, BearerValue;
    ghost var probe := BearerProbe(input);
    var cursor := 0;
    found := output;
    while true
      invariant cursor <= |input|
      invariant output + DetectBearer(input)
             == found + ScanFrom(input, AUTHORIZATION, true, probe, AuthorizationBearer, cursor)
      decreases |input| - cursor
    {
      ScanStep(input, AUTHORIZATION, true, probe, AuthorizationBearer, cursor);
      var next := Find(input, AUTHORIZATION, true, cursor);
      if next.None? {
        break;
      }
      OccurrenceFits(input, AUTHORIZATION, true, next.value);
      cursor := next.value + |AUTHORIZATION|;
      var token := ProbeBearer(input, next.value);
      if token.Some? {
        found := found + [Candidate(token.value.start, token.value.end, AuthorizationBearer)];
      }
    }
  }

  /** The end of the block opened at `start`, or `None` when no end marker repeats its label. */
  method CloseBlock(input: Bytes, start: nat, labelEnd: nat) returns (end: Option<nat>)
    requires LabelEnd(input, start) == Some(labelEnd)
    ensures end == PemEnd(input, start)
    ensures end.Some? ==> end.value <= |input|
  {
    hide Find, LabelEnd;
    var marker := END_PREFIX + input[start + |BEGIN|..labelEnd - |DASHES|] + DASHES;
    var close := Find(input, marker, false, labelEnd);
    end := if close.Some? then Some(close.value + |marker|) else None;
  }

  lemma PemStep(input: Bytes, cursor: nat)
    ensures var next := Find(input, BEGIN, false, cursor);
      PemFrom(input, cursor) ==
        if next.None? || LabelEnd(input, next.value).None? then []
        else match PemEnd(input, next.value)
          case None => PemFrom(input, next.value + |BEGIN|)
          case Some(end) => [Candidate(next.value, end, PemPrivateKey)] + PemFrom(input, end)
  {
    hide Find, LabelEnd, PemEnd;
  }

  method FindPemBlocks(input: Bytes, output: seq<Candidate>) returns (found: seq<Candidate>)
    ensures found == output + DetectPem(input)
  {
    hide OccursAt, Find, PemFrom, PemEnd;
    var cursor := 0;
    found := output;
    while true
      invariant cursor <= |input|
      invariant output + DetectPem(input) == found + PemFrom(input, cursor)
      decreases |input| - cursor
    {
      PemStep(input, cursor);
      var next := Find(input, BEGIN, false, cursor);
      if next.None? {
        break;
      }
      var start := next.value;
      OccurrenceFits(input, BEGIN, false, start);
      cursor := start + |BEGIN|;
      var named := Find(input, PRIVATE, false, cursor);
      if named.None? {
        break;
      }
      var end := CloseBlock(input, start, named.value + |PRIVATE|);
      if end.Some? {
        found := found + [Candidate(start, end.value, PemPrivateKey)];
        cursor := end.value;
      }
    }
  }

  method FindCandidates(input: Bytes) returns (found: seq<Candidate>)
    ensures found == DetectCandidates(input)
    ensures forall c :: c in found <==> Secret(input, c)
  {
    hide DetectPem, DetectBearer, DetectAssignment, Secret;
    forall c ensures c in DetectCandidates(input) <==> Secret(input, c) {
      CandidatesExactly(input, c);
    }
    found := FindPemBlocks(input, []);
    found := FindBearers(input, found);
    for i := 0 to |NAMES|
      invariant DetectCandidates(input) == found + AssignmentsFrom(input, i)
    {
      found := FindAssignments(input, NAMES[i], found);
    }
  }
}
