/** What redaction hides byte by byte, and a candidate whose beginning stays visible. */
module Visibility {
  import opened Prelude
  import opened Detect
  import opened Redact
  import opened Protect

  /* ---------- exactly the hidden bytes do not show ---------- */

  lemma RemovedOutside(input: Bytes, spans: seq<Candidate>, k: nat, b: u8)
    requires k < |input| && !Hidden(spans, k) && forall c :: c in spans ==> c.start <= c.end <= |input|
    ensures Removed(input[k := b], spans) == Removed(input, spans)
  {
    var other := input[k := b];
    forall i | 0 <= i < |spans| ensures other[spans[i].start..spans[i].end] == input[spans[i].start..spans[i].end] {
      assert spans[i] in spans;
    }
  }

  /** The output is the same with another byte in this place. */
  predicate SameWith(input: Bytes, spans: seq<Candidate>, k: nat, b: u8)
    requires Ordered(|input|, spans, 0) && k < |input|
  {
    Spliced(input[k := b], spans, 0) == Spliced(input, spans, 0)
  }

  /** The output depends on a byte of the input exactly when no span hides it. */
  lemma ByteShowsExactly(input: Bytes, spans: seq<Candidate>, k: nat)
    requires Ordered(|input|, spans, 0) && k < |input|
    ensures (forall b: u8 :: SameWith(input, spans, k, b)) <==> Hidden(spans, k)
  {
    hide Ordered, Spliced, Restore, Removed;
    if Hidden(spans, k) {
      forall b: u8 ensures SameWith(input, spans, k, b) {
        HiddenBytesDoNotShow(input, input[k := b], spans, 0);
      }
    } else {
      OrderedInside(|input|, spans, 0);
      var b: u8 := if input[k] == 0 then 1 else 0;
      var other := input[k := b];
      RemovedOutside(input, spans, k, b);
      RestoreSpliced(input, spans, 0);
      RestoreSpliced(other, spans, 0);
      assert other[0..][k] == b && input[0..][k] == input[k];
      assert !SameWith(input, spans, k, b);
    }
  }

  predicate FullyHidden(spans: seq<Candidate>, c: Candidate) { forall k :: c.start <= k < c.end ==> Hidden(spans, k) }

  predicate Contains(a: Candidate, b: Candidate) { a.start <= b.start && b.end <= a.end }

  /** Of two overlapping candidates the one that ranks no lower contains the other. */
  ghost predicate Nested(candidates: seq<Candidate>) {
    forall a, b :: a in candidates && b in candidates && !Apart(b, a) && NoLower(a, b) ==> Contains(a, b)
  }

  /** Under that condition nothing a detector reported is left visible. */
  lemma NestedIsFullyHidden(candidates: seq<Candidate>, c: Candidate)
    requires Nested(candidates) && c in candidates
    ensures FullyHidden(Resolve(candidates), c)
  {
    hide Resolve, NoLower, Apart;
    ResolveMeaning(candidates);
    var spans := Resolve(candidates);
    if c !in spans {
      var s :| s in spans && !Apart(c, s) && RankLe(s, c);
      assert Contains(s, c);
    }
  }

  /* ---------- an overlap that is not nested ---------- */

  /** The text `password="hunter2-hunter2 authorization: bearer abcdefgh"`, byte by byte. */
  function ByteAt(i: nat): u8 {
    if i == 0 then 0x70 else if i == 1 then 0x61 else if i == 2 then 0x73 else if i == 3 then 0x73 else
    if i == 4 then 0x77 else if i == 5 then 0x6F else if i == 6 then 0x72 else if i == 7 then 0x64 else
    if i == 8 then 0x3D else if i == 9 then 0x22 else if i == 10 then 0x68 else if i == 11 then 0x75 else
    if i == 12 then 0x6E else if i == 13 then 0x74 else if i == 14 then 0x65 else if i == 15 then 0x72 else
    if i == 16 then 0x32 else if i == 17 then 0x2D else if i == 18 then 0x68 else if i == 19 then 0x75 else
    if i == 20 then 0x6E else if i == 21 then 0x74 else if i == 22 then 0x65 else if i == 23 then 0x72 else
    if i == 24 then 0x32 else if i == 25 then 0x20 else if i == 26 then 0x61 else if i == 27 then 0x75 else
    if i == 28 then 0x74 else if i == 29 then 0x68 else if i == 30 then 0x6F else if i == 31 then 0x72 else
    if i == 32 then 0x69 else if i == 33 then 0x7A else if i == 34 then 0x61 else if i == 35 then 0x74 else
    if i == 36 then 0x69 else if i == 37 then 0x6F else if i == 38 then 0x6E else if i == 39 then 0x3A else
    if i == 40 then 0x20 else if i == 41 then 0x62 else if i == 42 then 0x65 else if i == 43 then 0x61 else
    if i == 44 then 0x72 else if i == 45 then 0x65 else if i == 46 then 0x72 else if i == 47 then 0x20 else
    if i == 48 then 0x61 else if i == 49 then 0x62 else if i == 50 then 0x63 else if i == 51 then 0x64 else
    if i == 52 then 0x65 else if i == 53 then 0x66 else if i == 54 then 0x67 else if i == 55 then 0x68 else 0x22
  }

  const INPUT: Bytes := seq(57, (i: nat) => ByteAt(i))

  lemma InputIs()
    ensures |INPUT| == 57 && forall i :: 0 <= i < 57 ==> INPUT[i] == ByteAt(i)
  {
    hide ByteAt;
  }

  const PASSWORD_VALUE: Candidate := Candidate(10, 56, Credential)
  const BEARER_TOKEN: Candidate := Candidate(48, 57, AuthorizationBearer)

  /** Two neighbouring bytes, letters in either case. */
  predicate PairAt(i: nat, a: u8, b: u8) { i < 56 && Lower(ByteAt(i)) == a && Lower(ByteAt(i + 1)) == b }

  lemma OccurrencePair(needle: Bytes, fold: bool, i: nat)
    requires |needle| >= 2 && OccursAt(INPUT, needle, fold, i)
    ensures PairAt(i, Lower(needle[0]), Lower(needle[1]))
  {
    hide INPUT, ByteAt;
    InputIs();
    assert Same(fold, INPUT[i + 0], needle[0]) && Same(fold, INPUT[i + 1], needle[1]);
  }

  lemma NoDashes(i: nat)
    ensures !PairAt(i, 0x2D, 0x2D)
  {}

  lemma NoApi(i: nat)
    ensures !PairAt(i, 0x61, 0x70)
  {}

  lemma NoAccess(i: nat)
    ensures !PairAt(i, 0x61, 0x63)
  {}

  lemma NoToken(i: nat)
    ensures !PairAt(i, 0x74, 0x6F)
  {}

  lemma NoCredential(i: nat)
    ensures !PairAt(i, 0x63, 0x72)
  {}

  lemma NoSecret(i: nat)
    ensures !PairAt(i, 0x73, 0x65)
  {}

  lemma OnePassword(i: nat)
    ensures PairAt(i, 0x70, 0x61) ==> i == 0
  {}

  lemma OneAuthorization(i: nat)
    ensures PairAt(i, 0x61, 0x75) ==> i == 26
  {}

  lemma PasswordAssigns()
    ensures OccursAt(INPUT, PASSWORD, true, 0)
    ensures Assigns(INPUT, 8, 0, 8, 9, Range(10, 56))
  {
    hide INPUT;
    InputIs();
  }

  lemma TokenBears()
    ensures OccursAt(INPUT, AUTHORIZATION, true, 26)
    ensures Bears(INPUT, 26, 39, 41, Range(48, 57))
  {
    hide INPUT;
    InputIs();
  }

  /** The only assignment. */
  lemma AssignmentsFound(i: nat, c: Candidate)
    requires i < |NAMES| && c in DetectAssignment(INPUT, NAMES[i])
    ensures c == PASSWORD_VALUE && i == 4
  {
    hide INPUT, ByteAt, DetectAssignment, OccursAt, Assigns, AssignedValue;
    AssignmentsAreComplete(INPUT, i, c);
    var at: nat :| AssignedAt(INPUT, NAMES[i].bytes, at, c);
    OccurrencePair(NAMES[i].bytes, true, at);
    NoApi(at);
    NoAccess(at);
    NoToken(at);
    NoCredential(at);
    NoSecret(at);
    OnePassword(at);
    assert i == 4 && at == 0;
    PasswordAssigns();
    AssignedValueIs(INPUT, 8, 0, Range(10, 56));
    AssignedValueIs(INPUT, 8, 0, Range(c.start, c.end));
  }

  /** The only bearer header. */
  lemma BearersFound(c: Candidate)
    requires c in DetectBearer(INPUT)
    ensures c == BEARER_TOKEN
  {
    hide INPUT, ByteAt, DetectBearer, OccursAt, Bears, BearerValue;
    BearersAreComplete(INPUT, c);
    var at: nat :| BearerAt(INPUT, at, c);
    OccurrencePair(AUTHORIZATION, true, at);
    OneAuthorization(at);
    TokenBears();
    BearerValueIs(INPUT, 26, Range(48, 57));
    BearerValueIs(INPUT, 26, Range(c.start, c.end));
  }

  lemma NoPemFound(c: Candidate)
    ensures c !in DetectPem(INPUT)
  {
    hide INPUT, OccursAt, PemFrom, PemEnd, ByteAt;
    if c in DetectPem(INPUT) {
      PemFromSound(INPUT, 0, c);
      OccurrencePair(BEGIN, false, c.start);
      NoDashes(c.start);
    }
  }

  lemma {:induction false} AssignmentsFoundFrom(i: nat, c: Candidate)
    requires c in AssignmentsFrom(INPUT, i)
    ensures c == PASSWORD_VALUE
    decreases |NAMES| - i
  {
    hide INPUT, DetectAssignment, NAMES;
    if c in DetectAssignment(INPUT, NAMES[i]) {
      AssignmentsFound(i, c);
    } else {
      AssignmentsFoundFrom(i + 1, c);
    }
  }

  /** Exactly two candidates are detected. */
  lemma CandidatesFound(c: Candidate)
    ensures c in DetectCandidates(INPUT) ==> c == PASSWORD_VALUE || c == BEARER_TOKEN
    ensures BEARER_TOKEN in DetectCandidates(INPUT)
  {
    hide INPUT, DetectPem, DetectBearer, AssignmentsFrom, OccursAt, Bears;
    if c in DetectPem(INPUT) {
      NoPemFound(c);
    } else if c in DetectBearer(INPUT) {
      BearersFound(c);
    } else if c in AssignmentsFrom(INPUT, 0) {
      AssignmentsFoundFrom(0, c);
    }
    TokenBears();
    assert BearerAt(INPUT, 26, BEARER_TOKEN);
    BearersAreComplete(INPUT, BEARER_TOKEN);
  }

  lemma PasswordDetected()
    ensures PASSWORD_VALUE in DetectCandidates(INPUT)
  {
    hide INPUT, DetectPem, DetectBearer, DetectAssignment, OccursAt, Assigns;
    PasswordAssigns();
    assert AssignedAt(INPUT, NAMES[4].bytes, 0, PASSWORD_VALUE);
    AssignmentsAreComplete(INPUT, 4, PASSWORD_VALUE);
    AssignmentsFromHolds(0, 4, PASSWORD_VALUE);
  }

  lemma {:induction false} AssignmentsFromHolds(i: nat, j: nat, c: Candidate)
    requires i <= j < |NAMES| && c in DetectAssignment(INPUT, NAMES[j])
    ensures c in AssignmentsFrom(INPUT, i)
    decreases j - i
  {
    hide INPUT, DetectAssignment, NAMES;
    if i < j {
      AssignmentsFromHolds(i + 1, j, c);
    }
  }

  /**
   * The bearer token outranks the password's value and overlaps its end only, so the password's beginning is
   * reported by a detector and yet shows in the redacted bytes.
   */
  lemma DroppedCandidateShows()
    ensures PASSWORD_VALUE in DetectCandidates(INPUT) && !FullyHidden(Spans(INPUT), PASSWORD_VALUE)
    ensures Ordered(|INPUT|, Spans(INPUT), 0) && !Hidden(Spans(INPUT), 10)
    ensures exists b: u8 :: !SameWith(INPUT, Spans(INPUT), 10, b)
  {
    hide INPUT, ByteAt, DetectCandidates, Resolve, Ordered, Spliced;
    InputIs();
    PasswordDetected();
    SpansAreOrdered(INPUT);
    TokenIsSelected();
    ByteShowsExactly(INPUT, Spans(INPUT), 10);
  }

  lemma TokenIsSelected()
    ensures forall c :: c in Spans(INPUT) ==> c == BEARER_TOKEN
  {
    hide INPUT, DetectCandidates, Resolve;
    var candidates, spans := DetectCandidates(INPUT), Spans(INPUT);
    ResolveMeaning(candidates);
    forall c | c in candidates ensures c == PASSWORD_VALUE || c == BEARER_TOKEN {
      CandidatesFound(c);
    }
    CandidatesFound(BEARER_TOKEN);
    assert BEARER_TOKEN in spans;
    if PASSWORD_VALUE in spans {
      ApartMembers(spans, PASSWORD_VALUE, BEARER_TOKEN);
      assert false;
    }
  }

  lemma ApartMembers(spans: seq<Candidate>, a: Candidate, b: Candidate)
    requires AllApart(spans) && a in spans && b in spans && a != b
    ensures Apart(a, b)
  {
    var i :| 0 <= i < |spans| && spans[i] == a;
    var j :| 0 <= j < |spans| && spans[j] == b;
    assert if i < j then Apart(spans[i], spans[j]) else Apart(spans[j], spans[i]);
  }
}
