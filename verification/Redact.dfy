/** Overlap resolution and splicing of redaction tokens (`resolve_overlaps`, `redact`). */
module Redact {
  import opened Prelude
  import opened Detect

  /* ---------- ranking ---------- */

  function Priority(kind: SecretKind): nat {
    match kind
    case PemPrivateKey => 3
    case AuthorizationBearer => 2
    case _ => 1
  }

  function Length(c: Candidate): int { c.end - c.start }

  /** At least as high in (priority, length). */
  predicate NoLower(a: Candidate, b: Candidate) {
    Priority(a.kind) > Priority(b.kind) || (Priority(a.kind) == Priority(b.kind) && Length(a) >= Length(b))
  }

  /** The order of the kinds: private keys above bearer tokens above everything else, and by length within a class. */
  lemma RankByKind(a: Candidate, b: Candidate)
    ensures a.kind == PemPrivateKey && b.kind != PemPrivateKey ==> NoLower(a, b) && !NoLower(b, a)
    ensures a.kind == AuthorizationBearer && b.kind != PemPrivateKey && b.kind != AuthorizationBearer ==>
      NoLower(a, b) && !NoLower(b, a)
    ensures a.kind == b.kind || ({a.kind, b.kind} <= {ApiKey, Token, Credential}) ==>
      (NoLower(a, b) <==> a.end - a.start >= b.end - b.start)
  {
    assert a.kind in {a.kind, b.kind} && b.kind in {a.kind, b.kind};
  }

  /** Higher priority first, then longer, then earlier. */
  predicate RankLe(a: Candidate, b: Candidate) {
    NoLower(a, b) && (NoLower(b, a) ==> a.start <= b.start)
  }

  const RANK: (Candidate, Candidate) -> bool := (a, b) => RankLe(a, b)

  const BY_START: (Candidate, Candidate) -> bool := (a: Candidate, b: Candidate) => a.start <= b.start

  lemma RankIsTotal()
    ensures TotalPreorder(RANK) && TotalPreorder(BY_START)
  {
    hide Priority;
  }

  /* ---------- greedy selection ---------- */

  predicate Apart(a: Candidate, b: Candidate) { a.end <= b.start || a.start >= b.end }

  predicate ApartFromAll(c: Candidate, selected: seq<Candidate>) {
    forall s :: s in selected ==> Apart(c, s)
  }

  function Greedy(candidates: seq<Candidate>, selected: seq<Candidate>): seq<Candidate> {
    if candidates == [] then selected
    else if ApartFromAll(candidates[0], selected) then Greedy(candidates[1..], selected + [candidates[0]])
    else Greedy(candidates[1..], selected)
  }

  function Resolve(candidates: seq<Candidate>): seq<Candidate> {
    StableSort(Greedy(StableSort(candidates, RANK), []), BY_START)
  }

  method ResolveOverlaps(candidates: seq<Candidate>) returns (selected: seq<Candidate>)
    ensures selected == Resolve(candidates)
  {
    var sorted := StableSort(candidates, RANK);
    selected := [];
    assert sorted[0..] == sorted;
    for i := 0 to |sorted|
      invariant Greedy(sorted, []) == Greedy(sorted[i..], selected)
    {
      assert sorted[i..][1..] == sorted[i + 1..];
      if ApartFromAll(sorted[i], selected) {
        selected := selected + [sorted[i]];
      }
    }
    selected := StableSort(selected, BY_START);
  }

  ghost predicate AllApart(s: seq<Candidate>) {
    forall i, j :: 0 <= i < j < |s| ==> Apart(s[i], s[j])
  }

  /** A selected candidate overlaps this one and ranks no lower; of equal rank, it starts no later. */
  ghost predicate Covered(c: Candidate, selected: seq<Candidate>) {
    exists s :: s in selected && !Apart(c, s) && RankLe(s, c)
  }

  lemma {:induction false} GreedyMeaning(candidates: seq<Candidate>, selected: seq<Candidate>)
    requires AllApart(selected) && SortedBy(candidates, RANK)
    requires forall s, c :: s in selected && c in candidates ==> RankLe(s, c)
    ensures AllApart(Greedy(candidates, selected))
    ensures forall c :: c in selected ==> c in Greedy(candidates, selected)
    ensures forall c :: c in Greedy(candidates, selected) ==> c in selected || c in candidates
    ensures forall c :: c in candidates ==> c in Greedy(candidates, selected) || Covered(c, Greedy(candidates, selected))
  {
    hide Apart, RankLe;
    if candidates != [] {
      var c, rest := candidates[0], candidates[1..];
      assert forall d :: d in rest ==> RANK(c, d);
      if ApartFromAll(c, selected) {
        ApartSymmetric(c);
        GreedyMeaning(rest, selected + [c]);
        assert c in selected + [c];
      } else {
        GreedyMeaning(rest, selected);
      }
      assert candidates == [c] + rest;
    }
  }

  lemma ApartSymmetric(c: Candidate)
    ensures forall d :: Apart(c, d) <==> Apart(d, c)
  {}

  lemma ApartCons(x: Candidate, s: seq<Candidate>)
    requires AllApart(s) && ApartFromAll(x, s)
    ensures AllApart([x] + s)
  {
    hide Apart;
  }

  lemma {:induction false} InsertApart(x: Candidate, s: seq<Candidate>, le: (Candidate, Candidate) -> bool)
    requires AllApart(s) && ApartFromAll(x, s)
    ensures AllApart(Insert(x, s, le))
    ensures forall c :: c in Insert(x, s, le) <==> c == x || c in s
  {
    hide Apart;
    if s == [] || le(x, s[0]) {
      ApartCons(x, s);
    } else {
      InsertApart(x, s[1..], le);
      assert s == [s[0]] + s[1..];
      ApartSymmetric(x);
      ApartCons(s[0], Insert(x, s[1..], le));
    }
  }

  lemma {:induction false} SortApart(s: seq<Candidate>, le: (Candidate, Candidate) -> bool)
    requires AllApart(s)
    ensures AllApart(StableSort(s, le))
    ensures forall c :: c in StableSort(s, le) <==> c in s
  {
    hide Apart;
    if s != [] {
      SortApart(s[1..], le);
      assert ApartFromAll(s[0], s[1..]);
      InsertApart(s[0], StableSort(s[1..], le), le);
    }
  }

  /**
   * What overlap resolution selects: candidates only, pairwise apart and by ascending start, such that
   * whatever is dropped overlaps a selected candidate that ranks no lower.
   */
  lemma ResolveMeaning(candidates: seq<Candidate>)
    ensures AllApart(Resolve(candidates)) && SortedBy(Resolve(candidates), BY_START)
    ensures forall c :: c in Resolve(candidates) ==> c in candidates
    ensures forall c :: c in candidates ==> c in Resolve(candidates) || Covered(c, Resolve(candidates))
  {
    hide Apart, RankLe, Greedy, StableSort;
    RankIsTotal();
    var sorted := StableSort(candidates, RANK);
    StableSortSorted(candidates, RANK);
    MultisetMembership(sorted, candidates);
    GreedyMeaning(sorted, []);
    SortApart(Greedy(sorted, []), BY_START);
    StableSortSorted(Greedy(sorted, []), BY_START);
  }

  /** A candidate that overlaps no other one is always redacted as it stands. */
  lemma IsolatedIsSelected(candidates: seq<Candidate>, c: Candidate)
    requires c in candidates && forall d :: d in candidates && d != c ==> Apart(c, d)
    ensures c in Resolve(candidates)
  {
    hide Apart, RankLe, Resolve;
    ResolveMeaning(candidates);
  }

  /* ---------- splicing ---------- */

  const TOKEN_TEXT: Bytes := [0x5B, 0x52, 0x45, 0x44, 0x41, 0x43, 0x54, 0x45, 0x44, 0x5D]  // [REDACTED]

  /** Ascending, disjoint, non-empty and inside an input of `n` bytes, from `cursor` on. */
  predicate Ordered(n: nat, spans: seq<Candidate>, cursor: nat)
    decreases |spans|
  {
    if spans == [] then cursor <= n
    else cursor <= spans[0].start < spans[0].end <= n && Ordered(n, spans[1..], spans[0].end)
  }

  lemma {:induction false} SelectionOrdered(n: nat, spans: seq<Candidate>, cursor: nat)
    requires AllApart(spans) && SortedBy(spans, BY_START)
    requires forall c :: c in spans ==> c.start < c.end <= n
    requires cursor <= n && (spans == [] || cursor <= spans[0].start)
    ensures Ordered(n, spans, cursor)
    decreases |spans|
  {
    if spans != [] {
      assert spans[0] in spans;
      assert AllApart(spans[1..]) && SortedBy(spans[1..], BY_START);
      if |spans| > 1 {
        assert spans[1] in spans && BY_START(spans[0], spans[1]) && Apart(spans[0], spans[1]);
      }
      SelectionOrdered(n, spans[1..], spans[0].end);
    }
  }

  function Spliced(input: Bytes, spans: seq<Candidate>, cursor: nat): Bytes
    requires Ordered(|input|, spans, cursor)
    decreases |spans|
  {
    if spans == [] then input[cursor..]
    else input[cursor..spans[0].start] + TOKEN_TEXT + Spliced(input, spans[1..], spans[0].end)
  }

  method RedactSpans(input: Bytes, spans: seq<Candidate>) returns (output: Bytes)
    requires Ordered(|input|, spans, 0)
    ensures output == Spliced(input, spans, 0)
  {
    output := [];
    var cursor: nat := 0;
    assert spans[0..] == spans;
    for i := 0 to |spans|
      invariant Ordered(|input|, spans[i..], cursor)
      invariant Spliced(input, spans, 0) == output + Spliced(input, spans[i..], cursor)
    {
      var span := spans[i];
      assert spans[i..][0] == span && spans[i..][1..] == spans[i + 1..];
      output := output + input[cursor..span.start];
      output := output + TOKEN_TEXT;
      cursor := span.end;
    }
    output := output + input[cursor..];
  }

  /** The bytes each span hides. */
  function Removed(input: Bytes, spans: seq<Candidate>): (r: seq<Bytes>)
    requires forall c :: c in spans ==> c.start <= c.end <= |input|
    ensures |r| == |spans| && forall i :: 0 <= i < |r| ==> r[i] == input[spans[i].start..spans[i].end]
  {
    if spans == [] then [] else [input[spans[0].start..spans[0].end]] + Removed(input, spans[1..])
  }

  lemma {:induction false} OrderedInside(n: nat, spans: seq<Candidate>, cursor: nat)
    requires Ordered(n, spans, cursor)
    ensures cursor <= n && forall c :: c in spans ==> cursor <= c.start < c.end <= n
    decreases |spans|
  {
    if spans != [] {
      OrderedInside(n, spans[1..], spans[0].end);
    }
  }

  /** Puts removed bytes back where the tokens stand. */
  function Restore(bytes: Bytes, spans: seq<Candidate>, removed: seq<Bytes>, cursor: nat): Bytes
    requires |removed| == |spans|
    decreases |spans|
  {
    if spans == [] then bytes
    else
      var kept := if spans[0].start < cursor then 0 else Min(spans[0].start - cursor, |bytes|);
      var next := Min(kept + |TOKEN_TEXT|, |bytes|);
      bytes[..kept] + removed[0] + Restore(bytes[next..], spans[1..], removed[1..], spans[0].end)
  }

  lemma RestoreStep(kept: Bytes, tail: Bytes, spans: seq<Candidate>, removed: seq<Bytes>, cursor: nat)
    requires spans != [] && |removed| == |spans| && spans[0].start == cursor + |kept|
    ensures Restore(kept + TOKEN_TEXT + tail, spans, removed, cursor)
         == kept + removed[0] + Restore(tail, spans[1..], removed[1..], spans[0].end)
  {
    hide TOKEN_TEXT;
    var bytes := kept + TOKEN_TEXT + tail;
    assert bytes[..|kept|] == kept;
    assert bytes[|kept| + |TOKEN_TEXT|..] == tail;
  }

  lemma Split3(input: Bytes, a: nat, b: nat, c: nat)
    requires a <= b <= c <= |input|
    ensures input[a..] == input[a..b] + input[b..c] + input[c..]
  {}

  /** Redaction is lossless given the removed bytes. */
  lemma {:induction false} RestoreSpliced(input: Bytes, spans: seq<Candidate>, cursor: nat)
    requires Ordered(|input|, spans, cursor)
    ensures forall c :: c in spans ==> c.start <= c.end <= |input|
    ensures Restore(Spliced(input, spans, cursor), spans, Removed(input, spans), cursor) == input[cursor..]
    decreases |spans|
  {
    hide Restore;
    OrderedInside(|input|, spans, cursor);
    if spans == [] {
      assert Removed(input, spans) == [];
      RestoreNothing(input[cursor..], cursor);
    } else {
      var s, rest := spans[0], spans[1..];
      var removed := Removed(input, spans);
      RestoreStep(input[cursor..s.start], Spliced(input, rest, s.end), spans, removed, cursor);
      RestoreSpliced(input, rest, s.end);
      assert removed[1..] == Removed(input, rest);
      Split3(input, cursor, s.start, s.end);
    }
  }

  lemma RestoreNothing(bytes: Bytes, cursor: nat)
    ensures Restore(bytes, [], [], cursor) == bytes
  {}

  function SpanTotal(spans: seq<Candidate>): int {
    if spans == [] then 0 else Length(spans[0]) + SpanTotal(spans[1..])
  }

  lemma {:induction false} SplicedLength(input: Bytes, spans: seq<Candidate>, cursor: nat)
    requires Ordered(|input|, spans, cursor)
    ensures |Spliced(input, spans, cursor)| == |input| - cursor - SpanTotal(spans) + 10 * |spans|
    ensures SpanTotal(spans) <= |input| - cursor
    decreases |spans|
  {
    if spans != [] {
      SplicedLength(input, spans[1..], spans[0].end);
    }
  }

  lemma {:induction false} SpanTotalAtLeast(spans: seq<Candidate>)
    requires forall c :: c in spans ==> Length(c) >= MIN_SECRET
    ensures SpanTotal(spans) >= 8 * |spans|
  {
    if spans != [] {
      assert spans[0] in spans;
      SpanTotalAtLeast(spans[1..]);
    }
  }

  predicate Hidden(spans: seq<Candidate>, k: nat) { exists c :: c in spans && c.start <= k < c.end }

  /** The redacted bytes say nothing about the hidden ones: they are a function of the rest. */
  lemma {:induction false} HiddenBytesDoNotShow(input: Bytes, input': Bytes, spans: seq<Candidate>, cursor: nat)
    requires |input| == |input'| && Ordered(|input|, spans, cursor)
    requires forall k :: cursor <= k < |input| && !Hidden(spans, k) ==> input[k] == input'[k]
    ensures Spliced(input, spans, cursor) == Spliced(input', spans, cursor)
    decreases |spans|
  {
    OrderedInside(|input|, spans, cursor);
    if spans == [] {
      assert input[cursor..] == input'[cursor..];
    } else {
      var s, rest := spans[0], spans[1..];
      OrderedInside(|input|, rest, s.end);
      forall k | cursor <= k < s.start ensures input[k] == input'[k] {
        assert !Hidden(spans, k);
      }
      assert input[cursor..s.start] == input'[cursor..s.start];
      forall k | s.end <= k < |input| && !Hidden(rest, k) ensures input[k] == input'[k] {
        assert spans == [s] + rest;
        assert !Hidden(spans, k);
      }
      HiddenBytesDoNotShow(input, input', rest, s.end);
    }
  }

  /* ---------- the record-body check ---------- */

  function KindText(kind: SecretKind): Bytes {
    match kind
    case ApiKey => [0x61, 0x70, 0x69, 0x5F, 0x6B, 0x65, 0x79]                                     // api_key
    case Token => [0x74, 0x6F, 0x6B, 0x65, 0x6E]                                                  // token
    case Credential => [0x63, 0x72, 0x65, 0x64, 0x65, 0x6E, 0x74, 0x69, 0x61, 0x6C]               // credential
    case AuthorizationBearer =>                                                                   // authorization_bearer
      [0x61, 0x75, 0x74, 0x68, 0x6F, 0x72, 0x69, 0x7A, 0x61, 0x74, 0x69, 0x6F, 0x6E, 0x5F, 0x62, 0x65, 0x61, 0x72, 0x65, 0x72]
    case PemPrivateKey =>                                                                         // pem_private_key
      [0x70, 0x65, 0x6D, 0x5F, 0x70, 0x72, 0x69, 0x76, 0x61, 0x74, 0x65, 0x5F, 0x6B, 0x65, 0x79]
  }

  lemma KindTextInjective(a: SecretKind, b: SecretKind)
    requires KindText(a) == KindText(b)
    ensures a == b
  {
    assert |KindText(a)| == |KindText(b)|;
  }

  predicate IsControl(b: u8) { b < 0x20 || b == 0x7F }

  predicate ValidText(s: Bytes) { 0 < |s| <= 256 && forall i :: 0 <= i < |s| ==> !IsControl(s[i]) }

  lemma KindTextIsValid(kind: SecretKind)
    ensures ValidText(KindText(kind))
  {}

  /** The loop of `CaptureRecordBody::validate` over the redaction spans. */
  method SpansAccepted(originalLength: nat, spans: seq<Candidate>) returns (ok: bool)
    ensures ok <==> Ordered(originalLength, spans, 0)
  {
    var previousEnd: nat := 0;
    assert spans[0..] == spans;
    for i := 0 to |spans|
      invariant previousEnd <= originalLength
      invariant Ordered(originalLength, spans, 0) <==> Ordered(originalLength, spans[i..], previousEnd)
    {
      var span := spans[i];
      assert spans[i..][0] == span && spans[i..][1..] == spans[i + 1..];
      KindTextIsValid(span.kind);
      if span.start >= span.end || span.end > originalLength || span.start < previousEnd || !ValidText(KindText(span.kind)) {
        return false;
      }
      previousEnd := span.end;
    }
    return true;
  }
}
