/** The canonical encoding: tagged, length-prefixed, map entries sorted by key (`canonical.rs`). */
module Canonical {
  import opened Prelude

  const TWO_TO_127: int := 0x8000_0000_0000_0000_0000_0000_0000_0000

  type i128 = i: int | -TWO_TO_127 <= i < TWO_TO_127

  datatype Value =
    | Null
    | Bool(flag: bool)
    | Integer(integer: i128)
    | Str(text: Bytes)
    | Raw(bytes: Bytes)
    | Sequence(items: seq<Value>)
    | Map(entries: seq<Entry>)

  datatype Entry = Entry(key: Bytes, value: Value)

  datatype CanonicalError = EmptySchemaTag | DuplicateMapKey | LengthOverflow

  type Encoded = Result<Bytes, CanonicalError>

  /* ---------- keys ---------- */

  /** Byte-wise lexicographic order (`as_bytes().cmp`). */
  predicate LexLe(a: Bytes, b: Bytes) {
    a == [] || (b != [] && (a[0] < b[0] || (a[0] == b[0] && LexLe(a[1..], b[1..]))))
  }

  lemma {:induction false} LexTotal(a: Bytes, b: Bytes)
    ensures LexLe(a, b) || LexLe(b, a)
  {
    if a != [] && b != [] && a[0] == b[0] {
      LexTotal(a[1..], b[1..]);
    }
  }

  lemma {:induction false} LexTransitive(a: Bytes, b: Bytes, c: Bytes)
    requires LexLe(a, b) && LexLe(b, c)
    ensures LexLe(a, c)
  {
    if a != [] && a[0] == b[0] == c[0] {
      LexTransitive(a[1..], b[1..], c[1..]);
    }
  }

  lemma {:induction false} LexAntisymmetric(a: Bytes, b: Bytes)
    requires LexLe(a, b) && LexLe(b, a)
    ensures a == b
  {
    if a != [] && b != [] {
      LexAntisymmetric(a[1..], b[1..]);
      assert a == [a[0]] + a[1..] && b == [b[0]] + b[1..];
    }
  }

  predicate KeyLe(a: Entry, b: Entry) { LexLe(a.key, b.key) }

  const KEY_ORDER: (Entry, Entry) -> bool := (a, b) => KeyLe(a, b)

  lemma KeyOrderIsTotal()
    ensures TotalPreorder(KEY_ORDER)
  {
    forall a, b ensures KEY_ORDER(a, b) || KEY_ORDER(b, a) {
      LexTotal(a.key, b.key);
    }
    forall a, b, c | KEY_ORDER(a, b) && KEY_ORDER(b, c) ensures KEY_ORDER(a, c) {
      LexTransitive(a.key, b.key, c.key);
    }
  }

  function Sorted(entries: seq<Entry>): (sorted: seq<Entry>)
    ensures multiset(sorted) == multiset(entries) && |sorted| == |entries|
    ensures forall e :: e in sorted <==> e in entries
    ensures SortedBy(sorted, KEY_ORDER)
  {
    KeyOrderIsTotal();
    StableSortSorted(entries, KEY_ORDER);
    MultisetMembership(StableSort(entries, KEY_ORDER), entries);
    StableSort(entries, KEY_ORDER)
  }

  ghost predicate DistinctKeys(entries: seq<Entry>) {
    forall i, j :: 0 <= i < j < |entries| ==> entries[i].key != entries[j].key
  }

  /** The check on the sorted vector: no two neighbours share a key. */
  predicate NeighboursDiffer(sorted: seq<Entry>) {
    forall i :: 0 <= i < |sorted| - 1 ==> sorted[i].key != sorted[i + 1].key
  }

  /* ---------- encoding ---------- */

  function Unsigned(i: i128): nat { if i >= 0 then i else i + 2 * TWO_TO_127 }

  function LengthBytes(n: nat): Bytes { BigEndian(8, n) }

  function Sized(tag: u8, bytes: Bytes): Encoded {
    if |bytes| > U64_MAX then Err(LengthOverflow) else Ok([tag] + LengthBytes(|bytes|) + bytes)
  }

  function Prepend(head: Bytes, rest: Encoded): Encoded {
    match rest case Err(e) => Err(e) case Ok(bytes) => Ok(head + bytes)
  }

  function EncodeValue(v: Value): Encoded
    decreases v, 0
  {
    match v
    case Null => Ok([0x4E])
    case Bool(flag) => Ok([0x42, if flag then 1 else 0])
    case Integer(i) => Ok([0x49] + BigEndian(16, Unsigned(i)))
    case Str(text) => Sized(0x53, text)
    case Raw(bytes) => Sized(0x59, bytes)
    case Sequence(items) =>
      if |items| > U64_MAX then Err(LengthOverflow)
      else Prepend([0x51] + LengthBytes(|items|), EncodeItems(v, items))
    case Map(entries) =>
      if |entries| > U64_MAX then Err(LengthOverflow) else
      var sorted := Sorted(entries);
      if !NeighboursDiffer(sorted) then Err(DuplicateMapKey)
      else Prepend([0x4D] + LengthBytes(|sorted|), EncodeEntries(v, sorted))
  }

  function EncodeItems(context: Value, items: seq<Value>): Encoded
    requires forall i :: 0 <= i < |items| ==> items[i] < context
    decreases context, 0, |items|
  {
    if items == [] then Ok([]) else
    match EncodeValue(items[0])
    case Err(e) => Err(e)
    case Ok(head) => Prepend(head, EncodeItems(context, items[1..]))
  }

  function EncodeEntries(context: Value, entries: seq<Entry>): Encoded
    requires forall e :: e in entries ==> e.value < context
    decreases context, 0, |entries|
  {
    if entries == [] then Ok([]) else
    if |entries[0].key| > U64_MAX then Err(LengthOverflow) else
    match EncodeValue(entries[0].value)
    case Err(e) => Err(e)
    case Ok(head) => Prepend(LengthBytes(|entries[0].key|) + entries[0].key + head, EncodeEntries(context, entries[1..]))
  }

  const FORMAT_MAGIC: Bytes := [0x45, 0x54, 0x43, 0x31]  // ETC1

  type u32 = x: int | 0 <= x <= 0xFFFF_FFFF

  function Encode(tag: Bytes, version: u32, value: Value): Encoded {
    if tag == [] then Err(EmptySchemaTag)
    else if |tag| > U64_MAX then Err(LengthOverflow)
    else Prepend(FORMAT_MAGIC + LengthBytes(|tag|) + tag + BigEndian(4, version), EncodeValue(value))
  }

  /* ---------- normal form: every map sorted by key ---------- */

  function Norm(v: Value): Value
    decreases v, 0
  {
    match v
    case Sequence(items) => Sequence(NormItems(v, items))
    case Map(entries) => Map(NormEntries(v, Sorted(entries)))
    case _ => v
  }

  function NormItems(context: Value, items: seq<Value>): (r: seq<Value>)
    requires forall i :: 0 <= i < |items| ==> items[i] < context
    ensures |r| == |items|
    decreases context, 0, |items|
  {
    if items == [] then [] else [Norm(items[0])] + NormItems(context, items[1..])
  }

  function NormEntries(context: Value, entries: seq<Entry>): (r: seq<Entry>)
    requires forall e :: e in entries ==> e.value < context
    ensures |r| == |entries|
    decreases context, 0, |entries|
  {
    if entries == [] then []
    else [Entry(entries[0].key, Norm(entries[0].value))] + NormEntries(context, entries[1..])
  }

  /* ---------- unique decodability ---------- */

  lemma LengthInjective(n: nat, m: nat, x: Bytes, y: Bytes)
    requires n <= U64_MAX && m <= U64_MAX && LengthBytes(n) + x == LengthBytes(m) + y
    ensures n == m && x == y
  {
    PowerValues();
    SplitAt(LengthBytes(n), x, LengthBytes(m), y);
    BigEndianRoundTrip(8, n);
    BigEndianRoundTrip(8, m);
  }

  /** A length prefix delimits what it announces. */
  lemma SizedInjective(a: Bytes, b: Bytes, x: Bytes, y: Bytes)
    requires |a| <= U64_MAX && |b| <= U64_MAX
    requires LengthBytes(|a|) + (a + x) == LengthBytes(|b|) + (b + y)
    ensures a == b && x == y
  {
    hide LengthBytes;
    LengthInjective(|a|, |b|, a + x, b + y);
    SplitAt(a, x, b, y);
  }

  function Tag(v: Value): u8 {
    match v
    case Null => 0x4E
    case Bool(_) => 0x42
    case Integer(_) => 0x49
    case Str(_) => 0x53
    case Raw(_) => 0x59
    case Sequence(_) => 0x51
    case Map(_) => 0x4D
  }

  /** An encoding is its tag followed by a body that depends on the constructor. */
  function Tail(v: Value): Bytes
    requires EncodeValue(v).Ok?
  {
    EncodeValue(v).value[1..]
  }

  lemma TagFirst(v: Value)
    requires EncodeValue(v).Ok?
    ensures EncodeValue(v).value == [Tag(v)] + Tail(v)
    ensures v.Str? ==> |v.text| <= U64_MAX && Tail(v) == LengthBytes(|v.text|) + v.text
    ensures v.Raw? ==> |v.bytes| <= U64_MAX && Tail(v) == LengthBytes(|v.bytes|) + v.bytes
    ensures v.Sequence? ==>
      && |v.items| <= U64_MAX && EncodeItems(v, v.items).Ok?
      && Tail(v) == LengthBytes(|v.items|) + EncodeItems(v, v.items).value
    ensures v.Map? ==>
      && |v.entries| <= U64_MAX && EncodeEntries(v, Sorted(v.entries)).Ok?
      && Tail(v) == LengthBytes(|v.entries|) + EncodeEntries(v, Sorted(v.entries)).value
  {
    hide LengthBytes, BigEndian, Sorted, EncodeItems, EncodeEntries;
  }

  lemma PowerOf16()
    ensures Pow256(16) == 2 * TWO_TO_127
  {
    PowerValues();
    assert Pow256(9) == Pow256(8) * 256;
    assert Pow256(10) == Pow256(9) * 256;
    assert Pow256(11) == Pow256(10) * 256;
    assert Pow256(12) == Pow256(11) * 256;
    assert Pow256(13) == Pow256(12) * 256;
    assert Pow256(14) == Pow256(13) * 256;
    assert Pow256(15) == Pow256(14) * 256;
  }

  lemma IntegerInjective(i: i128, j: i128)
    requires BigEndian(16, Unsigned(i)) == BigEndian(16, Unsigned(j))
    ensures i == j
  {
    hide BigEndian;
    PowerOf16();
    BigEndianRoundTrip(16, Unsigned(i));
    BigEndianRoundTrip(16, Unsigned(j));
  }

  /**
   * Two encodings that are prefixes of the same bytes encode the same normal form and end at the same
   * place.
   */
  lemma {:induction false} UniqueValue(v: Value, w: Value, x: Bytes, y: Bytes)
    requires EncodeValue(v).Ok? && EncodeValue(w).Ok?
    requires EncodeValue(v).value + x == EncodeValue(w).value + y
    ensures Norm(v) == Norm(w) && x == y
    decreases v, 1
  {
    hide EncodeValue, EncodeItems, EncodeEntries, Sorted, LengthBytes, BigEndian, Tail;
    TagFirst(v);
    TagFirst(w);
    assert [Tag(v)] + (Tail(v) + x) == EncodeValue(v).value + x;
    assert [Tag(w)] + (Tail(w) + y) == EncodeValue(w).value + y;
    SplitAt([Tag(v)], Tail(v) + x, [Tag(w)], Tail(w) + y);
    assert Tag(v) == [Tag(v)][0] == [Tag(w)][0] == Tag(w);
    match v
    case Null => ScalarTails(v, w, x, y);
    case Bool(_) => ScalarTails(v, w, x, y);
    case Integer(_) => ScalarTails(v, w, x, y);
    case Str(_) =>
      assert Tail(v) + x == LengthBytes(|v.text|) + (v.text + x);
      assert Tail(w) + y == LengthBytes(|w.text|) + (w.text + y);
      SizedInjective(v.text, w.text, x, y);
    case Raw(_) =>
      assert Tail(v) + x == LengthBytes(|v.bytes|) + (v.bytes + x);
      assert Tail(w) + y == LengthBytes(|w.bytes|) + (w.bytes + y);
      SizedInjective(v.bytes, w.bytes, x, y);
    case Sequence(_) =>
      var a, b := EncodeItems(v, v.items).value, EncodeItems(w, w.items).value;
      assert Tail(v) + x == LengthBytes(|v.items|) + (a + x);
      assert Tail(w) + y == LengthBytes(|w.items|) + (b + y);
      LengthInjective(|v.items|, |w.items|, a + x, b + y);
      UniqueItems(v, v.items, w, w.items, x, y);
    case Map(_) =>
      var a, b := EncodeEntries(v, Sorted(v.entries)).value, EncodeEntries(w, Sorted(w.entries)).value;
      assert Tail(v) + x == LengthBytes(|v.entries|) + (a + x);
      assert Tail(w) + y == LengthBytes(|w.entries|) + (b + y);
      LengthInjective(|v.entries|, |w.entries|, a + x, b + y);
      UniqueEntries(v, Sorted(v.entries), w, Sorted(w.entries), x, y);
  }

  lemma ScalarTails(v: Value, w: Value, x: Bytes, y: Bytes)
    requires EncodeValue(v).Ok? && EncodeValue(w).Ok? && Tag(v) == Tag(w)
    requires v.Null? || v.Bool? || v.Integer?
    requires Tail(v) + x == Tail(w) + y
    ensures v == w && x == y
  {
    hide BigEndian;
    SplitAt(Tail(v), x, Tail(w), y);
    if v.Integer? {
      assert Tail(v) == BigEndian(16, Unsigned(v.integer)) && Tail(w) == BigEndian(16, Unsigned(w.integer));
      IntegerInjective(v.integer, w.integer);
    } else if v.Bool? {
      assert Tail(v)[0] == (if v.flag then 1 else 0);
      assert Tail(w)[0] == (if w.flag then 1 else 0);
    }
  }

  lemma {:induction false} UniqueItems(cv: Value, a: seq<Value>, cw: Value, b: seq<Value>, x: Bytes, y: Bytes)
    requires (forall i :: 0 <= i < |a| ==> a[i] < cv) && (forall i :: 0 <= i < |b| ==> b[i] < cw)
    requires |a| == |b| && EncodeItems(cv, a).Ok? && EncodeItems(cw, b).Ok?
    requires EncodeItems(cv, a).value + x == EncodeItems(cw, b).value + y
    ensures NormItems(cv, a) == NormItems(cw, b) && x == y
    decreases cv, 0, |a|
  {
    hide EncodeValue, Norm;
    if a == [] {
      assert EncodeItems(cv, a).value + x == x && EncodeItems(cw, b).value + y == y;
    } else {
      var h, g := EncodeValue(a[0]).value, EncodeValue(b[0]).value;
      var s, t := EncodeItems(cv, a[1..]).value, EncodeItems(cw, b[1..]).value;
      assert EncodeItems(cv, a).value + x == h + (s + x);
      assert EncodeItems(cw, b).value + y == g + (t + y);
      UniqueValue(a[0], b[0], s + x, t + y);
      UniqueItems(cv, a[1..], cw, b[1..], x, y);
    }
  }

  lemma {:induction false} UniqueEntries(cv: Value, a: seq<Entry>, cw: Value, b: seq<Entry>, x: Bytes, y: Bytes)
    requires (forall e :: e in a ==> e.value < cv) && (forall e :: e in b ==> e.value < cw)
    requires |a| == |b| && EncodeEntries(cv, a).Ok? && EncodeEntries(cw, b).Ok?
    requires EncodeEntries(cv, a).value + x == EncodeEntries(cw, b).value + y
    ensures NormEntries(cv, a) == NormEntries(cw, b) && x == y
    decreases cv, 0, |a|
  {
    hide EncodeValue, Norm, LengthBytes;
    if a == [] {
      assert EncodeEntries(cv, a).value + x == x && EncodeEntries(cw, b).value + y == y;
    } else {
      var j, k := a[0].key, b[0].key;
      var h, g := EncodeValue(a[0].value).value, EncodeValue(b[0].value).value;
      var s, t := EncodeEntries(cv, a[1..]).value, EncodeEntries(cw, b[1..]).value;
      assert EncodeEntries(cv, a).value + x == LengthBytes(|j|) + (j + (h + (s + x)));
      assert EncodeEntries(cw, b).value + y == LengthBytes(|k|) + (k + (g + (t + y)));
      SizedInjective(j, k, h + (s + x), g + (t + y));
      assert a[0] in a && b[0] in b;
      UniqueValue(a[0].value, b[0].value, s + x, t + y);
      UniqueEntries(cv, a[1..], cw, b[1..], x, y);
    }
  }

  /* ---------- the normal form has the same encoding ---------- */

  lemma {:induction false} NormKeys(context: Value, entries: seq<Entry>, i: nat)
    requires (forall e :: e in entries ==> e.value < context) && i < |entries|
    ensures NormEntries(context, entries)[i].key == entries[i].key
  {
    hide Norm;
    if i > 0 {
      NormKeys(context, entries[1..], i - 1);
    }
  }

  lemma NormEntriesSorted(context: Value, entries: seq<Entry>)
    requires forall e :: e in entries ==> e.value < context
    requires SortedBy(entries, KEY_ORDER)
    ensures Sorted(NormEntries(context, entries)) == NormEntries(context, entries)
    ensures NeighboursDiffer(NormEntries(context, entries)) <==> NeighboursDiffer(entries)
  {
    hide Norm, NormEntries, LexLe;
    var n := NormEntries(context, entries);
    forall i | 0 <= i < |entries| ensures n[i].key == entries[i].key {
      NormKeys(context, entries, i);
    }
    SameKeysSorted(entries, n);
    KeyOrderIsTotal();
    SortedIsFixed(n, KEY_ORDER);
  }

  lemma SameKeysSorted(a: seq<Entry>, b: seq<Entry>)
    requires |a| == |b| && (forall i :: 0 <= i < |a| ==> b[i].key == a[i].key) && SortedBy(a, KEY_ORDER)
    ensures SortedBy(b, KEY_ORDER) && (NeighboursDiffer(b) <==> NeighboursDiffer(a))
  {
    hide LexLe;
    forall i, j | 0 <= i < j < |b| ensures KEY_ORDER(b[i], b[j]) {
      assert KEY_ORDER(a[i], a[j]);
    }
  }

  lemma {:induction false} EncodeNorm(v: Value)
    ensures EncodeValue(Norm(v)) == EncodeValue(v)
    decreases v, 1
  {
    hide Sorted, LengthBytes, EncodeItems, EncodeEntries, NormItems, NormEntries, NeighboursDiffer;
    match v
    case Sequence(items) =>
      EncodeNormItems(v, items, Norm(v));
    case Map(entries) =>
      NormEntriesSorted(v, Sorted(entries));
      EncodeNormEntries(v, Sorted(entries), Norm(v));
    case _ =>
  }

  lemma {:induction false} EncodeNormItems(context: Value, items: seq<Value>, context': Value)
    requires forall i :: 0 <= i < |items| ==> items[i] < context
    requires forall i :: 0 <= i < |items| ==> NormItems(context, items)[i] < context'
    ensures EncodeItems(context', NormItems(context, items)) == EncodeItems(context, items)
    decreases context, 0, |items|
  {
    hide EncodeValue, Norm;
    if items != [] {
      var n := NormItems(context, items);
      assert n[1..] == NormItems(context, items[1..]);
      assert forall i :: 0 <= i < |n| - 1 ==> n[1..][i] == n[i + 1];
      EncodeNorm(items[0]);
      EncodeNormItems(context, items[1..], context');
    }
  }

  lemma {:induction false} EncodeNormEntries(context: Value, entries: seq<Entry>, context': Value)
    requires forall e :: e in entries ==> e.value < context
    requires forall e :: e in NormEntries(context, entries) ==> e.value < context'
    ensures EncodeEntries(context', NormEntries(context, entries)) == EncodeEntries(context, entries)
    decreases context, 0, |entries|
  {
    hide EncodeValue, Norm, LengthBytes;
    if entries != [] {
      var n := NormEntries(context, entries);
      assert n[1..] == NormEntries(context, entries[1..]);
      assert entries[0] in entries && n[0] in n;
      EncodeNorm(entries[0].value);
      EncodeNormEntries(context, entries[1..], context');
    }
  }

  /** Encodings coincide exactly when schema tag, version and normal form do. */
  lemma EncodeIsCanonical(tag: Bytes, version: u32, v: Value, tag': Bytes, version': u32, w: Value)
    requires Encode(tag, version, v).Ok? && Encode(tag', version', w).Ok?
    ensures Encode(tag, version, v) == Encode(tag', version', w) <==>
      tag == tag' && version == version' && Norm(v) == Norm(w)
  {
    hide EncodeValue, Norm, LengthBytes, BigEndian;
    if Encode(tag, version, v) == Encode(tag', version', w) {
      var x, y := EncodeValue(v).value, EncodeValue(w).value;
      var a, b := LengthBytes(|tag|) + (tag + (BigEndian(4, version) + x)), LengthBytes(|tag'|) + (tag' + (BigEndian(4, version') + y));
      assert Encode(tag, version, v).value == FORMAT_MAGIC + a;
      assert Encode(tag', version', w).value == FORMAT_MAGIC + b;
      SplitAt(FORMAT_MAGIC, a, FORMAT_MAGIC, b);
      SizedInjective(tag, tag', BigEndian(4, version) + x, BigEndian(4, version') + y);
      SplitAt(BigEndian(4, version), x, BigEndian(4, version'), y);
      PowerValues();
      BigEndianRoundTrip(4, version);
      BigEndianRoundTrip(4, version');
      assert x + [] == y + [];
      UniqueValue(v, w, [], []);
    }
    if Norm(v) == Norm(w) {
      EncodeNorm(v);
      EncodeNorm(w);
    }
  }

  /* ---------- entry order and duplicate keys ---------- */

  lemma SameHead(a: seq<Entry>, b: seq<Entry>)
    requires a != [] && b != [] && a[0] in b && b[0] in a
    requires SortedBy(a, KEY_ORDER) && SortedBy(b, KEY_ORDER) && DistinctKeys(a)
    ensures a[0] == b[0]
  {
    hide LexLe;
    var i :| 0 <= i < |a| && a[i] == b[0];
    var j :| 0 <= j < |b| && b[j] == a[0];
    if i > 0 && j > 0 {
      assert KEY_ORDER(a[0], a[i]) && KEY_ORDER(b[0], b[j]);
      LexAntisymmetric(a[0].key, b[0].key);
    }
  }

  lemma TailMultiset(s: seq<Entry>)
    requires s != []
    ensures multiset(s[1..]) == multiset(s) - multiset{s[0]}
  {
    assert s == [s[0]] + s[1..];
  }

  lemma {:induction false} SortedDistinctUnique(a: seq<Entry>, b: seq<Entry>)
    requires SortedBy(a, KEY_ORDER) && SortedBy(b, KEY_ORDER) && DistinctKeys(a)
    requires multiset(a) == multiset(b)
    ensures a == b
  {
    hide KeyLe;
    MultisetMembership(a, b);
    if a != [] {
      SameHead(a, b);
      TailMultiset(a);
      TailMultiset(b);
      SortedDistinctUnique(a[1..], b[1..]);
      assert a == [a[0]] + a[1..] && b == [b[0]] + b[1..];
    }
  }

  /** Reordering the entries of a map with distinct keys changes neither order after sorting nor encoding. */
  lemma EntryOrderIsIrrelevant(es: seq<Entry>, fs: seq<Entry>)
    requires multiset(es) == multiset(fs) && DistinctKeys(es)
    ensures Sorted(es) == Sorted(fs)
  {
    SortKeepsDistinct(es);
    SortedDistinctUnique(Sorted(es), Sorted(fs));
  }

  lemma {:induction false} InsertKeepsDistinct(x: Entry, s: seq<Entry>)
    ensures DistinctKeys(Insert(x, s, KEY_ORDER)) <==> DistinctKeys(s) && forall e :: e in s ==> e.key != x.key
    ensures forall e :: e in Insert(x, s, KEY_ORDER) <==> e == x || e in s
  {
    hide LexLe;
    if s == [] || KEY_ORDER(x, s[0]) {
      DistinctCons(x, s);
    } else {
      InsertKeepsDistinct(x, s[1..]);
      assert s == [s[0]] + s[1..];
      DistinctCons(s[0], Insert(x, s[1..], KEY_ORDER));
      DistinctCons(s[0], s[1..]);
    }
  }

  lemma DistinctCons(x: Entry, s: seq<Entry>)
    ensures DistinctKeys([x] + s) <==> DistinctKeys(s) && forall e :: e in s ==> e.key != x.key
  {
    var t := [x] + s;
    if DistinctKeys(t) {
      forall e | e in s ensures e.key != x.key {
        var i :| 0 <= i < |s| && s[i] == e;
        assert t[0] == x && t[i + 1] == e;
      }
      forall i, j | 0 <= i < j < |s| ensures s[i].key != s[j].key {
        assert t[i + 1] == s[i] && t[j + 1] == s[j];
      }
    }
  }

  lemma {:induction false} StableSortKeepsDistinct(s: seq<Entry>)
    ensures DistinctKeys(StableSort(s, KEY_ORDER)) <==> DistinctKeys(s)
    ensures forall e :: e in StableSort(s, KEY_ORDER) <==> e in s
  {
    hide LexLe;
    if s != [] {
      StableSortKeepsDistinct(s[1..]);
      InsertKeepsDistinct(s[0], StableSort(s[1..], KEY_ORDER));
      assert s == [s[0]] + s[1..];
      DistinctCons(s[0], s[1..]);
    }
  }

  lemma SortKeepsDistinct(es: seq<Entry>)
    ensures DistinctKeys(Sorted(es)) <==> DistinctKeys(es)
  {
    StableSortKeepsDistinct(es);
  }

  /** On a sorted vector, comparing neighbours finds every duplicate. */
  lemma NeighboursFindDuplicates(s: seq<Entry>)
    requires SortedBy(s, KEY_ORDER)
    ensures NeighboursDiffer(s) <==> DistinctKeys(s)
  {
    hide LexLe;
    if NeighboursDiffer(s) {
      forall i, j | 0 <= i < j < |s| ensures s[i].key != s[j].key {
        if s[i].key == s[j].key {
          assert KEY_ORDER(s[i], s[i + 1]);
          assert i + 1 < j ==> KEY_ORDER(s[i + 1], s[j]);
          LexAntisymmetric(s[i].key, s[i + 1].key);
        }
      }
    }
  }

  /** No map at any depth repeats a key. */
  ghost predicate NoDuplicates(v: Value)
    decreases v
  {
    match v
    case Sequence(items) => forall i :: 0 <= i < |items| ==> NoDuplicates(items[i])
    case Map(entries) => DistinctKeys(entries) && forall i :: 0 <= i < |entries| ==> NoDuplicates(entries[i].value)
    case _ => true
  }

  /** Every length fits the eight-byte prefix. */
  ghost predicate LengthsFit(v: Value)
    decreases v
  {
    match v
    case Str(text) => |text| <= U64_MAX
    case Raw(bytes) => |bytes| <= U64_MAX
    case Sequence(items) => |items| <= U64_MAX && forall i :: 0 <= i < |items| ==> LengthsFit(items[i])
    case Map(entries) =>
      && |entries| <= U64_MAX
      && forall i :: 0 <= i < |entries| ==> |entries[i].key| <= U64_MAX && LengthsFit(entries[i].value)
    case _ => true
  }

  /** Duplicate keys are rejected at every depth, and nothing else is apart from oversized lengths. */
  lemma {:induction false} EncodesExactly(v: Value)
    ensures EncodeValue(v).Ok? <==> NoDuplicates(v) && LengthsFit(v)
    decreases v, 1
  {
    hide Sorted, LengthBytes, EncodeItems, EncodeEntries, DistinctKeys, NeighboursDiffer;
    match v
    case Sequence(items) => ItemsEncodeExactly(v, items);
    case Map(entries) =>
      var sorted := Sorted(entries);
      NeighboursFindDuplicates(sorted);
      SortKeepsDistinct(entries);
      EntriesEncodeExactly(v, sorted);
      EntriesAgree(entries, sorted);
    case _ =>
  }

  ghost predicate EntryFits(e: Entry) { |e.key| <= U64_MAX && NoDuplicates(e.value) && LengthsFit(e.value) }

  lemma EntriesAgree(a: seq<Entry>, b: seq<Entry>)
    requires forall e :: e in b <==> e in a
    ensures (forall i :: 0 <= i < |a| ==> EntryFits(a[i])) <==> (forall i :: 0 <= i < |b| ==> EntryFits(b[i]))
  {
    hide EntryFits;
    if forall i :: 0 <= i < |a| ==> EntryFits(a[i]) {
      forall i | 0 <= i < |b| ensures EntryFits(b[i]) { assert b[i] in a; }
    }
    if forall i :: 0 <= i < |b| ==> EntryFits(b[i]) {
      forall i | 0 <= i < |a| ensures EntryFits(a[i]) { assert a[i] in b; }
    }
  }

  lemma {:induction false} ItemsEncodeExactly(context: Value, items: seq<Value>)
    requires forall i :: 0 <= i < |items| ==> items[i] < context
    ensures EncodeItems(context, items).Ok? <==> forall i :: 0 <= i < |items| ==> NoDuplicates(items[i]) && LengthsFit(items[i])
    decreases context, 0, |items|
  {
    hide EncodeValue, NoDuplicates, LengthsFit;
    if items != [] {
      EncodesExactly(items[0]);
      ItemsEncodeExactly(context, items[1..]);
      assert forall i :: 0 < i < |items| ==> items[i] == items[1..][i - 1];
      assert forall i :: 0 <= i < |items| - 1 ==> items[1..][i] == items[i + 1];
    }
  }

  lemma {:induction false} EntriesEncodeExactly(context: Value, entries: seq<Entry>)
    requires forall e :: e in entries ==> e.value < context
    ensures EncodeEntries(context, entries).Ok? <==> forall i :: 0 <= i < |entries| ==> EntryFits(entries[i])
    decreases context, 0, |entries|
  {
    hide EncodeValue, NoDuplicates, LengthsFit;
    if entries != [] {
      assert entries[0] in entries;
      EncodesExactly(entries[0].value);
      EntriesEncodeExactly(context, entries[1..]);
      assert forall i :: 0 < i < |entries| ==> entries[i] == entries[1..][i - 1];
      assert forall i :: 0 <= i < |entries| - 1 ==> entries[1..][i] == entries[i + 1];
    }
  }

  /* ---------- reading a normal form back ---------- */

  lemma {:induction false} NormEntryAt(context: Value, entries: seq<Entry>, i: nat)
    requires (forall e :: e in entries ==> e.value < context) && i < |entries|
    ensures entries[i] in entries
    ensures NormEntries(context, entries)[i] == Entry(entries[i].key, Norm(entries[i].value))
  {
    hide Norm;
    if i > 0 {
      NormEntryAt(context, entries[1..], i - 1);
    }
  }

  lemma {:induction false} NormItemAt(context: Value, items: seq<Value>, i: nat)
    requires (forall k :: 0 <= k < |items| ==> items[k] < context) && i < |items|
    ensures NormItems(context, items)[i] == Norm(items[i])
  {
    hide Norm;
    if i > 0 {
      NormItemAt(context, items[1..], i - 1);
    }
  }

  lemma NormScalar(v: Value)
    requires !v.Sequence? && !v.Map?
    ensures Norm(v) == v
  {}

  /** Sequences with the same normal form agree item by item. */
  lemma NormItemsAgree(v: Value, w: Value)
    requires v.Sequence? && w.Sequence? && Norm(v) == Norm(w)
    ensures |v.items| == |w.items| && forall i :: 0 <= i < |v.items| ==> Norm(v.items[i]) == Norm(w.items[i])
  {
    hide NormItems;
    assert Norm(v) == Sequence(NormItems(v, v.items)) && Norm(w) == Sequence(NormItems(w, w.items));
    hide Norm;
    assert |v.items| == |w.items|;
    forall i | 0 <= i < |v.items| ensures Norm(v.items[i]) == Norm(w.items[i]) {
      NormItemAt(v, v.items, i);
      NormItemAt(w, w.items, i);
    }
  }

  /** Maps with the same normal form hold, under every key, values with the same normal form. */
  lemma NormLookup(v: Value, w: Value, i: nat, j: nat)
    requires v.Map? && w.Map? && Norm(v) == Norm(w) && DistinctKeys(w.entries)
    requires i < |v.entries| && j < |w.entries| && v.entries[i].key == w.entries[j].key
    ensures Norm(v.entries[i].value) == Norm(w.entries[j].value)
  {
    hide Sorted, NormEntries, LexLe;
    var a, b := Sorted(v.entries), Sorted(w.entries);
    assert Norm(v) == Map(NormEntries(v, a)) && Norm(w) == Map(NormEntries(w, b));
    hide Norm;
    assert v.entries[i] in a && w.entries[j] in b;
    var k :| 0 <= k < |a| && a[k] == v.entries[i];
    var l :| 0 <= l < |b| && b[l] == w.entries[j];
    NormEntryAt(v, a, k);
    NormEntryAt(w, b, k);
    SortKeepsDistinct(w.entries);
  }

  /* ---------- reordering, without sorting ---------- */

  ghost function Keys(entries: seq<Entry>): set<Bytes> { set e | e in entries :: e.key }

  /** Equal up to the order of map entries, at every depth: same keys, and under each key reordered values. */
  ghost predicate Reordered(v: Value, w: Value)
    decreases v
  {
    match v
    case Sequence(items) =>
      w.Sequence? && |items| == |w.items| && forall i :: 0 <= i < |items| ==> Reordered(items[i], w.items[i])
    case Map(entries) =>
      && w.Map? && |entries| == |w.entries| && Keys(entries) == Keys(w.entries)
      && forall i, j :: 0 <= i < |entries| && 0 <= j < |w.entries| && entries[i].key == w.entries[j].key ==>
           Reordered(entries[i].value, w.entries[j].value)
    case _ => v == w
  }

  /** Sorted vectors over the same keys list them in the same places. */
  lemma {:induction false} SameKeysAt(a: seq<Entry>, b: seq<Entry>, k: nat)
    requires SortedBy(a, KEY_ORDER) && SortedBy(b, KEY_ORDER) && DistinctKeys(a) && DistinctKeys(b)
    requires Keys(a) == Keys(b) && |a| == |b| && k < |a|
    ensures a[k].key == b[k].key
    decreases k
  {
    hide KeyLe, LexLe;
    forall i | 0 <= i < k ensures a[i].key == b[i].key {
      SameKeysAt(a, b, i);
    }
    KeyNotBefore(a, b, k);
    KeyNotBefore(b, a, k);
    LexAntisymmetric(a[k].key, b[k].key);
  }

  lemma KeyNotBefore(a: seq<Entry>, b: seq<Entry>, k: nat)
    requires SortedBy(b, KEY_ORDER) && DistinctKeys(a)
    requires Keys(a) <= Keys(b) && |a| == |b| && k < |a| && forall i :: 0 <= i < k ==> a[i].key == b[i].key
    ensures LexLe(b[k].key, a[k].key)
  {
    hide LexLe;
    assert a[k] in a && a[k].key in Keys(a);
    var e :| e in b && e.key == a[k].key;
    var j :| 0 <= j < |b| && b[j] == e;
    assert j >= k;
    if j == k {
      LexTotal(e.key, e.key);
    } else {
      assert KEY_ORDER(b[k], b[j]);
    }
  }

  lemma SortKeepsKeys(entries: seq<Entry>)
    ensures Keys(Sorted(entries)) == Keys(entries)
  {
    hide Sorted;
  }

  /** A normal form shows the keys of the sorted vector. */
  lemma NormShowsKeys(v: Value, w: Value)
    requires v.Map? && w.Map? && Norm(v) == Norm(w)
    ensures |v.entries| == |w.entries| && Keys(v.entries) == Keys(w.entries)
  {
    hide Sorted, NormEntries, LexLe;
    var a, b := Sorted(v.entries), Sorted(w.entries);
    assert Norm(v) == Map(NormEntries(v, a)) && Norm(w) == Map(NormEntries(w, b));
    hide Norm;
    forall k | 0 <= k < |a| ensures k < |b| && a[k].key == b[k].key {
      NormEntryAt(v, a, k);
      NormEntryAt(w, b, k);
    }
    SortKeepsKeys(v.entries);
    SortKeepsKeys(w.entries);
    assert forall k :: 0 <= k < |a| ==> a[k].key in Keys(b) && b[k].key in Keys(a) by {
      assert forall k :: 0 <= k < |a| ==> b[k] in b && a[k] in a;
    }
  }

  lemma NormOfMaps(v: Value, w: Value)
    requires v.Map? && w.Map? && DistinctKeys(v.entries) && DistinctKeys(w.entries)
    requires |v.entries| == |w.entries| && Keys(v.entries) == Keys(w.entries)
    requires forall i, j :: 0 <= i < |v.entries| && 0 <= j < |w.entries| && v.entries[i].key == w.entries[j].key ==>
      Norm(v.entries[i].value) == Norm(w.entries[j].value)
    ensures Norm(v) == Norm(w)
  {
    hide Sorted, NormEntries, LexLe, KeyLe, DistinctKeys;
    var a, b := Sorted(v.entries), Sorted(w.entries);
    assert Norm(v) == Map(NormEntries(v, a)) && Norm(w) == Map(NormEntries(w, b));
    hide Norm;
    SortKeepsDistinct(v.entries);
    SortKeepsDistinct(w.entries);
    SortKeepsKeys(v.entries);
    SortKeepsKeys(w.entries);
    forall k | 0 <= k < |a| ensures NormEntries(v, a)[k] == NormEntries(w, b)[k] {
      SameKeysAt(a, b, k);
      NormEntryAt(v, a, k);
      NormEntryAt(w, b, k);
      var i :| 0 <= i < |v.entries| && v.entries[i] == a[k];
      var j :| 0 <= j < |w.entries| && w.entries[j] == b[k];
    }
  }

  lemma NormOfSequences(v: Value, w: Value)
    requires v.Sequence? && w.Sequence? && |v.items| == |w.items|
    requires forall i :: 0 <= i < |v.items| ==> Norm(v.items[i]) == Norm(w.items[i])
    ensures Norm(v) == Norm(w)
  {
    hide NormItems;
    assert Norm(v) == Sequence(NormItems(v, v.items)) && Norm(w) == Sequence(NormItems(w, w.items));
    hide Norm;
    forall i | 0 <= i < |v.items| ensures NormItems(v, v.items)[i] == NormItems(w, w.items)[i] {
      NormItemAt(v, v.items, i);
      NormItemAt(w, w.items, i);
    }
  }

  lemma NormKeepsKind(v: Value)
    ensures Norm(v).Sequence? <==> v.Sequence?
    ensures Norm(v).Map? <==> v.Map?
    ensures !v.Sequence? && !v.Map? ==> Norm(v) == v
  {}

  /** For values without duplicate keys, equal normal forms are exactly recursive reorderings. */
  lemma {:induction false} NormIsReordering(v: Value, w: Value)
    requires NoDuplicates(v) && NoDuplicates(w)
    ensures Norm(v) == Norm(w) <==> Reordered(v, w)
    decreases v
  {
    hide Norm, DistinctKeys, Keys;
    NormKeepsKind(v);
    NormKeepsKind(w);
    if v.Sequence? && w.Sequence? {
      if |v.items| == |w.items| {
        forall i | 0 <= i < |v.items| ensures Norm(v.items[i]) == Norm(w.items[i]) <==> Reordered(v.items[i], w.items[i]) {
          NormIsReordering(v.items[i], w.items[i]);
        }
        if Reordered(v, w) {
          NormOfSequences(v, w);
        }
      }
      if Norm(v) == Norm(w) {
        NormItemsAgree(v, w);
      }
    } else if v.Map? && w.Map? {
      forall i, j | 0 <= i < |v.entries| && 0 <= j < |w.entries|
        ensures Norm(v.entries[i].value) == Norm(w.entries[j].value) <==> Reordered(v.entries[i].value, w.entries[j].value)
      {
        NormIsReordering(v.entries[i].value, w.entries[j].value);
      }
      if Reordered(v, w) {
        NormOfMaps(v, w);
      }
      if Norm(v) == Norm(w) {
        NormShowsKeys(v, w);
        forall i, j | 0 <= i < |v.entries| && 0 <= j < |w.entries| && v.entries[i].key == w.entries[j].key
          ensures Norm(v.entries[i].value) == Norm(w.entries[j].value)
        {
          NormLookup(v, w, i, j);
        }
      }
    }
  }

  /** Encodings coincide exactly when tag and version do and the values are equal up to recursive reordering. */
  lemma EncodeIdentifiesReorderings(tag: Bytes, version: u32, v: Value, tag': Bytes, version': u32, w: Value)
    requires Encode(tag, version, v).Ok? && Encode(tag', version', w).Ok?
    ensures Encode(tag, version, v) == Encode(tag', version', w) <==>
      tag == tag' && version == version' && Reordered(v, w)
  {
    hide EncodeValue, Norm, Reordered, NoDuplicates, LengthsFit;
    EncodeIsCanonical(tag, version, v, tag', version', w);
    EncodesExactly(v);
    EncodesExactly(w);
    NormIsReordering(v, w);
  }

  /* ---------- the imperative encoder ---------- */

  /** The buffer every level of the encoder appends to. */
  class Output {
    var bytes: Bytes

    constructor ()
      ensures bytes == []
    {
      bytes := [];
    }

    method Push(more: Bytes)
      modifies this
      ensures bytes == old(bytes) + more
    {
      bytes := bytes + more;
    }
  }

  lemma PrependPrepend(a: Bytes, b: Bytes, rest: Encoded)
    ensures Prepend(a, Prepend(b, rest)) == Prepend(a + b, rest)
  {
    if rest.Ok? {
      assert a + (b + rest.value) == a + b + rest.value;
    }
  }

  /** `encode_value`: on success exactly the encoding has been appended to the shared buffer. */
  method WriteValue(v: Value, output: Output) returns (result: Result<(), CanonicalError>)
    modifies output
    ensures result.Err? ==> EncodeValue(v) == Err(result.error)
    ensures result.Ok? ==> EncodeValue(v).Ok? && output.bytes == old(output.bytes) + EncodeValue(v).value
    decreases v, 1
  {
    hide Sorted, LengthBytes, EncodeItems, EncodeEntries, BigEndian;
    match v {
      case Null =>
        output.Push([0x4E]);
      case Bool(flag) =>
        output.Push([0x42]);
        output.Push([if flag then 1 else 0]);
      case Integer(i) =>
        output.Push([0x49]);
        output.Push(BigEndian(16, Unsigned(i)));
      case Str(text) =>
        if |text| > U64_MAX { return Err(LengthOverflow); }
        output.Push([0x53] + LengthBytes(|text|));
        output.Push(text);
      case Raw(bytes) =>
        if |bytes| > U64_MAX { return Err(LengthOverflow); }
        output.Push([0x59] + LengthBytes(|bytes|));
        output.Push(bytes);
      case Sequence(items) =>
        if |items| > U64_MAX { return Err(LengthOverflow); }
        output.Push([0x51] + LengthBytes(|items|));
        var written := WriteItems(v, items, output);
        if written.Err? { return written; }
      case Map(entries) =>
        if |entries| > U64_MAX { return Err(LengthOverflow); }
        output.Push([0x4D] + LengthBytes(|entries|));
        var sorted := Sorted(entries);
        var duplicate := HasEqualNeighbours(sorted);
        if duplicate { return Err(DuplicateMapKey); }
        var written := WriteEntries(v, sorted, output);
        if written.Err? { return written; }
    }
    return Ok(());
  }

  method HasEqualNeighbours(sorted: seq<Entry>) returns (found: bool)
    ensures found <==> !NeighboursDiffer(sorted)
  {
    var i := 0;
    while i + 1 < |sorted|
      invariant 0 <= i && (i < |sorted| || sorted == [])
      invariant forall j :: 0 <= j < i && j + 1 < |sorted| ==> sorted[j].key != sorted[j + 1].key
    {
      if sorted[i].key == sorted[i + 1].key {
        return true;
      }
      i := i + 1;
    }
    return false;
  }

  method WriteItems(context: Value, items: seq<Value>, output: Output) returns (result: Result<(), CanonicalError>)
    requires forall i :: 0 <= i < |items| ==> items[i] < context
    modifies output
    ensures result.Err? ==> EncodeItems(context, items) == Err(result.error)
    ensures result.Ok? ==> EncodeItems(context, items).Ok? && output.bytes == old(output.bytes) + EncodeItems(context, items).value
    decreases context, 0
  {
    hide EncodeValue;
    ghost var done: Bytes := [];
    assert items[0..] == items;
    assert EncodeItems(context, items).Ok? ==> [] + EncodeItems(context, items).value == EncodeItems(context, items).value;
    for i := 0 to |items|
      invariant output.bytes == old(output.bytes) + done
      invariant EncodeItems(context, items) == Prepend(done, EncodeItems(context, items[i..]))
    {
      assert items[i..][0] == items[i] && items[i..][1..] == items[i + 1..];
      var written := WriteValue(items[i], output);
      if written.Err? {
        return written;
      }
      ghost var head := EncodeValue(items[i]).value;
      PrependPrepend(done, head, EncodeItems(context, items[i + 1..]));
      done := done + head;
    }
    assert done + [] == done;
    return Ok(());
  }

  method WriteEntries(context: Value, entries: seq<Entry>, output: Output) returns (result: Result<(), CanonicalError>)
    requires forall e :: e in entries ==> e.value < context
    modifies output
    ensures result.Err? ==> EncodeEntries(context, entries) == Err(result.error)
    ensures result.Ok? ==> EncodeEntries(context, entries).Ok? && output.bytes == old(output.bytes) + EncodeEntries(context, entries).value
    decreases context, 0
  {
    hide EncodeValue, LengthBytes;
    ghost var done: Bytes := [];
    assert entries[0..] == entries;
    assert EncodeEntries(context, entries).Ok? ==> [] + EncodeEntries(context, entries).value == EncodeEntries(context, entries).value;
    for i := 0 to |entries|
      invariant output.bytes == old(output.bytes) + done
      invariant EncodeEntries(context, entries) == Prepend(done, EncodeEntries(context, entries[i..]))
    {
      var entry := entries[i];
      assert entry in entries;
      assert entries[i..][0] == entry && entries[i..][1..] == entries[i + 1..];
      if |entry.key| > U64_MAX {
        return Err(LengthOverflow);
      }
      output.Push(LengthBytes(|entry.key|));
      output.Push(entry.key);
      var written := WriteValue(entry.value, output);
      if written.Err? {
        return written;
      }
      ghost var head := LengthBytes(|entry.key|) + entry.key + EncodeValue(entry.value).value;
      PrependPrepend(done, head, EncodeEntries(context, entries[i + 1..]));
      done := done + head;
    }
    assert done + [] == done;
    return Ok(());
  }

  method WriteCanonical(tag: Bytes, version: u32, value: Value) returns (result: Encoded)
    ensures result == Encode(tag, version, value)
  {
    hide EncodeValue, LengthBytes, BigEndian;
    if tag == [] {
      return Err(EmptySchemaTag);
    }
    var output := new Output();
    output.Push(FORMAT_MAGIC);
    if |tag| > U64_MAX {
      return Err(LengthOverflow);
    }
    output.Push(LengthBytes(|tag|));
    output.Push(tag);
    output.Push(BigEndian(4, version));
    var written := WriteValue(value, output);
    if written.Err? {
      return Err(written.error);
    }
    assert output.bytes == FORMAT_MAGIC + LengthBytes(|tag|) + tag + BigEndian(4, version) + EncodeValue(value).value;
    return Ok(output.bytes);
  }
}
