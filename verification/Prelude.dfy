/** Bytes, fixed-width integers and the few container facts the other modules share. */
module Prelude {

  datatype Option<+T> = None | Some(value: T)

  datatype Result<+T, +E> = Ok(value: T) | Err(error: E)

  type u8 = x: int | 0 <= x < 256

  type Bytes = seq<u8>

  const U64_MAX: nat := 0xFFFF_FFFF_FFFF_FFFF

  type u64 = x: int | 0 <= x <= U64_MAX

  /** `u64::saturating_add`. */
  function SaturatingAdd(a: u64, b: u64): u64 {
    if a + b > U64_MAX then U64_MAX else a + b
  }

  function Min(a: nat, b: nat): nat {
    if a <= b then a else b
  }

  /* ---------- big-endian integers ---------- */

  function Pow256(n: nat): (p: nat)
    ensures p >= 1
  {
    if n == 0 then 1 else Pow256(n - 1) * 256
  }

  /** The last `n` bytes of `v`, most significant first (`to_be_bytes`). */
  function BigEndian(n: nat, v: nat): (s: Bytes)
    ensures |s| == n
  {
    if n == 0 then [] else BigEndian(n - 1, v / 256) + [v % 256]
  }

  /** `from_be_bytes` for any width. */
  function FromBigEndian(s: Bytes): nat {
    if s == [] then 0 else FromBigEndian(s[..|s| - 1]) * 256 + s[|s| - 1]
  }

  lemma {:induction false} BigEndianRoundTrip(n: nat, v: nat)
    requires v < Pow256(n)
    ensures FromBigEndian(BigEndian(n, v)) == v
  {
    if n > 0 {
      BigEndianRoundTrip(n - 1, v / 256);
      assert BigEndian(n, v)[..n - 1] == BigEndian(n - 1, v / 256);
    }
  }

  lemma {:induction false} FromBigEndianRoundTrip(s: Bytes)
    ensures FromBigEndian(s) < Pow256(|s|)
    ensures BigEndian(|s|, FromBigEndian(s)) == s
  {
    if s != [] {
      FromBigEndianRoundTrip(s[..|s| - 1]);
      assert s == s[..|s| - 1] + [s[|s| - 1]];
    }
  }

  lemma PowerValues()
    ensures Pow256(2) == 0x1_0000 && Pow256(4) == 0x1_0000_0000 && Pow256(8) == U64_MAX + 1
  {
    assert Pow256(3) == 0x100_0000;
    assert Pow256(5) == 0x100_0000_0000;
    assert Pow256(6) == 0x1_0000_0000_0000;
    assert Pow256(7) == 0x100_0000_0000_0000;
  }

  /** Two concatenations that agree and whose heads have equal length agree part by part. */
  lemma SplitAt<T>(a: seq<T>, x: seq<T>, b: seq<T>, y: seq<T>)
    requires a + x == b + y
    requires |a| == |b|
    ensures a == b && x == y
  {
    assert a == (a + x)[..|a|] && b == (b + y)[..|b|];
    assert x == (a + x)[|a|..] && y == (b + y)[|b|..];
  }

  /* ---------- totals over a directory ---------- */

  /** Sum of `f` over the values of a finite map. */
  ghost function Total<K, V>(m: map<K, V>, f: V -> nat): nat
  {
    if m == map[] then 0 else
      var k :| k in m;
      f(m[k]) + Total(m - {k}, f)
  }

  lemma {:induction false} TotalSplit<K, V>(m: map<K, V>, f: V -> nat, k: K)
    requires k in m
    ensures Total(m, f) == f(m[k]) + Total(m - {k}, f)
  {
    var j :| j in m && Total(m, f) == f(m[j]) + Total(m - {j}, f);
    if j != k {
      TotalSplit(m - {j}, f, k);
      TotalSplit(m - {k}, f, j);
      assert m - {j} - {k} == m - {k} - {j};
    }
  }

  /** Multiset union of `f` over the values of a finite map. */
  ghost function Gather<K, V, R>(m: map<K, V>, f: V -> multiset<R>): multiset<R>
  {
    if m == map[] then multiset{} else
      var k :| k in m;
      f(m[k]) + Gather(m - {k}, f)
  }

  lemma {:induction false} GatherSplit<K, V, R>(m: map<K, V>, f: V -> multiset<R>, k: K)
    requires k in m
    ensures Gather(m, f) == f(m[k]) + Gather(m - {k}, f)
  {
    var j :| j in m && Gather(m, f) == f(m[j]) + Gather(m - {j}, f);
    if j != k {
      GatherSplit(m - {j}, f, k);
      GatherSplit(m - {k}, f, j);
      assert m - {j} - {k} == m - {k} - {j};
    }
  }

  lemma GatherAdd<K, V, R>(m: map<K, V>, f: V -> multiset<R>, k: K, v: V)
    requires k !in m
    ensures Gather(m[k := v], f) == f(v) + Gather(m, f)
  {
    GatherSplit(m[k := v], f, k);
    assert m[k := v] - {k} == m;
  }

  lemma TotalAdd<K, V>(m: map<K, V>, f: V -> nat, k: K, v: V)
    requires k !in m
    ensures Total(m[k := v], f) == f(v) + Total(m, f)
  {
    TotalSplit(m[k := v], f, k);
    assert m[k := v] - {k} == m;
  }

  /** Adding keys and replacing values pointwise by no smaller ones cannot lower the union. */
  lemma {:induction false} GatherMonotone<K, V, R>(m: map<K, V>, m': map<K, V>, f: V -> multiset<R>)
    requires m.Keys <= m'.Keys
    requires forall k :: k in m ==> f(m[k]) <= f(m'[k])
    ensures Gather(m, f) <= Gather(m', f)
  {
    if m != map[] {
      var k :| k in m;
      GatherSplit(m, f, k);
      GatherSplit(m', f, k);
      GatherMonotone(m - {k}, m' - {k}, f);
    }
  }

  lemma {:induction false} TotalMonotone<K, V>(m: map<K, V>, m': map<K, V>, f: V -> nat)
    requires m.Keys <= m'.Keys
    requires forall k :: k in m ==> f(m[k]) <= f(m'[k])
    ensures Total(m, f) <= Total(m', f)
  {
    if m != map[] {
      var k :| k in m;
      TotalSplit(m, f, k);
      TotalSplit(m', f, k);
      TotalMonotone(m - {k}, m' - {k}, f);
    }
  }

  /* ---------- stable sorting (`slice::sort_by`) ---------- */

  ghost predicate TotalPreorder<T(!new)>(le: (T, T) -> bool) {
    && (forall a, b :: le(a, b) || le(b, a))
    && (forall a, b, c :: le(a, b) && le(b, c) ==> le(a, c))
  }

  ghost predicate SortedBy<T>(s: seq<T>, le: (T, T) -> bool) {
    forall i, j :: 0 <= i < j < |s| ==> le(s[i], s[j])
  }

  function Insert<T>(x: T, s: seq<T>, le: (T, T) -> bool): seq<T> {
    if s == [] || le(x, s[0]) then [x] + s else [s[0]] + Insert(x, s[1..], le)
  }

  /** A stable sort: an element is placed before the later elements it does not exceed. */
  function StableSort<T>(s: seq<T>, le: (T, T) -> bool): seq<T> {
    if s == [] then [] else Insert(s[0], StableSort(s[1..], le), le)
  }

  lemma SortedCons<T>(x: T, t: seq<T>, le: (T, T) -> bool)
    requires SortedBy(t, le) && forall y :: y in t ==> le(x, y)
    ensures SortedBy([x] + t, le)
  {}

  lemma {:induction false} InsertSorted<T(!new)>(x: T, s: seq<T>, le: (T, T) -> bool)
    requires TotalPreorder(le) && SortedBy(s, le)
    ensures SortedBy(Insert(x, s, le), le)
    ensures multiset(Insert(x, s, le)) == multiset{x} + multiset(s)
  {
    if s == [] || le(x, s[0]) {
    } else {
      InsertSorted(x, s[1..], le);
      var t := Insert(x, s[1..], le);
      assert s == [s[0]] + s[1..];
      forall y | y in t ensures le(s[0], y) {
        assert y in multiset(t);
        assert y == x || y in s[1..];
      }
      SortedCons(s[0], t, le);
    }
  }

  lemma {:induction false} StableSortSorted<T(!new)>(s: seq<T>, le: (T, T) -> bool)
    requires TotalPreorder(le)
    ensures SortedBy(StableSort(s, le), le)
    ensures multiset(StableSort(s, le)) == multiset(s)
  {
    if s != [] {
      StableSortSorted(s[1..], le);
      InsertSorted(s[0], StableSort(s[1..], le), le);
      assert s == [s[0]] + s[1..];
    }
  }

  lemma {:induction false} SortedIsFixed<T(!new)>(s: seq<T>, le: (T, T) -> bool)
    requires TotalPreorder(le) && SortedBy(s, le)
    ensures StableSort(s, le) == s
  {
    if s != [] {
      SortedIsFixed(s[1..], le);
      assert s == [s[0]] + s[1..];
    }
  }

  lemma MultisetMembership<T>(s: seq<T>, t: seq<T>)
    requires multiset(s) == multiset(t)
    ensures |s| == |t|
    ensures forall x :: x in s <==> x in t
  {
    assert |multiset(s)| == |s| && |multiset(t)| == |t|;
    forall x ensures x in s <==> x in t {
      assert x in s <==> x in multiset(s);
      assert x in t <==> x in multiset(t);
    }
  }
}
