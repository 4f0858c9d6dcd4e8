/** FIFO sequences: removal of one element, absence of duplicates, sums over a sequence and a map. */
module Sequences {

  ghost function Elements<K>(s: seq<K>): set<K> {
    set k | k in s
  }

  ghost predicate NoDuplicates<K>(s: seq<K>) {
    forall i, j :: 0 <= i < j < |s| ==> s[i] != s[j]
  }

  ghost function Without<K>(s: seq<K>, k: K): (r: seq<K>) {
    if s == [] then [] else if s[0] == k then s[1..] else [s[0]] + Without(s[1..], k)
  }

  lemma {:induction false} WithoutAt<K>(s: seq<K>, i: nat)
    requires i < |s| && NoDuplicates(s)
    ensures Without(s, s[i]) == s[..i] + s[i + 1..]
    decreases i
  {
    if i != 0 {
      WithoutAt(s[1..], i - 1);
      assert s[1..][..i - 1] == s[1..i];
      assert s[1..][i..] == s[i + 1..];
      assert [s[0]] + s[1..i] == s[..i];
    }
  }

  lemma WithoutMembers<K>(s: seq<K>, k: K)
    requires NoDuplicates(s) && k in s
    ensures NoDuplicates(Without(s, k)) && |Without(s, k)| == |s| - 1
    ensures forall x :: x in Without(s, k) <==> x in s && x != k
  {
    var i :| 0 <= i < |s| && s[i] == k;
    WithoutAt(s, i);
    var w := s[..i] + s[i + 1..];
    forall x | x in s && x != k
      ensures x in w
    {
      var j :| 0 <= j < |s| && s[j] == x;
      assert w[if j < i then j else j - 1] == x;
    }
  }

  lemma {:induction false} DistinctCount<K>(s: seq<K>)
    requires NoDuplicates(s)
    ensures |Elements(s)| == |s|
  {
    if s != [] {
      var t, x := s[..|s| - 1], s[|s| - 1];
      DistinctCount(t);
      assert s == t + [x];
      assert x !in t;
      assert Elements(s) == Elements(t) + {x};
    } else {
      assert Elements(s) == {};
    }
  }

  /** The sum of a measure over a sequence of keys; a key without a measure counts zero. */
  ghost function SumBy<K>(s: seq<K>, m: map<K, int>): int {
    if s == [] then 0 else SumBy(s[..|s| - 1], m) + Measure(s[|s| - 1], m)
  }

  ghost function Measure<K>(k: K, m: map<K, int>): int {
    if k in m then m[k] else 0
  }

  lemma SumByAppend<K>(s: seq<K>, k: K, m: map<K, int>)
    ensures SumBy(s + [k], m) == SumBy(s, m) + Measure(k, m)
  {
    assert (s + [k])[..|s|] == s;
  }

  lemma {:induction false} SumByAgrees<K>(s: seq<K>, m: map<K, int>, n: map<K, int>)
    requires forall k :: k in s ==> Measure(k, m) == Measure(k, n)
    ensures SumBy(s, m) == SumBy(s, n)
  {
    if s != [] { SumByAgrees(s[..|s| - 1], m, n); }
  }

  lemma {:induction false} SumByConcat<K>(s: seq<K>, t: seq<K>, m: map<K, int>)
    ensures SumBy(s + t, m) == SumBy(s, m) + SumBy(t, m)
    decreases |t|
  {
    if t == [] {
      assert s + t == s;
    } else {
      var u := t[..|t| - 1];
      assert (s + t)[..|s + t| - 1] == s + u;
      SumByConcat(s, u, m);
    }
  }

  lemma SumByWithout<K>(s: seq<K>, k: K, m: map<K, int>)
    requires NoDuplicates(s) && k in s
    ensures SumBy(Without(s, k), m) == SumBy(s, m) - Measure(k, m)
  {
    var i :| 0 <= i < |s| && s[i] == k;
    WithoutAt(s, i);
    var p, q := s[..i], s[i + 1..];
    assert s == (p + [k]) + q;
    SumByConcat(p, q, m);
    SumByConcat(p + [k], q, m);
    SumByAppend(p, k, m);
  }

  /** Changing the measure of one element of a duplicate-free sequence. */
  lemma SumByUpdate<K>(s: seq<K>, k: K, m: map<K, int>, n: map<K, int>)
    requires NoDuplicates(s) && k in s
    requires forall x :: x in s && x != k ==> Measure(x, m) == Measure(x, n)
    ensures SumBy(s, n) == SumBy(s, m) - Measure(k, m) + Measure(k, n)
  {
    SumByWithout(s, k, m);
    SumByWithout(s, k, n);
    WithoutMembers(s, k);
    SumByAgrees(Without(s, k), m, n);
  }
}
