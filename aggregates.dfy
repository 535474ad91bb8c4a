/**
 The column aggregates the reporters are built from: occurrence counts,
 `Series.value_counts()` and `Series.mode()`.
 */
module Aggregates {

  import opened Trips

  /** How often `x` occurs in `s`. */
  function Count<T(==)>(s: seq<T>, x: T): (n: nat)
    ensures n <= |s|
    ensures n == 0 <==> x !in s
  {
    if s == [] then 0 else (if s[0] == x then 1 else 0) + Count(s[1..], x)
  }

  lemma {:induction false} CountAppend<T>(a: seq<T>, b: seq<T>, x: T)
    ensures Count(a + b, x) == Count(a, x) + Count(b, x)
  {
    if a == [] {
      assert a + b == b;
    } else {
      assert (a + b)[1..] == a[1..] + b;
      CountAppend(a[1..], b, x);
    }
  }

  predicate NoDuplicates<T(==)>(s: seq<T>)
  {
    forall i, j :: 0 <= i < j < |s| ==> s[i] != s[j]
  }

  /** The distinct values of a column, each once. */
  function Distinct<T(==)>(s: seq<T>): (r: seq<T>)
    ensures NoDuplicates(r)
    ensures forall i :: 0 <= i < |r| ==> r[i] in s
    ensures forall i :: 0 <= i < |s| ==> s[i] in r
  {
    if s == [] then []
    else
      var rest := Distinct(s[1..]);
      if s[0] in rest then rest else [s[0]] + rest
  }

  /** One (value, count) entry for each of `keys`. */
  function CountsFor<T(==)>(s: seq<T>, keys: seq<T>): (r: seq<(T, nat)>)
    ensures |r| == |keys|
    ensures forall i :: 0 <= i < |r| ==> r[i] == (keys[i], Count(s, keys[i]))
  {
    if keys == [] then [] else [(keys[0], Count(s, keys[0]))] + CountsFor(s, keys[1..])
  }

  /**
   `Series.value_counts()` on a column without missing cells: each distinct value
   once, paired with its number of occurrences. (pandas orders the entries by
   count; which entry comes first is not modelled.)
   */
  function ValueCounts<T(==)>(s: seq<T>): (r: seq<(T, nat)>)
    ensures forall i :: 0 <= i < |r| ==> r[i].0 in s && r[i].1 == Count(s, r[i].0) && r[i].1 > 0
    ensures forall i, j :: 0 <= i < j < |r| ==> r[i].0 != r[j].0
    ensures forall i :: 0 <= i < |s| ==> exists k :: 0 <= k < |r| && r[k].0 == s[i]
  {
    CountsFor(s, Distinct(s))
  }

  /** The sum of the counts of a value_counts result. */
  function Total<T>(counts: seq<(T, nat)>): nat
  {
    if counts == [] then 0 else counts[0].1 + Total(counts[1..])
  }

  /** The counts of value_counts add up to the length of the column. */
  lemma ValueCountsTotal<T>(s: seq<T>)
    ensures Total(ValueCounts(s)) == |s|
  {
    TotalCountsFor(s, Distinct(s));
  }

  lemma {:induction false} TotalCountsFor<T>(s: seq<T>, keys: seq<T>)
    requires NoDuplicates(keys)
    requires forall i :: 0 <= i < |s| ==> s[i] in keys
    ensures Total(CountsFor(s, keys)) == |s|
  {
    if s == [] {
      TotalCountsForEmpty(s, keys);
    } else {
      var t := s[1..];
      assert s == [s[0]] + t;
      TotalCountsForCons(s[0], t, keys);
      CountOnce(keys, s[0]);
      TotalCountsFor(t, keys);
    }
  }

  lemma {:induction false} TotalCountsForEmpty<T>(s: seq<T>, keys: seq<T>)
    requires s == []
    ensures Total(CountsFor(s, keys)) == 0
  {
    if keys != [] {
      TotalCountsForEmpty(s, keys[1..]);
    }
  }

  /** Adding one row `a` in front adds to the total exactly the occurrences of `a` among the keys. */
  lemma {:induction false} TotalCountsForCons<T>(a: T, t: seq<T>, keys: seq<T>)
    ensures Total(CountsFor([a] + t, keys)) == Count(keys, a) + Total(CountsFor(t, keys))
  {
    if keys != [] {
      assert ([a] + t)[1..] == t;
      TotalCountsForCons(a, t, keys[1..]);
    }
  }

  lemma {:induction false} CountOnce<T>(keys: seq<T>, a: T)
    requires NoDuplicates(keys) && a in keys
    ensures Count(keys, a) == 1
  {
    if keys[0] != a {
      CountOnce(keys[1..], a);
    } else {
      assert a !in keys[1..];
    }
  }

  /** `m` is a mode of `s`: it occurs, and no value occurs more often. */
  ghost predicate IsMode<T(!new)>(s: seq<T>, m: T)
  {
    m in s && forall x :: Count(s, x) <= Count(s, m)
  }

  /** A candidate occurring most often in `s`, the first one on ties. */
  function MostCommonAmong<T(==)>(candidates: seq<T>, s: seq<T>): (m: T)
    requires candidates != []
    ensures m in candidates
    ensures forall i :: 0 <= i < |candidates| ==> Count(s, candidates[i]) <= Count(s, m)
  {
    if |candidates| == 1 then candidates[0]
    else
      var best := MostCommonAmong(candidates[1..], s);
      if Count(s, best) <= Count(s, candidates[0]) then candidates[0] else best
  }

  /**
   `Series.mode()[0]`: a most frequent value. An empty column has no mode, and
   indexing the empty result raises, which is None here.
   */
  function Mode<T(==,!new)>(s: seq<T>): (r: Option<T>)
    ensures r.None? <==> s == []
    ensures r.Some? ==> IsMode(s, r.value)
  {
    if s == [] then None else Some(MostCommonAmong(s, s))
  }
}
