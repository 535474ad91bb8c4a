/**
 Row selection. `Where` is the reference meaning of a filter (keep the rows that
 satisfy a condition, in order); `Select` is what pandas does for `df[mask]`
 with a boolean Series built from the same rows.
 */
module Selection {

  function Where<T(==)>(s: seq<T>, p: T -> bool): (r: seq<T>)
    ensures |r| <= |s|
    ensures forall i :: 0 <= i < |r| ==> r[i] in s && p(r[i])
    ensures forall i :: 0 <= i < |s| && p(s[i]) ==> s[i] in r
  {
    if s == [] then [] else (if p(s[0]) then [s[0]] else []) + Where(s[1..], p)
  }

  /** The boolean Series `p(df)`: one entry per row. */
  function MaskOf<T>(s: seq<T>, p: T -> bool): (mask: seq<bool>)
    ensures |mask| == |s|
    ensures forall i :: 0 <= i < |s| ==> mask[i] == p(s[i])
  {
    seq(|s|, i requires 0 <= i < |s| => p(s[i]))
  }

  /** Boolean indexing `df[mask]`: the rows whose mask entry is True, in order. */
  function Select<T>(s: seq<T>, mask: seq<bool>): (r: seq<T>)
    requires |mask| == |s|
    ensures |r| <= |s|
    ensures (forall i :: 0 <= i < |mask| ==> mask[i]) ==> r == s
    ensures (forall i :: 0 <= i < |mask| ==> !mask[i]) ==> r == []
  {
    if s == [] then [] else (if mask[0] then [s[0]] else []) + Select(s[1..], mask[1..])
  }

  /** `s` can be obtained from `t` by deleting elements, without reordering. */
  ghost predicate IsSubsequence<T>(s: seq<T>, t: seq<T>)
    decreases |t|
  {
    if s == [] then true
    else if t == [] then false
    else (s[0] == t[0] && IsSubsequence(s[1..], t[1..])) || IsSubsequence(s, t[1..])
  }

  /** Indexing with the mask built from a condition is filtering by that condition. */
  lemma {:induction false} SelectMaskIsWhere<T>(s: seq<T>, p: T -> bool)
    ensures Select(s, MaskOf(s, p)) == Where(s, p)
  {
    if s != [] {
      assert MaskOf(s, p)[1..] == MaskOf(s[1..], p);
      SelectMaskIsWhere(s[1..], p);
    }
  }

  lemma {:induction false} WhereIsSubsequence<T>(s: seq<T>, p: T -> bool)
    ensures IsSubsequence(Where(s, p), s)
  {
    if s != [] {
      WhereIsSubsequence(s[1..], p);
      var rest := Where(s[1..], p);
      if p(s[0]) {
        assert Where(s, p) == [s[0]] + rest;
        assert ([s[0]] + rest)[1..] == rest;
      } else {
        assert Where(s, p) == rest;
        SubsequenceOfTail(rest, s);
      }
    }
  }

  lemma {:induction false} SubsequenceOfTail<T>(r: seq<T>, s: seq<T>)
    requires s != [] && IsSubsequence(r, s[1..])
    ensures IsSubsequence(r, s)
  {
  }

  /** A condition that holds of every element removes nothing. */
  lemma {:induction false} WhereKeepsAll<T>(s: seq<T>, p: T -> bool)
    requires forall i :: 0 <= i < |s| ==> p(s[i])
    ensures Where(s, p) == s
  {
    if s != [] {
      WhereKeepsAll(s[1..], p);
    }
  }

  /** Two conditions that agree everywhere select the same rows. */
  lemma {:induction false} WhereCongruent<T>(s: seq<T>, p: T -> bool, q: T -> bool)
    requires forall i :: 0 <= i < |s| ==> p(s[i]) == q(s[i])
    ensures Where(s, p) == Where(s, q)
  {
    if s != [] {
      WhereCongruent(s[1..], p, q);
    }
  }

  /** Filtering by `p` and then by `q` is filtering by their conjunction `both`. */
  lemma {:induction false} WhereWhere<T>(s: seq<T>, p: T -> bool, q: T -> bool, both: T -> bool)
    requires forall i :: 0 <= i < |s| ==> both(s[i]) == (p(s[i]) && q(s[i]))
    ensures Where(Where(s, p), q) == Where(s, both)
  {
    if s != [] {
      WhereWhere(s[1..], p, q, both);
      var rest := Where(s[1..], p);
      if p(s[0]) {
        assert Where(s, p) == [s[0]] + rest;
        assert ([s[0]] + rest)[1..] == rest;
        assert Where(Where(s, p), q) == (if q(s[0]) then [s[0]] else []) + Where(rest, q);
      } else {
        assert Where(s, p) == rest;
      }
    }
  }

  /** Two narrowings commute. */
  lemma WhereCommutes<T>(s: seq<T>, p: T -> bool, q: T -> bool)
    ensures Where(Where(s, p), q) == Where(Where(s, q), p)
  {
    var both := x => p(x) && q(x);
    WhereWhere(s, p, q, both);
    WhereWhere(s, q, p, both);
  }

  /** Filtering a second time by the same condition removes nothing more. */
  lemma WhereIdempotent<T>(s: seq<T>, p: T -> bool)
    ensures Where(Where(s, p), p) == Where(s, p)
  {
    var r := Where(s, p);
    assert forall i :: 0 <= i < |r| ==> r[i] in r;
    WhereKeepsAll(r, p);
  }

  /** The elements of `s` appear in strictly increasing order of `key`. */
  predicate IncreasingBy<T>(s: seq<T>, key: T -> int)
  {
    forall i, j :: 0 <= i < j < |s| ==> key(s[i]) < key(s[j])
  }

  /** Filtering keeps the relative order of what it keeps, measured by any key. */
  lemma {:induction false} WherePreservesIncreasing<T>(s: seq<T>, p: T -> bool, key: T -> int)
    requires IncreasingBy(s, key)
    ensures IncreasingBy(Where(s, p), key)
  {
    if s != [] {
      WherePreservesIncreasing(s[1..], p, key);
      var rest := Where(s[1..], p);
      if p(s[0]) {
        WhereKeyAbove(s[1..], p, key, key(s[0]));
        var r := [s[0]] + rest;
        assert Where(s, p) == r;
        assert forall j :: 0 < j < |r| ==> r[j] == rest[j - 1];
      } else {
        assert Where(s, p) == rest;
      }
    }
  }

  lemma {:induction false} WhereKeyAbove<T>(s: seq<T>, p: T -> bool, key: T -> int, bound: int)
    requires forall i :: 0 <= i < |s| ==> bound < key(s[i])
    ensures var r := Where(s, p); forall i :: 0 <= i < |r| ==> bound < key(r[i])
  {
    if s != [] {
      WhereKeyAbove(s[1..], p, key, bound);
    }
  }

  lemma {:induction false} WhereAppend<T>(a: seq<T>, b: seq<T>, p: T -> bool)
    ensures Where(a + b, p) == Where(a, p) + Where(b, p)
  {
    if a != [] {
      assert (a + b)[1..] == a[1..] + b;
      WhereAppend(a[1..], b, p);
      var head := if p(a[0]) then [a[0]] else [];
      assert Where(a, p) == head + Where(a[1..], p);
      calc {
        Where(a + b, p);
        head + Where(a[1..] + b, p);
        head + (Where(a[1..], p) + Where(b, p));
        (head + Where(a[1..], p)) + Where(b, p);
      }
    } else {
      assert a + b == b;
    }
  }
}
