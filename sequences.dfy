/**
  The two collection built-ins the views lean on: `Array.prototype.filter`
  (`Select`) and `[...new Set(xs)]` (`Distinct`), with the facts about them
  the views' properties rest on.
*/
module Sequences {

  /** `a` is `b` with some elements left out, the rest kept in order. */
  predicate IsSubsequence<T(==)>(a: seq<T>, b: seq<T>)
    decreases |b|
  {
    if a == [] then true
    else if b == [] then false
    else if a[0] == b[0] then IsSubsequence(a[1..], b[1..])
    else IsSubsequence(a, b[1..])
  }

  /** `s.filter(p)` */
  function Select<T>(s: seq<T>, p: T -> bool): seq<T>
  {
    if s == [] then [] else (if p(s[0]) then [s[0]] else []) + Select(s[1..], p)
  }

  lemma {:induction false} SelectIsSubsequence<T>(s: seq<T>, p: T -> bool)
    ensures IsSubsequence(Select(s, p), s)
  {
    if s != [] {
      SelectIsSubsequence(s[1..], p);
      var r := Select(s[1..], p);
      if p(s[0]) {
        assert Select(s, p) == [s[0]] + r;
        assert ([s[0]] + r)[1..] == r;
      } else {
        assert Select(s, p) == r;
        SubsequenceOfTail(r, s);
      }
    }
  }

  lemma {:induction false} SubsequenceOfTail<T>(a: seq<T>, b: seq<T>)
    requires b != [] && IsSubsequence(a, b[1..])
    ensures IsSubsequence(a, b)
    decreases |a| + |b|
  {
    if a != [] && a[0] == b[0] {
      SubsequenceDropFirst(a, b[1..]);
    }
  }

  lemma {:induction false} SubsequenceDropFirst<T>(a: seq<T>, b: seq<T>)
    requires a != [] && IsSubsequence(a, b)
    ensures IsSubsequence(a[1..], b)
    decreases |a| + |b|
  {
    if b != [] {
      if a[0] == b[0] {
        SubsequenceOfTail(a[1..], b);
      } else {
        SubsequenceDropFirst(a, b[1..]);
        SubsequenceOfTail(a[1..], b);
      }
    }
  }

  /** `Select` keeps exactly the elements that satisfy the predicate. */
  lemma {:induction false} SelectMembers<T>(s: seq<T>, p: T -> bool, x: T)
    ensures x in Select(s, p) <==> x in s && p(x)
  {
    if s != [] {
      SelectMembers(s[1..], p, x);
    }
  }

  /** A filter every element passes changes nothing. */
  lemma {:induction false} SelectAll<T>(s: seq<T>, p: T -> bool)
    requires forall i :: 0 <= i < |s| ==> p(s[i])
    ensures Select(s, p) == s
  {
    if s != [] {
      SelectAll(s[1..], p);
      assert [s[0]] + s[1..] == s;
    }
  }

  /** A filter no element passes yields the empty sequence. */
  lemma {:induction false} SelectNone<T>(s: seq<T>, p: T -> bool)
    requires forall i :: 0 <= i < |s| ==> !p(s[i])
    ensures Select(s, p) == []
  {
    if s != [] {
      SelectNone(s[1..], p);
    }
  }

  /** Filtering twice with the same predicate is filtering once. */
  lemma SelectIdempotent<T>(s: seq<T>, p: T -> bool)
    ensures Select(Select(s, p), p) == Select(s, p)
  {
    var r := Select(s, p);
    forall i | 0 <= i < |r|
      ensures p(r[i])
    {
      SelectMembers(s, p, r[i]);
    }
    SelectAll(r, p);
  }

  lemma {:induction false} SelectConcat<T>(a: seq<T>, b: seq<T>, p: T -> bool)
    ensures Select(a + b, p) == Select(a, p) + Select(b, p)
  {
    if a == [] {
      assert a + b == b;
    } else {
      var ab := a + b;
      assert ab[0] == a[0];
      assert ab[1..] == a[1..] + b;
      SelectConcat(a[1..], b, p);
      var head := if p(a[0]) then [a[0]] else [];
      assert Select(ab, p) == head + Select(a[1..] + b, p);
      assert Select(a, p) == head + Select(a[1..], p);
    }
  }

  /** Two predicates that agree on every element filter alike. */
  lemma {:induction false} SelectCongruent<T>(s: seq<T>, p: T -> bool, q: T -> bool)
    requires forall i :: 0 <= i < |s| ==> p(s[i]) == q(s[i])
    ensures Select(s, p) == Select(s, q)
  {
    if s != [] {
      SelectCongruent(s[1..], p, q);
    }
  }

  /** Filtering by `p` and then by `q` is filtering by their conjunction `pq`. */
  lemma {:induction false} SelectFuse<T>(s: seq<T>, p: T -> bool, q: T -> bool, pq: T -> bool)
    requires forall i :: 0 <= i < |s| ==> pq(s[i]) == (p(s[i]) && q(s[i]))
    ensures Select(Select(s, p), q) == Select(s, pq)
  {
    if s != [] {
      SelectFuse(s[1..], p, q, pq);
      var rest := Select(s[1..], p);
      if p(s[0]) {
        assert Select(s, p) == [s[0]] + rest;
        assert ([s[0]] + rest)[1..] == rest;
      } else {
        assert Select(s, p) == rest;
      }
    }
  }

  /** Filtering by a disjunction of two exclusive predicates counts each side. */
  lemma {:induction false} SelectSplitCount<T>(s: seq<T>, p: T -> bool, q: T -> bool, pq: T -> bool)
    requires forall i :: 0 <= i < |s| ==> !(p(s[i]) && q(s[i]))
    requires forall i :: 0 <= i < |s| ==> pq(s[i]) == (p(s[i]) || q(s[i]))
    ensures |Select(s, pq)| == |Select(s, p)| + |Select(s, q)|
  {
    if s != [] {
      SelectSplitCount(s[1..], p, q, pq);
    }
  }

  /** `Select` keeps the relative order of the elements it keeps. */
  lemma {:induction false} SelectOrder<T>(s: seq<T>, p: T -> bool, i: nat, j: nat)
    requires i < j < |Select(s, p)|
    ensures exists i', j' :: 0 <= i' < j' < |s| && s[i'] == Select(s, p)[i] && s[j'] == Select(s, p)[j]
  {
    var r := Select(s[1..], p);
    if p(s[0]) {
      assert Select(s, p) == [s[0]] + r;
      if i == 0 {
        SelectMembers(s[1..], p, r[j - 1]);
        var k :| 0 <= k < |s[1..]| && s[1..][k] == r[j - 1];
        assert s[0] == Select(s, p)[i] && s[k + 1] == Select(s, p)[j];
      } else {
        SelectOrder(s[1..], p, i - 1, j - 1);
        var i', j' :| 0 <= i' < j' < |s[1..]| && s[1..][i'] == r[i - 1] && s[1..][j'] == r[j - 1];
        assert s[i' + 1] == Select(s, p)[i] && s[j' + 1] == Select(s, p)[j];
      }
    } else {
      assert Select(s, p) == r;
      SelectOrder(s[1..], p, i, j);
      var i', j' :| 0 <= i' < j' < |s[1..]| && s[1..][i'] == r[i] && s[1..][j'] == r[j];
      assert s[i' + 1] == Select(s, p)[i] && s[j' + 1] == Select(s, p)[j];
    }
  }

  /** Filtering a sequence without repeats leaves one without repeats. */
  lemma {:induction false} SelectNoDuplicates<T>(s: seq<T>, p: T -> bool)
    requires NoDuplicates(s)
    ensures NoDuplicates(Select(s, p))
  {
    if s != [] {
      SelectNoDuplicates(s[1..], p);
      SelectMembers(s[1..], p, s[0]);
    }
  }

  // ---------------------------------------------------------------------
  // [...new Set(xs)]

  predicate NoDuplicates<T(==)>(s: seq<T>)
  {
    forall i, j :: 0 <= i < j < |s| ==> s[i] != s[j]
  }

  lemma NoDuplicatesCons<T>(x: T, s: seq<T>)
    requires NoDuplicates(s) && x !in s
    ensures NoDuplicates([x] + s)
  {
    var r := [x] + s;
    forall i, j | 0 <= i < j < |r|
      ensures r[i] != r[j]
    {
      assert r[j] == s[j - 1];
      if i > 0 {
        assert r[i] == s[i - 1];
      }
    }
  }

  /** The distinct elements of `s`, in the order of their first occurrence. */
  function Distinct<T(==)>(s: seq<T>): seq<T>
  {
    if s == [] then []
    else
      var d := Distinct(s[..|s| - 1]);
      if s[|s| - 1] in d then d else d + [s[|s| - 1]]
  }

  /** Index of the first occurrence of `x` in `s`. */
  function FirstIndex<T(==)>(s: seq<T>, x: T): (k: nat)
    requires x in s
    ensures k < |s| && s[k] == x && x !in s[..k]
  {
    if s[0] == x then 0 else 1 + FirstIndex(s[1..], x)
  }

  /** No occurrence of `x` comes before its first one. */
  lemma {:induction false} FirstIndexMinimal<T>(s: seq<T>, x: T, i: nat)
    requires i < |s| && s[i] == x
    ensures FirstIndex(s, x) <= i
  {
    if s[0] != x {
      FirstIndexMinimal(s[1..], x, i - 1);
    }
  }

  lemma FirstIndexOfPrefix<T>(s: seq<T>, n: nat, x: T)
    requires n <= |s| && x in s[..n]
    ensures FirstIndex(s, x) == FirstIndex(s[..n], x)
  {
    var k := FirstIndex(s[..n], x);
    FirstIndexMinimal(s, x, k);
    var k' := FirstIndex(s, x);
    FirstIndexMinimal(s[..n], x, k');
  }

  /** `Distinct` holds the elements of `s` and nothing else. */
  lemma {:induction false} DistinctMembers<T>(s: seq<T>, x: T)
    ensures x in Distinct(s) <==> x in s
  {
    if s != [] {
      var init := s[..|s| - 1];
      DistinctMembers(init, x);
      assert s == init + [s[|s| - 1]];
    }
  }

  /** Removing repeats and filtering commute: `[...new Set(xs)].filter(p)` lists
      the same elements, in the same order, as `[...new Set(xs.filter(p))]`. */
  lemma {:induction false} SelectDistinct<T>(s: seq<T>, p: T -> bool)
    ensures Select(Distinct(s), p) == Distinct(Select(s, p))
  {
    if s != [] {
      var init, x := s[..|s| - 1], s[|s| - 1];
      assert s == init + [x];
      SelectDistinct(init, p);
      SelectConcat(init, [x], p);
      var d, t := Distinct(init), Select(init, p);
      DistinctMembers(init, x);
      SelectMembers(init, p, x);
      if p(x) {
        assert Select(s, p) == t + [x];
        assert (t + [x])[..|t|] == t;
        DistinctMembers(t, x);
        if x !in d {
          SelectConcat(d, [x], p);
        }
      } else {
        assert Select(s, p) == t + [];
        assert t + [] == t;
        if x !in d {
          SelectConcat(d, [x], p);
          assert Select(d, p) + [] == Select(d, p);
        }
      }
    }
  }

  /** `Distinct` holds each element once. */
  lemma {:induction false} DistinctNoDuplicates<T>(s: seq<T>)
    ensures NoDuplicates(Distinct(s))
  {
    if s != [] {
      var init := s[..|s| - 1];
      DistinctNoDuplicates(init);
      DistinctMembers(init, s[|s| - 1]);
    }
  }

  /** `Distinct` lists the elements in the order in which they first occur in `s`. */
  lemma {:induction false} DistinctOrder<T>(s: seq<T>, i: nat, j: nat)
    requires i < j < |Distinct(s)|
    ensures Distinct(s)[i] in s && Distinct(s)[j] in s
    ensures FirstIndex(s, Distinct(s)[i]) < FirstIndex(s, Distinct(s)[j])
  {
    var n := |s| - 1;
    var init := s[..n];
    var x := s[n];
    var d := Distinct(init);
    assert s == init + [x];
    var r := Distinct(s);
    assert r == if x in d then d else d + [x];
    assert r[i] == d[i];
    DistinctMembers(init, d[i]);
    FirstIndexOfPrefix(s, n, d[i]);
    if j < |d| {
      DistinctOrder(init, i, j);
      assert r[j] == d[j];
      DistinctMembers(init, d[j]);
      FirstIndexOfPrefix(s, n, d[j]);
    } else {
      DistinctMembers(init, x);
      assert r[j] == x;
      FirstIndexMinimal(s, x, n);
    }
  }
}
