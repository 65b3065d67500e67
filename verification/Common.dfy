// Vocabulary shared by the models: options, first-occurrence deduplication and
// sums over sequences that do not depend on the order of the elements.
module Common {

  datatype Option<+T> = None | Some(value: T)

  datatype Result<+T, +E> = Ok(value: T) | Err(error: E)

  ghost predicate Distinct<T(!new)>(s: seq<T>) {
    forall i, j :: 0 <= i < j < |s| ==> s[i] != s[j]
  }

  lemma {:induction false} DistinctCounts<T(!new)>(s: seq<T>)
    requires Distinct(s)
    ensures forall x :: multiset(s)[x] == if x in s then 1 else 0
  {
    if s != [] {
      DistinctCounts(s[..|s| - 1]);
      assert s == s[..|s| - 1] + [s[|s| - 1]];
    }
  }

  // The elements of `s` in the order of their first occurrences.
  function Dedupe<T(==)>(s: seq<T>): seq<T> {
    if s == [] then []
    else
      var front := s[..|s| - 1];
      if s[|s| - 1] in front then Dedupe(front) else Dedupe(front) + [s[|s| - 1]]
  }

  lemma {:induction false} DedupeSpec<T(!new)>(s: seq<T>)
    ensures Distinct(Dedupe(s))
    ensures forall x :: x in Dedupe(s) <==> x in s
    ensures |Dedupe(s)| <= |s|
  {
    if s != [] {
      var front := s[..|s| - 1];
      DedupeSpec(front);
      assert s == front + [s[|s| - 1]];
    }
  }

  lemma {:induction false} DedupeOfDistinct<T(!new)>(s: seq<T>)
    requires Distinct(s)
    ensures Dedupe(s) == s
  {
    if s != [] {
      var front := s[..|s| - 1];
      DedupeOfDistinct(front);
      assert s == front + [s[|s| - 1]];
    }
  }

  // Sequences with the same first occurrences keep them when both are extended.
  lemma {:induction false} DedupeCongruent<T(!new)>(a: seq<T>, b: seq<T>, c: seq<T>)
    requires Dedupe(a) == Dedupe(b)
    ensures Dedupe(a + c) == Dedupe(b + c)
  {
    if c == [] {
      assert a + c == a && b + c == b;
    } else {
      var front, x := c[..|c| - 1], c[|c| - 1];
      DedupeCongruent(a, b, front);
      assert (a + c)[..|a + c| - 1] == a + front;
      assert (b + c)[..|b + c| - 1] == b + front;
      DedupeSpec(a + front);
      DedupeSpec(b + front);
      assert x in a + front <==> x in b + front;
    }
  }

  lemma {:induction false} DedupeAbsorbs<T(!new)>(a: seq<T>, b: seq<T>)
    requires forall x :: x in b ==> x in a
    ensures Dedupe(a + b) == Dedupe(a)
  {
    if b == [] {
      assert a + b == a;
    } else {
      var front := b[..|b| - 1];
      DedupeAbsorbs(a, front);
      assert (a + b)[..|a + b| - 1] == a + front;
    }
  }

  // A second copy of a prefix `p`, continued by `d`, only adds `d`.
  lemma DedupeRestart<T(!new)>(a: seq<T>, p: seq<T>, d: seq<T>)
    ensures Dedupe((a + p) + (p + d)) == Dedupe(a + (p + d))
  {
    DedupeAbsorbs(a + p, p);
    DedupeCongruent((a + p) + p, a + p, d);
    assert ((a + p) + p) + d == (a + p) + (p + d);
    assert (a + p) + d == a + (p + d);
  }

  lemma DedupeRepeatedPrefix<T(!new)>(a: seq<T>, b: seq<T>, m: nat, k: nat)
    requires m <= |b| && k <= |b|
    ensures Dedupe((a + b[..m]) + b[..k]) == Dedupe(a + b[..if m < k then k else m])
  {
    if k <= m {
      assert forall x :: x in b[..k] ==> x in b[..m];
      DedupeAbsorbs(a + b[..m], b[..k]);
    } else {
      assert b[..k] == b[..m] + b[m..k];
      DedupeRestart(a, b[..m], b[m..k]);
    }
  }

  ghost predicate AscendingBy<T(!new)>(s: seq<T>, key: T -> int) {
    forall i, j :: 0 <= i < j < |s| ==> key(s[i]) < key(s[j])
  }

  // Every element but the last comes before it.
  lemma LastIsGreatest<T(!new)>(s: seq<T>, x: T, key: T -> int)
    requires AscendingBy(s, key) && x in s
    ensures x == s[|s| - 1] || key(x) < key(s[|s| - 1])
    ensures x in s[..|s| - 1] <==> x != s[|s| - 1]
  {
    var i :| 0 <= i < |s| && s[i] == x;
    if i < |s| - 1 {
      assert s[..|s| - 1][i] == x;
    }
    assert forall k :: 0 <= k < |s| - 1 ==> key(s[k]) < key(s[|s| - 1]);
  }

  // Elements in ascending order have only one arrangement.
  lemma {:induction false} SameElementsSameOrder<T(!new)>(a: seq<T>, b: seq<T>, key: T -> int)
    requires AscendingBy(a, key) && AscendingBy(b, key) && forall x :: x in a <==> x in b
    ensures a == b
  {
    assert b == [] || b[0] in b;
    if a != [] {
      assert a[|a| - 1] in b;
      var x, y := a[|a| - 1], b[|b| - 1];
      assert x in a && y in b;
      LastIsGreatest(a, y, key);
      LastIsGreatest(b, x, key);
      var frontA, frontB := a[..|a| - 1], b[..|b| - 1];
      forall z
        ensures z in frontA <==> z in frontB
      {
        if z in a {
          LastIsGreatest(a, z, key);
          LastIsGreatest(b, z, key);
        }
      }
      SameElementsSameOrder(frontA, frontB, key);
      assert a == frontA + [x] && b == frontB + [x];
    }
  }

  function Abs(x: int): nat { if x < 0 then -x else x }

  lemma MultiplesOrdered(a: int, b: int, d: int)
    requires d > 0 && a <= b
    ensures a * d <= b * d
  {
  }

  lemma QuotientsOrdered(x: int, y: int, d: int)
    requires d > 0 && x <= y
    ensures x / d <= y / d
  {
    if y / d < x / d {
      MultiplesOrdered(y / d + 1, x / d, d);
    }
  }

  lemma {:induction false} SubsetSize<T>(a: set<T>, b: set<T>)
    requires a <= b
    ensures |a| <= |b|
  {
    if a != {} {
      var x :| x in a;
      SubsetSize(a - {x}, b - {x});
    }
  }

  function SumOf<T>(s: seq<T>, f: T -> int): int {
    if s == [] then 0 else SumOf(s[..|s| - 1], f) + f(s[|s| - 1])
  }

  lemma {:induction false} SumOfAppend<T>(a: seq<T>, b: seq<T>, f: T -> int)
    ensures SumOf(a + b, f) == SumOf(a, f) + SumOf(b, f)
  {
    if b == [] {
      assert a + b == a;
    } else {
      SumOfAppend(a, b[..|b| - 1], f);
      assert (a + b)[..|a + b| - 1] == a + b[..|b| - 1];
    }
  }

  function RealSumOf<T>(s: seq<T>, f: T -> real): real {
    if s == [] then 0.0 else RealSumOf(s[..|s| - 1], f) + f(s[|s| - 1])
  }

  lemma {:induction false} RealSumOfAppend<T>(a: seq<T>, b: seq<T>, f: T -> real)
    ensures RealSumOf(a + b, f) == RealSumOf(a, f) + RealSumOf(b, f)
  {
    if b == [] {
      assert a + b == a;
    } else {
      RealSumOfAppend(a, b[..|b| - 1], f);
      assert (a + b)[..|a + b| - 1] == a + b[..|b| - 1];
    }
  }

  lemma {:induction false} RealSumMonotone<T>(s: seq<T>, f: T -> real, g: T -> real)
    requires forall x :: x in s ==> f(x) <= g(x)
    ensures RealSumOf(s, f) <= RealSumOf(s, g)
  {
    if s != [] {
      assert s[|s| - 1] in s;
      RealSumMonotone(s[..|s| - 1], f, g);
    }
  }

  // Removing the last element of `a` from a rearrangement `b` of it.
  lemma SplitRearrangement<T>(a: seq<T>, b: seq<T>) returns (i: nat)
    requires a != [] && multiset(a) == multiset(b)
    ensures i < |b| && b[i] == a[|a| - 1]
    ensures multiset(a[..|a| - 1]) == multiset(b[..i] + b[i + 1..])
    ensures b == b[..i] + [b[i]] + b[i + 1..]
  {
    var x := a[|a| - 1];
    assert a == a[..|a| - 1] + [x];
    assert x in multiset(b);
    i :| 0 <= i < |b| && b[i] == x;
    assert b == b[..i] + [x] + b[i + 1..];
    assert multiset(b) == multiset(b[..i] + b[i + 1..]) + multiset{x};
    assert multiset(a) == multiset(a[..|a| - 1]) + multiset{x};
    assert multiset(a[..|a| - 1]) == multiset(a) - multiset{x};
    assert multiset(b[..i] + b[i + 1..]) == multiset(b) - multiset{x};
  }

  lemma {:induction false} SumOfRearranged<T>(a: seq<T>, b: seq<T>, f: T -> int)
    requires multiset(a) == multiset(b)
    ensures SumOf(a, f) == SumOf(b, f)
    decreases |a|
  {
    if a == [] {
      assert |multiset(b)| == |b|;
    } else {
      var i := SplitRearrangement(a, b);
      SumOfRearranged(a[..|a| - 1], b[..i] + b[i + 1..], f);
      SumOfAppend(b[..i], b[i + 1..], f);
      SumOfAppend(b[..i] + [b[i]], b[i + 1..], f);
      SumOfAppend(b[..i], [b[i]], f);
      assert SumOf([b[i]], f) == f(b[i]) by { assert [b[i]][..0] == []; }
    }
  }

  lemma {:induction false} RealSumOfRearranged<T>(a: seq<T>, b: seq<T>, f: T -> real)
    requires multiset(a) == multiset(b)
    ensures RealSumOf(a, f) == RealSumOf(b, f)
    decreases |a|
  {
    if a == [] {
      assert |multiset(b)| == |b|;
    } else {
      var i := SplitRearrangement(a, b);
      RealSumOfRearranged(a[..|a| - 1], b[..i] + b[i + 1..], f);
      RealSumOfAppend(b[..i], b[i + 1..], f);
      RealSumOfAppend(b[..i] + [b[i]], b[i + 1..], f);
      RealSumOfAppend(b[..i], [b[i]], f);
      assert RealSumOf([b[i]], f) == f(b[i]) by { assert [b[i]][..0] == []; }
    }
  }
}
