/** Listings: filtering, adding up, and what does not depend on the order of a listing. */
module Sequences {
  predicate Distinct<T(==)>(s: seq<T>) { forall i, j :: 0 <= i < j < |s| ==> s[i] != s[j] }

  /** The elements of s that satisfy f, in order. */
  function Keep<T(!new)>(s: seq<T>, f: T -> bool): (r: seq<T>)
    ensures |r| <= |s|
    ensures forall x :: x in r <==> x in s && f(x)
  {
    if s == [] then []
    else Keep(s[..|s| - 1], f) + (if f(s[|s| - 1]) then [s[|s| - 1]] else [])
  }

  function Map<T, U>(s: seq<T>, h: T -> U): (r: seq<U>)
    ensures |r| == |s|
    ensures forall i :: 0 <= i < |s| ==> r[i] == h(s[i])
  {
    seq(|s|, i requires 0 <= i < |s| => h(s[i]))
  }

  function Total<T>(s: seq<T>, weight: T -> real): real {
    if s == [] then 0.0 else Total(s[..|s| - 1], weight) + weight(s[|s| - 1])
  }

  lemma SameMembers<T>(a: seq<T>, b: seq<T>)
    requires multiset(a) == multiset(b)
    ensures forall x :: x in a <==> x in b
  {
    forall x
      ensures x in a <==> x in b
    {
      assert x in a <==> x in multiset(a);
      assert x in b <==> x in multiset(b);
    }
  }

  lemma SameLength<T>(a: seq<T>, b: seq<T>)
    requires multiset(a) == multiset(b)
    ensures |a| == |b|
  {
    assert |a| == |multiset(a)| == |multiset(b)| == |b|;
  }

  lemma {:induction false} DistinctCounts<T>(s: seq<T>, x: T)
    requires Distinct(s)
    ensures multiset(s)[x] <= 1
  {
    if s == [] {
    } else {
      var front, last := s[..|s| - 1], s[|s| - 1];
      assert s == front + [last];
      DistinctCounts(front, x);
      assert x in multiset(front) <==> x in front;
    }
  }

  lemma RepeatCounts<T>(s: seq<T>, i: nat, j: nat)
    requires i < j < |s| && s[i] == s[j]
    ensures multiset(s)[s[i]] >= 2
  {
    assert s == s[..j] + [s[j]] + s[j + 1..];
    assert s[i] in s[..j];
  }

  lemma DistinctPermutes<T>(a: seq<T>, b: seq<T>)
    requires Distinct(a) && multiset(a) == multiset(b)
    ensures Distinct(b)
  {
    forall i, j | 0 <= i < j < |b|
      ensures b[i] != b[j]
    {
      if b[i] == b[j] {
        RepeatCounts(b, i, j);
        DistinctCounts(a, b[i]);
      }
    }
  }

  lemma {:induction false} KeepCount<T(!new)>(s: seq<T>, f: T -> bool, x: T)
    ensures multiset(Keep(s, f))[x] == if f(x) then multiset(s)[x] else 0
  {
    if s == [] {
    } else {
      var front, last := s[..|s| - 1], s[|s| - 1];
      assert s == front + [last];
      KeepCount(front, f, x);
    }
  }

  lemma KeepForgetsListing<T(!new)>(a: seq<T>, b: seq<T>, f: T -> bool)
    requires multiset(a) == multiset(b)
    ensures multiset(Keep(a, f)) == multiset(Keep(b, f))
  {
    forall x
      ensures multiset(Keep(a, f))[x] == multiset(Keep(b, f))[x]
    {
      KeepCount(a, f, x);
      KeepCount(b, f, x);
    }
  }

  lemma {:induction false} KeepAgrees<T(!new)>(s: seq<T>, f: T -> bool, g: T -> bool)
    requires forall x :: x in s ==> f(x) == g(x)
    ensures Keep(s, f) == Keep(s, g)
  {
    if s == [] {
    } else {
      assert s[|s| - 1] in s;
      KeepAgrees(s[..|s| - 1], f, g);
    }
  }

  lemma KeepPush<T(!new)>(s: seq<T>, x: T, f: T -> bool)
    ensures Keep(s + [x], f) == if f(x) then Keep(s, f) + [x] else Keep(s, f)
  {
    assert (s + [x])[..|s|] == s;
  }

  lemma Reassociate<T>(x: seq<T>, y: seq<T>, z: T)
    ensures (x + y) + [z] == x + (y + [z])
  {
  }

  lemma {:induction false} KeepConcat<T(!new)>(a: seq<T>, b: seq<T>, f: T -> bool)
    ensures Keep(a + b, f) == Keep(a, f) + Keep(b, f)
  {
    hide Keep;
    if b == [] {
      assert a + b == a;
      KeepNone(b, f);
    } else {
      var front, last := b[..|b| - 1], b[|b| - 1];
      assert b == front + [last];
      KeepConcat(a, front, f);
      Reassociate(a, front, last);
      Reassociate(Keep(a, f), Keep(front, f), last);
      KeepPush(a + front, last, f);
      KeepPush(front, last, f);
    }
  }

  lemma {:induction false} KeepNone<T(!new)>(s: seq<T>, f: T -> bool)
    requires forall x :: x in s ==> !f(x)
    ensures Keep(s, f) == []
  {
    if s == [] {
    } else {
      assert s[|s| - 1] in s;
      KeepNone(s[..|s| - 1], f);
    }
  }

  lemma {:induction false} KeepAll<T(!new)>(s: seq<T>, f: T -> bool)
    requires forall x :: x in s ==> f(x)
    ensures Keep(s, f) == s
  {
    if s == [] {
    } else {
      assert s[|s| - 1] in s;
      KeepAll(s[..|s| - 1], f);
      assert s == s[..|s| - 1] + [s[|s| - 1]];
    }
  }

  lemma {:induction false} KeepDistinct<T(!new)>(s: seq<T>, f: T -> bool)
    requires Distinct(s)
    ensures Distinct(Keep(s, f))
  {
    if s == [] {
    } else {
      var front, last := s[..|s| - 1], s[|s| - 1];
      KeepDistinct(front, f);
      assert last !in front;
    }
  }

  lemma {:induction false} TotalRemove<T>(s: seq<T>, weight: T -> real, i: nat)
    requires i < |s|
    ensures Total(s, weight) == Total(s[..i] + s[i + 1..], weight) + weight(s[i])
  {
    var n := |s| - 1;
    if i == n {
      assert s[..i] + s[i + 1..] == s[..n];
    } else {
      TotalRemove(s[..n], weight, i);
      var rest := s[..i] + s[i + 1..];
      assert rest[..|rest| - 1] == s[..n][..i] + s[..n][i + 1..];
    }
  }

  function Without<T>(s: seq<T>, i: nat): seq<T>
    requires i < |s|
  {
    s[..i] + s[i + 1..]
  }

  lemma WithoutCounts<T>(s: seq<T>, i: nat)
    requires i < |s|
    ensures multiset(Without(s, i)) == multiset(s) - multiset{s[i]}
  {
    assert s == s[..i] + [s[i]] + s[i + 1..];
  }

  /** Where another listing keeps the last element, and that the rest are again listings of each other. */
  lemma LastElsewhere<T>(a: seq<T>, b: seq<T>) returns (i: nat)
    requires multiset(a) == multiset(b) && a != []
    ensures i < |b| && b[i] == a[|a| - 1] && multiset(a[..|a| - 1]) == multiset(Without(b, i))
  {
    var n := |a| - 1;
    assert a[n] in multiset(a);
    i :| 0 <= i < |b| && b[i] == a[n];
    WithoutCounts(b, i);
    WithoutCounts(a, n);
    assert Without(a, n) == a[..n];
  }

  /** Sums do not depend on the order of a listing. */
  lemma {:induction false} TotalForgetsListing<T>(a: seq<T>, b: seq<T>, weight: T -> real)
    requires multiset(a) == multiset(b)
    ensures Total(a, weight) == Total(b, weight)
    decreases |a|
  {
    SameLength(a, b);
    if a == [] {
    } else {
      var i := LastElsewhere(a, b);
      TotalForgetsListing(a[..|a| - 1], Without(b, i), weight);
      TotalRemove(b, weight, i);
    }
  }

  lemma {:induction false} TotalAgrees<T>(s: seq<T>, v: T -> real, w: T -> real)
    requires forall x :: x in s ==> v(x) == w(x)
    ensures Total(s, v) == Total(s, w)
  {
    if s == [] {
    } else {
      assert s[|s| - 1] in s;
      TotalAgrees(s[..|s| - 1], v, w);
    }
  }

  lemma {:induction false} TotalNonNegative<T>(s: seq<T>, weight: T -> real)
    requires forall x :: x in s ==> weight(x) >= 0.0
    ensures Total(s, weight) >= 0.0
  {
    if s == [] {
    } else {
      assert s[|s| - 1] in s;
      TotalNonNegative(s[..|s| - 1], weight);
    }
  }

  /** Raising the weight of one element, and of no other, raises the total as much. */
  lemma {:induction false} TotalRaised<T>(s: seq<T>, v: T -> real, w: T -> real, i: nat, more: real)
    requires i < |s| && w(s[i]) == v(s[i]) + more
    requires forall j :: 0 <= j < |s| && j != i ==> w(s[j]) == v(s[j])
    ensures Total(s, w) == Total(s, v) + more
  {
    var n := |s| - 1;
    if i == n {
      forall x | x in s[..n]
        ensures v(x) == w(x)
      {
        var j :| 0 <= j < n && s[j] == x;
      }
      TotalAgrees(s[..n], v, w);
    } else {
      TotalRaised(s[..n], v, w, i, more);
    }
  }

  /** A positive total has a positive term. */
  lemma {:induction false} PositiveTerm<T>(s: seq<T>, weight: T -> real)
    requires Total(s, weight) > 0.0
    ensures exists x :: x in s && weight(x) > 0.0
  {
    if s == [] {
    } else {
      if weight(s[|s| - 1]) > 0.0 {
        assert s[|s| - 1] in s;
      } else {
        PositiveTerm(s[..|s| - 1], weight);
      }
    }
  }

  lemma {:induction false} MapForgetsListing<T, U>(a: seq<T>, b: seq<T>, h: T -> U)
    requires multiset(a) == multiset(b)
    ensures multiset(Map(a, h)) == multiset(Map(b, h))
    decreases |a|
  {
    SameLength(a, b);
    if a == [] {
    } else {
      var n := |a| - 1;
      var i := LastElsewhere(a, b);
      MapForgetsListing(a[..n], Without(b, i), h);
      MapWithout(a, h, n);
      MapWithout(b, h, i);
      assert Without(a, n) == a[..n];
    }
  }

  lemma MapWithout<T, U>(s: seq<T>, h: T -> U, i: nat)
    requires i < |s|
    ensures multiset(Map(s, h)) == multiset(Map(Without(s, i), h)) + multiset{h(s[i])}
  {
    assert Without(Map(s, h), i) == Map(Without(s, i), h);
    WithoutCounts(Map(s, h), i);
  }
}
