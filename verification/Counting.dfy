/** Least, greatest and gap-free sets of row numbers: SQL's MIN, MAX and COUNT. */
module Numbering {

  ghost function Pick<T>(s: set<T>): (x: T)
    requires s != {}
    ensures x in s
  {
    var x :| x in s;
    x
  }

  ghost function MinOf(s: set<int>): (m: int)
    requires s != {}
    ensures m in s && forall x :: x in s ==> m <= x
  {
    var x := Pick(s);
    assert forall y :: y in s ==> y == x || y in s - {x};
    if s == {x} then x
    else
      var m := MinOf(s - {x});
      if x < m then x else m
  }

  ghost function MaxOf(s: set<int>): (m: int)
    requires s != {}
    ensures m in s && forall x :: x in s ==> x <= m
  {
    var x := Pick(s);
    assert forall y :: y in s ==> y == x || y in s - {x};
    if s == {x} then x
    else
      var m := MaxOf(s - {x});
      if m < x then x else m
  }

  lemma {:induction false} SubsetSize<T>(a: set<T>, b: set<T>)
    requires a <= b
    ensures |a| <= |b|
    ensures |a| == |b| ==> a == b
  {
    if a != {} {
      var x :| x in a;
      SubsetSize(a - {x}, b - {x});
    }
  }

  /** The set {0, ..., n-1}. */
  ghost function Range(n: nat): (s: set<int>)
    ensures forall k :: k in s <==> 0 <= k < n
    ensures |s| == n
  {
    if n == 0 then {} else Range(n - 1) + {n - 1}
  }

  lemma DenseSize(s: set<int>, n: nat)
    requires forall k :: k in s <==> 0 <= k < n
    ensures |s| == n && s == Range(|s|)
  {
    assert s == Range(n);
  }

  /** Smallest 0 and size one more than the largest: exactly the gap-free numbering from 0. */
  lemma GapFree(s: set<int>)
    requires s != {}
    ensures MinOf(s) == 0 && |s| == MaxOf(s) + 1 <==> s == Range(|s|)
  {
    if MinOf(s) == 0 && |s| == MaxOf(s) + 1 {
      assert s <= Range(|s|);
      SubsetSize(s, Range(|s|));
    }
    if s == Range(|s|) {
      assert 0 in Range(|s|) && |s| - 1 in Range(|s|);
    }
  }
}

/** Counting arguments behind the audits: sizes of images, pigeonholes, single elements. */
module Counting {

  ghost function Image<S(!new), T>(s: set<S>, f: S -> T): set<T> {
    set x | x in s :: f(x)
  }

  /** An injective image has the size of its source. */
  lemma {:induction false} ImageSize<S(!new), T>(s: set<S>, f: S -> T)
    requires forall x, y :: x in s && y in s && f(x) == f(y) ==> x == y
    ensures |Image(s, f)| == |s|
  {
    if s != {} {
      var x :| x in s;
      ImageSize(s - {x}, f);
      assert Image(s, f) == Image(s - {x}, f) + {f(x)};
    }
  }

  /** A list as long as a set that it covers holds each element of the set once, and nothing else. */
  lemma {:induction false} Pigeonhole<T>(s: seq<T>, covered: set<T>)
    requires |s| == |covered|
    requires forall x :: x in covered ==> x in s
    ensures multiset(s) == multiset(covered)
  {
    if covered == {} {
      assert s == [];
    } else {
      var x :| x in covered;
      var i :| 0 <= i < |s| && s[i] == x;
      var rest := s[..i] + s[i + 1..];
      assert s == s[..i] + [x] + s[i + 1..];
      forall y | y in covered - {x} ensures y in rest {
        var j :| 0 <= j < |s| && s[j] == y;
        assert y == if j < i then rest[j] else rest[j - 1];
      }
      Pigeonhole(rest, covered - {x});
      assert multiset(covered) == multiset(covered - {x}) + multiset{x};
    }
  }

  /** A list that enumerates a set once each has no repeated element. */
  lemma EnumerationDistinct<T>(s: seq<T>, elements: set<T>, i: nat, j: nat)
    requires multiset(s) == multiset(elements) && i < j < |s|
    ensures s[i] != s[j]
  {
    assert s == s[..i] + [s[i]] + s[i + 1..j] + [s[j]] + s[j + 1..];
    assert s[i] == s[j] ==> multiset(s)[s[i]] >= 2;
    assert multiset(elements)[s[i]] <= 1;
  }

  /** A list without repetition that holds exactly a set's elements enumerates the set. */
  lemma {:induction false} DistinctEnumeration<T>(s: seq<T>, elements: set<T>)
    requires forall i, j :: 0 <= i < j < |s| ==> s[i] != s[j]
    requires forall x :: x in s <==> x in elements
    ensures multiset(s) == multiset(elements)
  {
    if s == [] {
      assert elements == {};
    } else {
      assert s == [s[0]] + s[1..];
      DistinctEnumeration(s[1..], elements - {s[0]});
    }
  }

  lemma SingletonSize<T>(s: set<T>)
    ensures |s| == 1 <==> exists x :: x in s && forall y :: y in s ==> y == x
  {
    if |s| == 1 {
      var x :| x in s;
      assert |s - {x}| == 0;
      assert forall y :: y in s ==> y == x || y in s - {x};
    }
    if exists x :: x in s && forall y :: y in s ==> y == x {
      var x :| x in s && forall y :: y in s ==> y == x;
      assert s == {x};
    }
  }
}
