/** Texts of terminated or separated items: they determine their items. */
module Separated {

  /** Cutting at the first separator is unambiguous. */
  lemma CutUnique<T>(a: seq<T>, x: seq<T>, b: seq<T>, y: seq<T>, sep: T)
    requires sep !in a && sep !in b && a + [sep] + x == b + [sep] + y
    ensures a == b && x == y
  {
    var s := a + [sep] + x;
    assert s[|a|] == sep && s[|b|] == sep;
    assert a == s[..|a|] && b == s[..|b|];
    assert x == s[|a| + 1..] && y == s[|b| + 1..];
  }

  /** Every item followed by a terminator. */
  function Terminated<T>(items: seq<seq<T>>, sep: T): seq<T> {
    if items == [] then [] else items[0] + [sep] + Terminated(items[1..], sep)
  }

  ghost predicate AllFree<T>(items: seq<seq<T>>, sep: T) {
    forall i :: 0 <= i < |items| ==> sep !in items[i]
  }

  lemma {:induction false} TerminatedUnique<T>(a: seq<seq<T>>, b: seq<seq<T>>, sep: T)
    requires AllFree(a, sep) && AllFree(b, sep) && Terminated(a, sep) == Terminated(b, sep)
    ensures a == b
  {
    if a != [] && b != [] {
      CutUnique(a[0], Terminated(a[1..], sep), b[0], Terminated(b[1..], sep), sep);
      TerminatedUnique(a[1..], b[1..], sep);
      assert a == [a[0]] + a[1..] && b == [b[0]] + b[1..];
    }
  }

  lemma {:induction false} TerminatedAppend<T>(a: seq<seq<T>>, b: seq<seq<T>>, sep: T)
    ensures Terminated(a + b, sep) == Terminated(a, sep) + Terminated(b, sep)
  {
    if a == [] {
      assert a + b == b;
    } else {
      TerminatedAppend(a[1..], b, sep);
      assert (a + b)[1..] == a[1..] + b;
    }
  }

  /** A run of slashes. */
  function Slashes(n: nat): (s: string)
    ensures |s| == n
  {
    if n == 0 then "" else Slashes(n - 1) + "/"
  }

  /** Python's split on a one-element separator. */
  function Split<T(==)>(s: seq<T>, sep: T): (parts: seq<seq<T>>)
    ensures parts != []
  {
    if s == [] then [[]]
    else if s[0] == sep then [[]] + Split(s[1..], sep)
    else
      var rest := Split(s[1..], sep);
      [[s[0]] + rest[0]] + rest[1..]
  }

  lemma {:induction false} SplitHead<T>(a: seq<T>, x: seq<T>, sep: T)
    requires sep !in a
    ensures Split(a, sep) == [a]
    ensures Split(a + [sep] + x, sep) == [a] + Split(x, sep)
  {
    if a == [] {
      assert a + [sep] + x == [sep] + x;
      assert ([sep] + x)[1..] == x;
    } else {
      SplitHead(a[1..], x, sep);
      var s := a + [sep] + x;
      assert s[1..] == a[1..] + [sep] + x;
      assert [a[0]] + a[1..] == a;
    }
  }

  /** Splitting at the terminator returns the items and one empty rest. */
  lemma {:induction false} SplitTerminated<T>(items: seq<seq<T>>, sep: T)
    requires AllFree(items, sep)
    ensures Split(Terminated(items, sep), sep) == items + [[]]
  {
    if items != [] {
      SplitHead(items[0], Terminated(items[1..], sep), sep);
      SplitTerminated(items[1..], sep);
      assert items + [[]] == [items[0]] + (items[1..] + [[]]);
    }
  }

  /** Items joined by the separator: str.join. */
  function Join<T>(parts: seq<seq<T>>, sep: T): seq<T>
    requires parts != []
  {
    if |parts| == 1 then parts[0] else parts[0] + [sep] + Join(parts[1..], sep)
  }

  lemma {:induction false} SplitJoin<T>(parts: seq<seq<T>>, sep: T)
    requires parts != [] && AllFree(parts, sep)
    ensures Split(Join(parts, sep), sep) == parts
  {
    if |parts| == 1 {
      SplitHead(parts[0], [], sep);
      assert parts == [parts[0]];
    } else {
      SplitHead(parts[0], Join(parts[1..], sep), sep);
      SplitJoin(parts[1..], sep);
      assert parts == [parts[0]] + parts[1..];
    }
  }
}

/** Lists under a function: what multisets, sorting and hashing keep. */
module Mapping {

  function Map<S, T>(f: S -> T, s: seq<S>): (r: seq<T>)
    ensures |r| == |s| && forall i :: 0 <= i < |s| ==> r[i] == f(s[i])
  {
    seq(|s|, i requires 0 <= i < |s| => f(s[i]))
  }

  function Without<T>(s: seq<T>, i: nat): (r: seq<T>)
    requires i < |s|
    ensures |r| == |s| - 1
  {
    s[..i] + s[i + 1..]
  }

  lemma TakeOut<T>(s: seq<T>, i: nat)
    requires i < |s|
    ensures multiset(Without(s, i)) == multiset(s) - multiset{s[i]}
  {
    assert s == s[..i] + [s[i]] + s[i + 1..];
  }

  lemma MapOut<S, T>(f: S -> T, s: seq<S>, i: nat)
    requires i < |s|
    ensures multiset(Map(f, Without(s, i))) == multiset(Map(f, s)) - multiset{f(s[i])}
  {
    assert Map(f, Without(s, i)) == Without(Map(f, s), i);
    TakeOut(Map(f, s), i);
  }

  /** The image of a reordered list is a reordering of the image. */
  lemma {:induction false} MapForgetsOrder<S, T>(f: S -> T, a: seq<S>, b: seq<S>)
    requires multiset(a) == multiset(b)
    ensures multiset(Map(f, a)) == multiset(Map(f, b))
  {
    if a == [] {
      assert |multiset(b)| == 0;
    } else {
      assert a[0] in multiset(b);
      var i :| 0 <= i < |b| && b[i] == a[0];
      hide Without;
      TakeOut(a, 0);
      TakeOut(b, i);
      MapOut(f, a, 0);
      MapOut(f, b, i);
      MapForgetsOrder(f, Without(a, 0), Without(b, i));
      assert Map(f, a)[0] == Map(f, b)[i] == f(a[0]);
      assert multiset(Map(f, a)) == multiset(Map(f, Without(a, 0))) + multiset{f(a[0])};
    }
  }

  ghost predicate Injective<S(!new), T>(f: S -> T) {
    forall x, y :: f(x) == f(y) ==> x == y
  }

  lemma FirstMatches<S(!new), T>(f: S -> T, a: seq<S>, b: seq<S>) returns (i: nat)
    requires Injective(f) && a != [] && multiset(Map(f, a)) == multiset(Map(f, b))
    ensures i < |b| && b[i] == a[0]
  {
    assert Map(f, a)[0] in multiset(Map(f, b));
    i :| 0 <= i < |b| && Map(f, b)[i] == f(a[0]);
  }

  /** An injective image determines its source up to order. */
  lemma {:induction false} InjectiveReflects<S(!new), T>(f: S -> T, a: seq<S>, b: seq<S>)
    requires Injective(f) && multiset(Map(f, a)) == multiset(Map(f, b))
    ensures multiset(a) == multiset(b)
  {
    if a == [] {
      assert |multiset(Map(f, b))| == 0;
    } else {
      var i := FirstMatches(f, a, b);
      hide *;
      TakeOut(a, 0);
      TakeOut(b, i);
      MapOut(f, a, 0);
      MapOut(f, b, i);
      InjectiveReflects(f, Without(a, 0), Without(b, i));
      assert multiset(a) == multiset(Without(a, 0)) + multiset{a[0]};
    }
  }

  /** No element occurs twice; unlike a statement about indices, this is plainly order-free. */
  ghost predicate Distinct<T(!new)>(s: seq<T>) {
    forall x :: multiset(s)[x] <= 1
  }

  lemma DistinctIndices<T(!new)>(s: seq<T>)
    ensures Distinct(s) <==> forall i, j :: 0 <= i < j < |s| ==> s[i] != s[j]
  {
    if Distinct(s) {
      forall i, j | 0 <= i < j < |s| ensures s[i] != s[j] {
        assert s == s[..i] + [s[i]] + s[i + 1..j] + [s[j]] + s[j + 1..];
        assert s[i] == s[j] ==> multiset(s)[s[i]] >= 2;
      }
    }
    if forall i, j :: 0 <= i < j < |s| ==> s[i] != s[j] {
      IndicesDistinct(s);
    }
  }

  lemma {:induction false} IndicesDistinct<T(!new)>(s: seq<T>)
    requires forall i, j :: 0 <= i < j < |s| ==> s[i] != s[j]
    ensures Distinct(s)
  {
    if s != [] {
      IndicesDistinct(s[1..]);
      assert s == [s[0]] + s[1..];
      assert s[0] !in s[1..];
    }
  }
}
