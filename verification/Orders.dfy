/** Orders and sorting: the byte order of strings, and sorting by any total order. */
module Orders {
  /** strings.Compare(a, b) <= 0. */
  predicate StringLeq(a: string, b: string) {
    a == "" || (b != "" && (a[0] < b[0] || (a[0] == b[0] && StringLeq(a[1..], b[1..]))))
  }

  lemma {:induction false} StringLeqTotal(a: string, b: string)
    ensures StringLeq(a, b) || StringLeq(b, a)
    ensures StringLeq(a, b) && StringLeq(b, a) ==> a == b
  {
    if a != "" && b != "" && a[0] == b[0] {
      StringLeqTotal(a[1..], b[1..]);
      assert a == [a[0]] + a[1..] && b == [b[0]] + b[1..];
    }
  }

  /** Two strings agree up to i and differ there. */
  ghost predicate Parts(a: string, b: string, i: nat) {
    i < |a| && i < |b| && a[..i] == b[..i] && a[i] != b[i]
  }

  lemma PartsLater(a: string, b: string, i: nat)
    requires a != "" && b != "" && a[0] == b[0]
    ensures Parts(a, b, i + 1) <==> Parts(a[1..], b[1..], i)
    ensures !Parts(a, b, 0)
    ensures a <= b <==> a[1..] <= b[1..]
  {
    assert a == [a[0]] + a[1..] && b == [b[0]] + b[1..];
    if i < |a| - 1 && i < |b| - 1 {
      assert a[..i + 1] == [a[0]] + a[1..][..i] && b[..i + 1] == [b[0]] + b[1..][..i];
      assert a[..i + 1][1..] == a[1..][..i] && b[..i + 1][1..] == b[1..][..i];
    }
  }

  lemma {:induction false} LeqShows(a: string, b: string) returns (i: nat)
    requires StringLeq(a, b)
    ensures a <= b || (Parts(a, b, i) && a[i] < b[i])
  {
    i := 0;
    if a != "" && a[0] == b[0] {
      var j := LeqShows(a[1..], b[1..]);
      PartsLater(a, b, j);
      i := j + 1;
    }
  }

  lemma {:induction false} PrefixLeq(a: string, b: string)
    requires a <= b
    ensures StringLeq(a, b)
  {
    if a != "" {
      PartsLater(a, b, 0);
      PrefixLeq(a[1..], b[1..]);
    }
  }

  lemma {:induction false} LesserLeq(a: string, b: string, i: nat)
    requires Parts(a, b, i) && a[i] < b[i]
    ensures StringLeq(a, b)
  {
    if i > 0 {
      assert a[..i][0] == b[..i][0];
      PartsLater(a, b, i - 1);
      LesserLeq(a[1..], b[1..], i - 1);
    }
  }

  /** The byte order, by where two strings part: at the end of the first, or at a lesser character. */
  lemma StringLeqExactly(a: string, b: string)
    ensures StringLeq(a, b) <==> a <= b || exists i: nat :: Parts(a, b, i) && a[i] < b[i]
  {
    if StringLeq(a, b) { var i := LeqShows(a, b); }
    if a <= b { PrefixLeq(a, b); }
    if i: nat :| Parts(a, b, i) && a[i] < b[i] { LesserLeq(a, b, i); }
  }

  lemma {:induction false} StringLeqTransitive(a: string, b: string, c: string)
    requires StringLeq(a, b) && StringLeq(b, c)
    ensures StringLeq(a, c)
  {
    if a != "" && a[0] == b[0] && b[0] == c[0] { StringLeqTransitive(a[1..], b[1..], c[1..]); }
  }

  ghost predicate TotalOrder<T(!new)>(leq: (T, T) -> bool) {
    && (forall a, b :: leq(a, b) || leq(b, a))
    && (forall a, b, c :: leq(a, b) && leq(b, c) ==> leq(a, c))
  }

  /** No two of s are alike in the order. */
  ghost predicate Distinguishes<T(!new)>(leq: (T, T) -> bool, s: multiset<T>) {
    forall a, b :: a in s && b in s && leq(a, b) && leq(b, a) ==> a == b
  }

  ghost predicate Sorted<T(!new)>(leq: (T, T) -> bool, s: seq<T>) {
    forall i, j :: 0 <= i < j < |s| ==> leq(s[i], s[j])
  }

  function Insert<T>(leq: (T, T) -> bool, x: T, s: seq<T>): (r: seq<T>)
    ensures multiset(r) == multiset(s) + multiset{x} && |r| == |s| + 1
  {
    if s == [] || leq(x, s[0]) then [x] + s
    else
      assert s == [s[0]] + s[1..];
      [s[0]] + Insert(leq, x, s[1..])
  }

  function Sort<T>(leq: (T, T) -> bool, s: seq<T>): (r: seq<T>)
    ensures multiset(r) == multiset(s) && |r| == |s|
  {
    if s == [] then []
    else
      assert s == [s[0]] + s[1..];
      Insert(leq, s[0], Sort(leq, s[1..]))
  }

  lemma {:induction false} InsertKeepsSorted<T(!new)>(leq: (T, T) -> bool, x: T, s: seq<T>)
    requires TotalOrder(leq) && Sorted(leq, s)
    ensures Sorted(leq, Insert(leq, x, s))
  {
    if s != [] && !leq(x, s[0]) {
      InsertKeepsSorted(leq, x, s[1..]);
      var r := Insert(leq, x, s[1..]);
      forall k | 0 <= k < |r|
        ensures leq(s[0], r[k])
      {
        assert r[k] in multiset(r);
        if r[k] != x {
          assert r[k] in multiset(s[1..]);
          assert r[k] in s[1..];
        }
      }
    }
  }

  lemma {:induction false} SortSorts<T(!new)>(leq: (T, T) -> bool, s: seq<T>)
    requires TotalOrder(leq)
    ensures Sorted(leq, Sort(leq, s))
  {
    if s != [] {
      SortSorts(leq, s[1..]);
      InsertKeepsSorted(leq, s[0], Sort(leq, s[1..]));
    }
  }

  lemma HeadsAgree<T(!new)>(leq: (T, T) -> bool, a: seq<T>, b: seq<T>)
    requires multiset(a) == multiset(b) && Sorted(leq, a) && Sorted(leq, b) && a != [] && b != []
    requires TotalOrder(leq) && Distinguishes(leq, multiset(a))
    ensures a[0] == b[0]
  {
    assert a[0] in multiset(b) && b[0] in multiset(a);
    var i :| 0 <= i < |b| && b[i] == a[0];
    var j :| 0 <= j < |a| && a[j] == b[0];
    assert leq(a[0], a[0]) && leq(b[0], b[0]);
    assert leq(b[0], b[i]) && leq(a[0], a[j]);
  }

  lemma TailOf<T(!new)>(leq: (T, T) -> bool, s: seq<T>)
    requires s != []
    ensures multiset(s[1..]) == multiset(s) - multiset{s[0]}
    ensures Sorted(leq, s) ==> Sorted(leq, s[1..])
    ensures Distinguishes(leq, multiset(s)) ==> Distinguishes(leq, multiset(s[1..]))
  {
    assert s == [s[0]] + s[1..];
  }

  lemma SameLength<T>(a: seq<T>, b: seq<T>)
    requires multiset(a) == multiset(b)
    ensures |a| == |b|
  {
    assert |multiset(a)| == |a| && |multiset(b)| == |b|;
  }

  lemma SameTails<T(!new)>(leq: (T, T) -> bool, a: seq<T>, b: seq<T>)
    requires a != [] && b != [] && multiset(a) == multiset(b) && a[0] == b[0]
    ensures multiset(a[1..]) == multiset(b[1..])
  {
    TailOf(leq, a);
    TailOf(leq, b);
  }

  lemma SameWhole<T>(a: seq<T>, b: seq<T>)
    requires |a| == |b| && (a != [] ==> b != [] && a[0] == b[0] && a[1..] == b[1..])
    ensures a == b
  {
    if a != [] { assert a == [a[0]] + a[1..] && b == [b[0]] + b[1..]; }
  }

  /** There is one sorted arrangement of elements the order tells apart. */
  lemma {:induction false} SortedIsUnique<T(!new)>(leq: (T, T) -> bool, a: seq<T>, b: seq<T>)
    requires multiset(a) == multiset(b) && Sorted(leq, a) && Sorted(leq, b)
    requires TotalOrder(leq) && Distinguishes(leq, multiset(a))
    ensures a == b
    decreases |a|
  {
    hide *;
    SameLength(a, b);
    if a != [] {
      HeadsAgree(leq, a, b);
      TailOf(leq, a);
      TailOf(leq, b);
      SameTails(leq, a, b);
      SortedIsUnique(leq, a[1..], b[1..]);
    }
    SameWhole(a, b);
  }

  lemma SortIgnoresOrder<T(!new)>(leq: (T, T) -> bool, a: seq<T>, b: seq<T>)
    requires multiset(a) == multiset(b) && TotalOrder(leq) && Distinguishes(leq, multiset(a))
    ensures Sort(leq, a) == Sort(leq, b)
  {
    SortSorts(leq, a);
    SortSorts(leq, b);
    SortedIsUnique(leq, Sort(leq, a), Sort(leq, b));
  }

  // ----- Without repetition -----

  ghost predicate NoDuplicates<T(!new)>(s: seq<T>) {
    forall i, j :: 0 <= i < j < |s| ==> s[i] != s[j]
  }

  lemma {:induction false} CountsOnce<T(!new)>(s: seq<T>, x: T)
    requires NoDuplicates(s)
    ensures multiset(s)[x] == if x in s then 1 else 0
  {
    if s != [] {
      var front, last := s[..|s| - 1], s[|s| - 1];
      assert s == front + [last];
      CountsOnce(front, x);
    }
  }

  lemma TwiceCounts<T>(s: seq<T>, i: nat, j: nat)
    requires i < j < |s| && s[i] == s[j]
    ensures multiset(s)[s[i]] >= 2
  {
    assert s == s[..i] + [s[i]] + s[i + 1..j] + [s[j]] + s[j + 1..];
  }

  /** Rearranging keeps the elements distinct, and the same ones. */
  lemma RearrangingKeepsDistinct<T(!new)>(s: seq<T>, r: seq<T>)
    requires NoDuplicates(s) && multiset(r) == multiset(s)
    ensures NoDuplicates(r) && forall x :: x in r <==> x in s
  {
    forall i, j | 0 <= i < j < |r|
      ensures r[i] != r[j]
    {
      CountsOnce(s, r[i]);
      if r[i] == r[j] { TwiceCounts(r, i, j); }
    }
    forall x
      ensures x in r <==> x in s
    {
      assert x in multiset(r) <==> x in multiset(s);
    }
  }

  /** There is one arrangement of a set of records. */
  lemma ArrangementIsUnique<T(!new)>(leq: (T, T) -> bool, a: seq<T>, b: seq<T>)
    requires TotalOrder(leq) && Sorted(leq, a) && Sorted(leq, b) && NoDuplicates(a) && NoDuplicates(b)
    requires Distinguishes(leq, multiset(a)) && forall x :: x in a <==> x in b
    ensures a == b
  {
    forall x
      ensures multiset(a)[x] == multiset(b)[x]
    {
      CountsOnce(a, x);
      CountsOnce(b, x);
    }
    assert multiset(a) == multiset(b);
    SortedIsUnique(leq, a, b);
  }
}
