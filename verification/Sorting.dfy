/** ORDER BY and sort.Slice: ordered permutations. */
module Sorting {
  ghost predicate TotalPreorder<T(!new)>(le: (T, T) -> bool) {
    && (forall a, b :: le(a, b) || le(b, a))
    && (forall a, b, c :: le(a, b) && le(b, c) ==> le(a, c))
  }

  ghost predicate Ordered<T(!new)>(s: seq<T>, le: (T, T) -> bool) {
    forall i, j :: 0 <= i < j < |s| ==> le(s[i], s[j])
  }

  function Insert<T(!new)>(x: T, s: seq<T>, le: (T, T) -> bool): (r: seq<T>)
    ensures multiset(r) == multiset(s) + multiset{x}
  {
    if s == [] then [x]
    else
      assert s == [s[0]] + s[1..];
      if le(x, s[0]) then [x] + s else [s[0]] + Insert(x, s[1..], le)
  }

  function SortBy<T(!new)>(s: seq<T>, le: (T, T) -> bool): (r: seq<T>)
    ensures multiset(r) == multiset(s)
  {
    if s == [] then []
    else
      assert s == [s[0]] + s[1..];
      Insert(s[0], SortBy(s[1..], le), le)
  }

  lemma {:induction false} InsertOrdered<T(!new)>(x: T, s: seq<T>, le: (T, T) -> bool)
    requires TotalPreorder(le) && Ordered(s, le)
    ensures Ordered(Insert(x, s, le), le)
  {
    if s != [] {
      if le(x, s[0]) {
        assert forall j :: 0 < j < |s| ==> le(s[0], s[j]);
      } else {
        var rest := Insert(x, s[1..], le);
        InsertOrdered(x, s[1..], le);
        forall j | 0 <= j < |rest|
          ensures le(s[0], rest[j])
        {
          assert rest[j] in multiset(rest);
          assert rest[j] == x || rest[j] in s[1..];
        }
      }
    }
  }

  lemma {:induction false} SortOrdered<T(!new)>(s: seq<T>, le: (T, T) -> bool)
    requires TotalPreorder(le)
    ensures Ordered(SortBy(s, le), le)
  {
    if s != [] {
      SortOrdered(s[1..], le);
      InsertOrdered(s[0], SortBy(s[1..], le), le);
    }
  }

  lemma SameMembers<T>(a: seq<T>, b: seq<T>)
    requires multiset(a) == multiset(b)
    ensures |a| == |b| && forall x :: x in a <==> x in b
  {
    assert |multiset(a)| == |a| && |multiset(b)| == |b|;
    assert forall x :: x in a <==> x in multiset(a);
    assert forall x :: x in b <==> x in multiset(b);
  }

  lemma SameInit<T>(a: seq<T>, b: seq<T>)
    requires multiset(a) == multiset(b) && |a| == |b| > 0 && a[|a| - 1] == b[|b| - 1]
    ensures multiset(a[..|a| - 1]) == multiset(b[..|b| - 1])
  {
    var k := |a| - 1;
    assert a == a[..k] + [a[k]] && b == b[..k] + [a[k]];
    assert multiset(a[..k]) == multiset(a) - multiset{a[k]};
  }

  // ---- Integers ----

  predicate Ascending(s: seq<int>) {
    forall i, j :: 0 <= i < j < |s| ==> s[i] <= s[j]
  }

  predicate Increasing(s: seq<int>) {
    forall i, j :: 0 <= i < j < |s| ==> s[i] < s[j]
  }

  function Leq(a: int, b: int): bool {
    a <= b
  }

  function Sort(s: seq<int>): (r: seq<int>)
    ensures multiset(r) == multiset(s)
  {
    SortBy(s, Leq)
  }

  lemma SortAscends(s: seq<int>)
    ensures Ascending(Sort(s)) && |Sort(s)| == |s|
    ensures forall x :: x in Sort(s) <==> x in s
  {
    SortOrdered(s, Leq);
    SameMembers(Sort(s), s);
    forall i, j | 0 <= i < j < |Sort(s)|
      ensures Sort(s)[i] <= Sort(s)[j]
    {
      assert Leq(Sort(s)[i], Sort(s)[j]);
    }
  }

  lemma SameLast(a: seq<int>, b: seq<int>)
    requires Ascending(a) && Ascending(b) && multiset(a) == multiset(b) && a != []
    ensures |a| == |b| && a[|a| - 1] == b[|b| - 1]
  {
    SameMembers(a, b);
    assert a[|a| - 1] in b && b[|b| - 1] in a;
  }

  // An ascending list is determined by its elements.
  lemma {:induction false} AscendingUnique(a: seq<int>, b: seq<int>)
    requires Ascending(a) && Ascending(b) && multiset(a) == multiset(b)
    ensures a == b
  {
    if a == [] {
      SameMembers(a, b);
    } else {
      SameLast(a, b);
      var k := |a| - 1;
      SameInit(a, b);
      AscendingUnique(a[..k], b[..k]);
      assert a == a[..k] + [a[k]] && b == b[..k] + [b[k]];
    }
  }

  lemma HasElement(s: seq<int>)
    ensures s != [] ==> s[0] in s
  {
  }

  lemma {:induction false} IncreasingUnique(a: seq<int>, b: seq<int>)
    requires Increasing(a) && Increasing(b) && forall x :: x in a <==> x in b
    ensures a == b
  {
    if a == [] {
      HasElement(b);
    } else {
      var k, l := |a| - 1, |b| - 1;
      assert a[k] in b && a[k] in a;
      assert b[l] in a;
      assert a[k] == b[l];
      forall x
        ensures x in a[..k] <==> x in b[..l]
      {
        assert x in a[..k] <==> x in a && x != a[k];
        assert x in b[..l] <==> x in b && x != b[l];
      }
      IncreasingUnique(a[..k], b[..l]);
    }
  }

  function LastN(s: seq<int>, n: nat): seq<int> {
    if |s| <= n then s else s[|s| - n..]
  }

  function Reverse(s: seq<int>): (r: seq<int>)
    ensures |r| == |s|
  {
    seq(|s|, i requires 0 <= i < |s| => s[|s| - 1 - i])
  }

  lemma {:induction false} ReversePermutes(s: seq<int>)
    ensures multiset(Reverse(s)) == multiset(s)
  {
    if s != [] {
      var k := |s| - 1;
      ReversePermutes(s[..k]);
      assert s == s[..k] + [s[k]];
      assert Reverse(s) == [s[k]] + Reverse(s[..k]);
    }
  }

  // The first n of a descending list are the last n of the ascending one.
  lemma ReversePrefix(s: seq<int>, n: nat)
    requires n <= |s|
    ensures Reverse(s)[..n] == Reverse(LastN(s, n))
  {
  }
}
