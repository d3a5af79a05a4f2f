/** Library sorting: a sort is any ordered rearrangement of its input. */
module Sorting {
  import opened Lists

  ghost predicate TotalPreorder<T(!new)>(leq: (T, T) -> bool) {
    && (forall x, y :: leq(x, y) || leq(y, x))
    && (forall x, y, z :: leq(x, y) && leq(y, z) ==> leq(x, z))
  }

  ghost predicate Ordered<T>(s: seq<T>, leq: (T, T) -> bool) {
    forall i, j :: 0 <= i < j < |s| ==> leq(s[i], s[j])
  }

  /** No two different elements of the collection rank equal. */
  ghost predicate Separated<T>(s: seq<T>, leq: (T, T) -> bool) {
    forall x, y :: x in s && y in s && leq(x, y) && leq(y, x) ==> x == y
  }

  function Insert<T>(x: T, s: seq<T>, leq: (T, T) -> bool): (r: seq<T>) {
    if s == [] || leq(x, s[0]) then [x] + s else [s[0]] + Insert(x, s[1..], leq)
  }

  function Sort<T>(s: seq<T>, leq: (T, T) -> bool): (r: seq<T>) {
    if s == [] then [] else Insert(s[0], Sort(s[1..], leq), leq)
  }

  lemma {:induction false} InsertBag<T(!new)>(x: T, s: seq<T>, leq: (T, T) -> bool)
    ensures multiset(Insert(x, s, leq)) == multiset(s) + multiset{x}
  {
    if !(s == [] || leq(x, s[0])) {
      assert s == [s[0]] + s[1..];
      InsertBag(x, s[1..], leq);
    }
  }

  lemma LeastFirst<T(!new)>(x: T, s: seq<T>, leq: (T, T) -> bool)
    requires Ordered(s, leq) && forall y :: y in s ==> leq(x, y)
    ensures Ordered([x] + s, leq)
  {
  }

  lemma {:induction false} InsertOrdered<T(!new)>(x: T, s: seq<T>, leq: (T, T) -> bool)
    requires TotalPreorder(leq) && Ordered(s, leq)
    ensures Ordered(Insert(x, s, leq), leq)
  {
    if s == [] || leq(x, s[0]) {
      forall y | y in s ensures leq(x, y) {
        var j :| 0 <= j < |s| && s[j] == y;
        assert leq(x, s[0]) && (j == 0 || leq(s[0], s[j]));
      }
      LeastFirst(x, s, leq);
    } else {
      InsertOrdered(x, s[1..], leq);
      InsertBag(x, s[1..], leq);
      var rest := Insert(x, s[1..], leq);
      forall y | y in rest ensures leq(s[0], y) {
        assert y in multiset(rest);
        if y != x {
          var k :| 0 <= k < |s[1..]| && s[1..][k] == y;
          assert s[k+1] == y;
        }
      }
      LeastFirst(s[0], rest, leq);
    }
  }

  lemma SameBag<T>(a: seq<T>, b: seq<T>)
    requires multiset(a) == multiset(b)
    ensures |a| == |b| && forall x :: x in a <==> x in b
  {
    assert |multiset(a)| == |a| && |multiset(b)| == |b|;
    forall x ensures x in a <==> x in b {
      assert x in a <==> x in multiset(a);
    }
  }

  lemma {:induction false} SortSorts<T(!new)>(s: seq<T>, leq: (T, T) -> bool)
    requires TotalPreorder(leq)
    ensures Ordered(Sort(s, leq), leq)
    ensures multiset(Sort(s, leq)) == multiset(s)
    ensures |Sort(s, leq)| == |s|
    ensures forall x :: x in Sort(s, leq) <==> x in s
  {
    hide Insert;
    if s != [] {
      SortSorts(s[1..], leq);
      InsertOrdered(s[0], Sort(s[1..], leq), leq);
      InsertBag(s[0], Sort(s[1..], leq), leq);
      assert s == [s[0]] + s[1..];
    }
    SameBag(s, Sort(s, leq));
  }

  lemma SameLeast<T(!new)>(a: seq<T>, b: seq<T>, leq: (T, T) -> bool)
    requires TotalPreorder(leq)
    requires Ordered(a, leq) && Ordered(b, leq) && Separated(a, leq)
    requires multiset(a) == multiset(b) && a != []
    ensures b != [] && a[0] == b[0]
  {
    assert a[0] in multiset(b);
    assert b[0] in multiset(a);
    var i :| 0 <= i < |b| && b[i] == a[0];
    var j :| 0 <= j < |a| && a[j] == b[0];
    assert leq(a[0], a[0]) && leq(b[0], b[0]);
    assert leq(b[0], b[i]) && leq(a[0], a[j]);
  }

  lemma TailBag<T>(a: seq<T>)
    requires a != []
    ensures multiset(a[1..]) == multiset(a) - multiset{a[0]}
  {
    assert a == [a[0]] + a[1..];
  }

  lemma TailOrdered<T>(a: seq<T>, leq: (T, T) -> bool)
    requires a != [] && Ordered(a, leq) && Separated(a, leq)
    ensures Ordered(a[1..], leq) && Separated(a[1..], leq)
  {
    forall x, y | x in a[1..] && y in a[1..] && leq(x, y) && leq(y, x) ensures x == y {
      assert x in a && y in a;
    }
  }

  /** Two ordered rearrangements of the same elements are the same sequence. */
  lemma {:induction false} OrderedUnique<T(!new)>(a: seq<T>, b: seq<T>, leq: (T, T) -> bool)
    requires TotalPreorder(leq)
    requires Ordered(a, leq) && Ordered(b, leq) && Separated(a, leq)
    requires multiset(a) == multiset(b)
    ensures a == b
    decreases |a|
  {
    if a == [] {
      EmptyBag(b);
    } else {
      SameLeast(a, b, leq);
      TailBag(a);
      TailBag(b);
      TailOrdered(a, leq);
      assert Ordered(b[1..], leq);
      hide Ordered, Separated, TotalPreorder;
      OrderedUnique(a[1..], b[1..], leq);
      assert a == [a[0]] + a[1..] && b == [b[0]] + b[1..];
    }
  }
}
