/** Sequences: filtering, distinctness and counting, shared by every module. */
module Lists {

  datatype Option<+T> = None | Some(value: T)

  function Filter<T>(s: seq<T>, keep: T -> bool): (r: seq<T>)
    ensures |r| <= |s|
  {
    if s == [] then []
    else
      var front := Filter(s[..|s|-1], keep);
      if keep(s[|s|-1]) then front + [s[|s|-1]] else front
  }

  lemma {:induction false} FilterMembers<T>(s: seq<T>, keep: T -> bool)
    ensures forall x :: x in Filter(s, keep) <==> x in s && keep(x)
  {
    if s != [] {
      FilterMembers(s[..|s|-1], keep);
      assert s == s[..|s|-1] + [s[|s|-1]];
    }
  }

  lemma FirstIsMember<T>(s: seq<T>)
    ensures s != [] ==> s[0] in s && s[|s|-1] in s
  {
  }

  lemma DropAtBag<T>(s: seq<T>, j: nat)
    requires j < |s|
    ensures multiset(s[..j] + s[j+1..]) == multiset(s) - multiset{s[j]}
  {
    assert s == s[..j] + ([s[j]] + s[j+1..]);
  }

  lemma {:induction false} EmptyBag<T>(a: seq<T>)
    ensures multiset(a) == multiset{} ==> a == []
  {
    if a != [] {
      assert a[0] in multiset(a);
    }
  }

  /** Dropping the last element of a, and an equal one from b, leaves rearrangements of each other. */
  lemma SameWithout<T>(a: seq<T>, b: seq<T>) returns (j: nat)
    requires a != [] && multiset(a) == multiset(b)
    ensures j < |b| && b[j] == a[|a|-1]
    ensures multiset(a[..|a|-1]) == multiset(b[..j] + b[j+1..])
  {
    assert a[|a|-1] in multiset(b);
    j :| 0 <= j < |b| && b[j] == a[|a|-1];
    DropAtBag(a, |a|-1);
    DropAtBag(b, j);
    assert a[..|a|-1] + a[|a|..] == a[..|a|-1];
  }

  lemma BagCancel<T>(x: multiset<T>, y: multiset<T>, n: multiset<T>, k: multiset<T>)
    requires x + n == y + (n + k)
    ensures x == y + k
  {
    forall e ensures x[e] == (y + k)[e] {
      assert (x + n)[e] == (y + (n + k))[e];
    }
  }

  lemma FilterStep<T>(s: seq<T>, i: nat, keep: T -> bool)
    requires i < |s|
    ensures Filter(s[..i+1], keep) == Filter(s[..i], keep) + (if keep(s[i]) then [s[i]] else [])
  {
    assert s[..i+1][..i] == s[..i];
  }

  lemma {:induction false} FilterConcat<T>(s: seq<T>, t: seq<T>, keep: T -> bool)
    ensures Filter(s + t, keep) == Filter(s, keep) + Filter(t, keep)
  {
    if t == [] {
      assert s + t == s;
    } else {
      FilterConcat(s, t[..|t|-1], keep);
      assert (s + t)[..|s + t|-1] == s + t[..|t|-1];
    }
  }

  lemma {:induction false} FilterAll<T>(s: seq<T>, keep: T -> bool)
    requires forall k :: 0 <= k < |s| ==> keep(s[k])
    ensures Filter(s, keep) == s
  {
    if s != [] {
      FilterAll(s[..|s|-1], keep);
    }
  }

  lemma {:induction false} FilterNone<T>(s: seq<T>, keep: T -> bool)
    requires forall k :: 0 <= k < |s| ==> !keep(s[k])
    ensures Filter(s, keep) == []
  {
    if s != [] {
      FilterNone(s[..|s|-1], keep);
    }
  }

  lemma {:induction false} FilterSame<T>(s: seq<T>, keep: T -> bool, also: T -> bool)
    requires forall k :: 0 <= k < |s| ==> keep(s[k]) == also(s[k])
    ensures Filter(s, keep) == Filter(s, also)
  {
    if s != [] {
      FilterSame(s[..|s|-1], keep, also);
    }
  }

  lemma FilterDrop<T>(s: seq<T>, j: nat, keep: T -> bool)
    requires j < |s|
    ensures |Filter(s, keep)| == |Filter(s[..j] + s[j+1..], keep)| + (if keep(s[j]) then 1 else 0)
  {
    var l, x, r := s[..j], s[j], s[j+1..];
    assert s == l + ([x] + r);
    FilterConcat(l, [x] + r, keep);
    FilterConcat([x], r, keep);
    FilterConcat(l, r, keep);
    assert [x][..0] == [];
  }

  /** How many elements are kept does not depend on their order. */
  lemma {:induction false} FilterPermuted<T>(a: seq<T>, b: seq<T>, keep: T -> bool)
    requires multiset(a) == multiset(b)
    ensures |Filter(a, keep)| == |Filter(b, keep)|
    decreases |a|
  {
    hide Filter;
    if a == [] {
      EmptyBag(b);
    } else {
      var j := SameWithout(a, b);
      FilterDrop(a, |a|-1, keep);
      FilterDrop(b, j, keep);
      assert a[..|a|-1] + a[|a|..] == a[..|a|-1];
      FilterPermuted(a[..|a|-1], b[..j] + b[j+1..], keep);
    }
  }

  /** Rearranging the elements rearranges their images. */
  lemma {:induction false} MapPermuted<T, U>(a: seq<T>, b: seq<T>, f: T -> U)
    requires multiset(a) == multiset(b)
    ensures multiset(Map(a, f)) == multiset(Map(b, f))
    decreases |a|
  {
    if a == [] {
      EmptyBag(b);
    } else {
      var j := SameWithout(a, b);
      var front, rest := a[..|a|-1], b[..j] + b[j+1..];
      MapPermuted(front, rest, f);
      assert Map(a, f) == Map(front, f) + [f(b[j])];
      assert Map(rest, f) == Map(b, f)[..j] + Map(b, f)[j+1..];
      DropAtBag(Map(b, f), j);
      assert f(b[j]) == Map(b, f)[j] && Map(b, f)[j] in multiset(Map(b, f));
    }
  }

  ghost predicate Distinct<T>(s: seq<T>) {
    forall i, j :: 0 <= i < j < |s| ==> s[i] != s[j]
  }

  lemma {:induction false} OnceEach<T>(s: seq<T>)
    requires Distinct(s)
    ensures forall x :: multiset(s)[x] <= 1
  {
    if s != [] {
      OnceEach(s[..|s|-1]);
      assert s == s[..|s|-1] + [s[|s|-1]];
    }
  }

  /** Two duplicate-free sequences with the same members are rearrangements of each other. */
  lemma SameMembersSameBag<T>(a: seq<T>, b: seq<T>)
    requires Distinct(a) && Distinct(b) && forall x :: x in a <==> x in b
    ensures multiset(a) == multiset(b)
  {
    OnceEach(a);
    OnceEach(b);
    forall x ensures multiset(a)[x] == multiset(b)[x] {
      assert x in a <==> x in multiset(a);
      assert x in b <==> x in multiset(b);
    }
  }

  lemma CountsTwice<T>(s: seq<T>, i: nat, j: nat)
    requires i < j < |s| && s[i] == s[j]
    ensures multiset(s)[s[i]] >= 2
  {
    assert s == s[..j] + ([s[j]] + s[j+1..]);
    assert s[..j][i] in multiset(s[..j]);
  }

  /** Rearranging elements with pairwise distinct keys leaves the keys pairwise distinct. */
  lemma KeysStayDistinct<T, K>(a: seq<T>, b: seq<T>, key: T -> K)
    requires multiset(a) == multiset(b)
    requires forall i, j :: 0 <= i < j < |b| ==> key(b[i]) != key(b[j])
    ensures forall i, j :: 0 <= i < j < |a| ==> key(a[i]) != key(a[j])
  {
    OnceEach(b);
    forall i, j | 0 <= i < j < |a| ensures key(a[i]) != key(a[j]) {
      if a[i] == a[j] {
        CountsTwice(a, i, j);
      } else {
        assert a[i] in multiset(b) && a[j] in multiset(b);
        var k :| 0 <= k < |b| && b[k] == a[i];
        var l :| 0 <= l < |b| && b[l] == a[j];
      }
    }
  }

  function Map<T, U>(s: seq<T>, f: T -> U): (r: seq<U>)
    ensures |r| == |s| && forall i :: 0 <= i < |s| ==> r[i] == f(s[i])
  {
    seq(|s|, i requires 0 <= i < |s| => f(s[i]))
  }

  /** A duplicate-free sequence drawn from a set is no longer than the set. */
  lemma {:induction false} DistinctFits<T>(s: seq<T>, domain: set<T>)
    requires Distinct(s)
    requires forall x :: x in s ==> x in domain
    ensures |s| <= |domain|
  {
    if s != [] {
      var last := s[|s|-1];
      var front := s[..|s|-1];
      forall x | x in front ensures x in domain - {last} {
        var i :| 0 <= i < |front| && front[i] == x;
        assert s[i] == x;
      }
      DistinctFits(front, domain - {last});
    }
  }

  /** The indexes below n. */
  function Range(n: nat): (r: set<nat>)
    ensures |r| == n
    ensures forall k: nat :: k in r <==> k < n
  {
    if n == 0 then {} else Range(n - 1) + {n - 1}
  }

  lemma {:induction false} ImageIs<T>(s: seq<T>)
    requires Distinct(s)
    ensures |set x | x in s| == |s|
  {
    if s != [] {
      ImageIs(s[..|s|-1]);
      var front, last := s[..|s|-1], s[|s|-1];
      assert s == front + [last] && last !in front;
      assert (set x | x in s) == (set x | x in front) + {last};
    }
  }

  lemma {:induction false} ImageFits<T>(s: seq<T>)
    ensures |set x | x in s| <= |s|
  {
    if s != [] {
      ImageFits(s[..|s|-1]);
      var front, last := s[..|s|-1], s[|s|-1];
      assert s == front + [last];
      assert (set x | x in s) == (set x | x in front) + {last};
    }
  }
}
