/** Merging repeated traces: at each position the most frequent first node wins.
    Go iterates over its map of candidates in any order, so the outcome is a
    relation, not a function. */
module Merging {
  import opened Lists
  import opened Tracing
  import opened Hops

  /** What two hops are compared by; None stands for a hop without an answer. */
  type Key = Option<IP>

  function KeyOf(h: Hop): Key {
    if h.nodes != [] then Some(h.nodes[0].ip) else None
  }

  function MaxLen(all: seq<seq<Hop>>): (n: nat)
    ensures forall a :: a in all ==> |a| <= n
    ensures n > 0 ==> exists a :: a in all && |a| == n
  {
    if all == [] then 0
    else
      var m := MaxLen(all[..|all|-1]);
      var last := all[|all|-1];
      assert all == all[..|all|-1] + [last];
      assert last in all;
      if |last| > m then |last| else m
  }

  /** The hops available at a position, in attempt order. */
  function Column(all: seq<seq<Hop>>, pos: nat): seq<Hop> {
    if all == [] then []
    else
      var last := all[|all|-1];
      Column(all[..|all|-1], pos) + (if pos < |last| then [last[pos]] else [])
  }

  function WithKey(col: seq<Hop>, k: Key): seq<Hop> {
    Filter(col, h => KeyOf(h) == k)
  }

  function Count(col: seq<Hop>, k: Key): nat {
    |WithKey(col, k)|
  }

  function Keys(col: seq<Hop>): set<Key> {
    set h | h in col :: KeyOf(h)
  }

  ghost predicate FirstOfItsKey(col: seq<Hop>, h: Hop) {
    exists i :: FirstAt(col, h, i)
  }

  ghost predicate FirstAt(col: seq<Hop>, h: Hop, i: int) {
    0 <= i < |col| && col[i] == h && forall j :: 0 <= j < i ==> KeyOf(col[j]) != KeyOf(h)
  }

  /** h may be chosen from this column: it is the earliest hop of a most frequent
      key, and the very first hop when three or more keys occur once each. */
  ghost predicate Chosen(col: seq<Hop>, h: Hop) {
    && FirstOfItsKey(col, h)
    && (forall k :: Count(col, k) <= Count(col, KeyOf(h)))
    && (Count(col, KeyOf(h)) == 1 && |Keys(col)| != 2 ==> h == col[0])
  }

  ghost predicate Merged(all: seq<seq<Hop>>, m: seq<Hop>) {
    && |m| == MaxLen(all)
    && forall pos :: 0 <= pos < |m| ==> Chosen(Column(all, pos), m[pos])
  }

  // ----- consequences -----

  lemma {:induction false} ColumnMembers(all: seq<seq<Hop>>, pos: nat)
    ensures forall h :: h in Column(all, pos) <==> exists a :: a in all && pos < |a| && a[pos] == h
  {
    if all != [] {
      var front, last := all[..|all|-1], all[|all|-1];
      ColumnMembers(front, pos);
      assert all == front + [last];
      assert last in all;
      forall h ensures h in Column(all, pos) <==> exists a :: a in all && pos < |a| && a[pos] == h {
        if h in Column(front, pos) {
          var a :| a in front && pos < |a| && a[pos] == h;
          assert a in all;
        }
      }
    }
  }

  lemma {:induction false} CountsShare(col: seq<Hop>, k: Key, l: Key)
    requires k != l
    ensures Count(col, k) + Count(col, l) <= |col|
  {
    if col != [] {
      CountsShare(col[..|col|-1], k, l);
    }
  }

  lemma FirstIsUnique(col: seq<Hop>, h: Hop, g: Hop)
    requires FirstOfItsKey(col, h) && FirstOfItsKey(col, g) && KeyOf(h) == KeyOf(g)
    ensures h == g
  {
    var i :| FirstAt(col, h, i);
    var j :| FirstAt(col, g, j);
    assert i == j;
  }

  /** A strict majority wins whatever the iteration order, and fixes the hop. */
  lemma StrictMajorityWins(all: seq<seq<Hop>>, m: seq<Hop>, n: seq<Hop>, pos: nat, k: Key)
    requires Merged(all, m) && Merged(all, n) && pos < MaxLen(all)
    requires 2 * Count(Column(all, pos), k) > |Column(all, pos)|
    ensures KeyOf(m[pos]) == k && m[pos] == n[pos]
  {
    var col := Column(all, pos);
    assert Chosen(col, m[pos]) && Chosen(col, n[pos]);
    if KeyOf(m[pos]) != k { CountsShare(col, k, KeyOf(m[pos])); }
    if KeyOf(n[pos]) != k { CountsShare(col, k, KeyOf(n[pos])); }
    FirstIsUnique(col, m[pos], n[pos]);
  }

  /** The hops of a position stand in the order of the attempts. */
  lemma {:induction false} ColumnConcat(all: seq<seq<Hop>>, a: seq<Hop>, more: seq<seq<Hop>>, pos: nat)
    ensures Column(all + [a] + more, pos) == Column(all, pos) + (if pos < |a| then [a[pos]] else []) + Column(more, pos)
  {
    var whole := all + [a] + more;
    if more == [] {
      assert whole == all + [a] && whole[..|whole|-1] == all;
    } else {
      ColumnConcat(all, a, more[..|more|-1], pos);
      assert whole[..|whole|-1] == all + [a] + more[..|more|-1];
    }
  }

  predicate Answered(h: Hop, ip: IP) {
    h.nodes != [] && h.nodes[0].ip == ip
  }

  /** An address that most attempts saw first at a position is the first one there in every merge; and a position most
      attempts left unanswered stays unanswered. */
  lemma MajorityAddress(all: seq<seq<Hop>>, m: seq<Hop>, pos: nat, ip: IP)
    requires Merged(all, m) && pos < |m|
    ensures 2 * |Filter(Column(all, pos), h => Answered(h, ip))| > |Column(all, pos)| ==> Answered(m[pos], ip)
    ensures 2 * |Filter(Column(all, pos), (h: Hop) => h.nodes == [])| > |Column(all, pos)| ==> m[pos].nodes == []
  {
    var col := Column(all, pos);
    FilterSame(col, h => Answered(h, ip), h => KeyOf(h) == Some(ip));
    FilterSame(col, (h: Hop) => h.nodes == [], h => KeyOf(h) == None);
    hide Column, Filter, MaxLen, Chosen;
    if 2 * Count(col, Some(ip)) > |col| {
      StrictMajorityWins(all, m, m, pos, Some(ip));
    }
    if 2 * Count(col, None) > |col| {
      StrictMajorityWins(all, m, m, pos, None);
    }
  }

  /** Merging any number of equal attempts gives that attempt. */
  lemma MergeOfEqual(all: seq<seq<Hop>>, m: seq<Hop>, a: seq<Hop>)
    requires Merged(all, m) && all != [] && forall b :: b in all ==> b == a
    ensures m == a
  {
    assert all[0] in all;
    if MaxLen(all) > 0 {
      var b :| b in all && |b| == MaxLen(all);
    }
    forall pos | 0 <= pos < |m| ensures m[pos] == a[pos] {
      ColumnMembers(all, pos);
      assert Chosen(Column(all, pos), m[pos]);
      assert m[pos] in Column(all, pos);
    }
  }

  /** Every chosen hop comes from some attempt at its own position. */
  lemma MergedFromAttempts(all: seq<seq<Hop>>, m: seq<Hop>, pos: nat)
    requires Merged(all, m) && pos < |m|
    ensures exists a :: a in all && pos < |a| && a[pos] == m[pos]
  {
    ColumnMembers(all, pos);
    assert Chosen(Column(all, pos), m[pos]);
    assert m[pos] in Column(all, pos);
  }

  // ----- the code -----

  lemma {:induction false} FirstWithKey(col: seq<Hop>, k: Key)
    requires WithKey(col, k) != []
    ensures FirstOfItsKey(col, WithKey(col, k)[0]) && KeyOf(WithKey(col, k)[0]) == k
  {
    var front, last := col[..|col|-1], col[|col|-1];
    if WithKey(front, k) != [] {
      FirstWithKey(front, k);
      var h := WithKey(front, k)[0];
      var i :| FirstAt(front, h, i);
      assert FirstAt(col, h, i);
    } else {
      FilterMembers(front, h => KeyOf(h) == k);
      forall j | 0 <= j < |front| ensures KeyOf(col[j]) != k {
        assert front[j] in front;
      }
      assert FirstAt(col, last, |col|-1);
    }
  }

  lemma CountOfAbsent(col: seq<Hop>, k: Key)
    requires k !in Keys(col)
    ensures WithKey(col, k) == []
  {
    FilterMembers(col, h => KeyOf(h) == k);
    FirstIsMember(WithKey(col, k));
  }

  lemma CountOfPresent(col: seq<Hop>, k: Key)
    requires k in Keys(col)
    ensures WithKey(col, k) != []
  {
    FilterMembers(col, h => KeyOf(h) == k);
    var h :| h in col && KeyOf(h) == k;
    assert h in WithKey(col, k);
  }

  // ----- when the map order cannot show -----

  /** Of finitely many keys one is most frequent. */
  lemma {:induction false} MostFrequent(col: seq<Hop>, keys: set<Key>) returns (k: Key)
    requires keys != {}
    ensures k in keys && forall l :: l in keys ==> Count(col, l) <= Count(col, k)
    decreases |keys|
  {
    hide Count;
    k :| k in keys;
    if keys != {k} {
      var rest := keys - {k};
      assert rest != {} by {
        assert keys == rest + {k};
      }
      var l := MostFrequent(col, rest);
      if Count(col, l) > Count(col, k) {
        k := l;
      }
    }
  }

  /** One key is more frequent than every other. */
  ghost predicate UniqueMode(col: seq<Hop>) {
    exists k :: k in Keys(col) && forall l :: l != k ==> Count(col, l) < Count(col, k)
  }

  /** Every key occurs once, and there are not two of them. */
  ghost predicate AllOnce(col: seq<Hop>) {
    |Keys(col)| != 2 && forall k :: k in Keys(col) ==> Count(col, k) == 1
  }

  /** The first hop of a most frequent key may be chosen, unless all keys occur once and there are not two. */
  lemma ModeChosen(col: seq<Hop>, k: Key) returns (h: Hop)
    requires k in Keys(col) && !AllOnce(col) && forall l :: l in Keys(col) ==> Count(col, l) <= Count(col, k)
    ensures Chosen(col, h) && KeyOf(h) == k
  {
    CountOfPresent(col, k);
    h := WithKey(col, k)[0];
    FirstWithKey(col, k);
    forall l ensures Count(col, l) <= Count(col, k) {
      if l !in Keys(col) {
        CountOfAbsent(col, l);
      }
    }
    forall l | l in Keys(col) ensures Count(col, l) >= 1 {
      CountOfPresent(col, l);
    }
    hide Count, WithKey, FirstOfItsKey, Keys;
    assert Count(col, k) == 1 ==> forall l :: l in Keys(col) ==> Count(col, l) == 1;
  }

  lemma ChosenIsMode(col: seq<Hop>, h: Hop)
    requires Chosen(col, h)
    ensures KeyOf(h) in Keys(col) && forall l :: Count(col, l) <= Count(col, KeyOf(h))
    ensures AllOnce(col) ==> h == col[0]
  {
    hide Count;
  }

  /** At a position with a hop, every map order chooses the same hop exactly when one key is more frequent than every
      other, or all occur once and there are not two. */
  lemma ChoiceUniqueExactly(col: seq<Hop>)
    requires col != []
    ensures (forall h, g :: Chosen(col, h) && Chosen(col, g) ==> h == g) <==> UniqueMode(col) || AllOnce(col)
  {
    assert KeyOf(col[0]) in Keys(col);
    if UniqueMode(col) || AllOnce(col) {
      forall h, g | Chosen(col, h) && Chosen(col, g) ensures h == g {
        SameChoice(col, h, g);
      }
    } else {
      var k := MostFrequent(col, Keys(col));
      var h := ModeChosen(col, k);
      var l :| l != k && Count(col, l) >= Count(col, k);
      if l !in Keys(col) {
        CountOfAbsent(col, l);
        CountOfPresent(col, k);
      }
      hide Count, Keys, Chosen, AllOnce;
      var g := ModeChosen(col, l);
      assert Chosen(col, h) && Chosen(col, g) && h != g;
    }
  }

  lemma SameChoice(col: seq<Hop>, h: Hop, g: Hop)
    requires Chosen(col, h) && Chosen(col, g) && (UniqueMode(col) || AllOnce(col))
    ensures h == g
  {
    ChosenIsMode(col, h);
    ChosenIsMode(col, g);
    if UniqueMode(col) {
      var k :| k in Keys(col) && forall l :: l != k ==> Count(col, l) < Count(col, k);
      hide Count, Keys, AllOnce;
      assert KeyOf(h) == k && KeyOf(g) == k;
      FirstIsUnique(col, h, g);
    }
  }

  /** So any two merges agree at every such position. */
  lemma MergesAgree(all: seq<seq<Hop>>, m: seq<Hop>, n: seq<Hop>, pos: nat)
    requires Merged(all, m) && Merged(all, n) && pos < MaxLen(all)
    requires UniqueMode(Column(all, pos)) || AllOnce(Column(all, pos))
    ensures m[pos] == n[pos]
  {
    hide Chosen, UniqueMode, AllOnce;
    SameChoice(Column(all, pos), m[pos], n[pos]);
  }

  method GroupByKey(col: seq<Hop>) returns (groups: map<Key, seq<Hop>>)
    ensures groups.Keys == Keys(col)
    ensures forall k :: k in groups ==> groups[k] == WithKey(col, k)
  {
    groups := map[];
    for i := 0 to |col|
      invariant groups.Keys == Keys(col[..i])
      invariant forall k :: k in groups ==> groups[k] == WithKey(col[..i], k)
    {
      var k := KeyOf(col[i]);
      assert Keys(col[..i+1]) == Keys(col[..i]) + {k} by {
        assert col[..i+1] == col[..i] + [col[i]];
      }
      forall l ensures WithKey(col[..i+1], l) == WithKey(col[..i], l) + (if l == k then [col[i]] else []) {
        FilterStep(col, i, h => KeyOf(h) == l);
      }
      if k !in groups {
        CountOfAbsent(col[..i], k);
        groups := groups[k := []];
      }
      groups := groups[k := groups[k] + [col[i]]];
    }
    assert col[..|col|] == col;
  }

  method ChooseHop(col: seq<Hop>) returns (h: Hop)
    requires col != []
    ensures Chosen(col, h)
  {
    var groups := GroupByKey(col);
    var k0 := KeyOf(col[0]);
    assert col[0] in col && k0 in Keys(col);
    forall k ensures Count(col, k) == if k in groups then |groups[k]| else 0 {
      if k !in groups { CountOfAbsent(col, k); }
    }
    FirstWithOwnKey(col);
    if |groups| == 1 {
      OnlyKey(groups, k0);
      return col[0];
    }
    var maxCount, majority := 0, [];
    var todo := groups.Keys;
    ghost var best := k0;
    while todo != {}
      invariant todo <= groups.Keys
      invariant forall k :: k in groups && k !in todo ==> |groups[k]| <= maxCount
      invariant maxCount > 0 ==> best in groups && majority == groups[best] && |majority| == maxCount
      invariant maxCount == 0 ==> todo == groups.Keys
    {
      var k :| k in todo;
      CountOfPresent(col, k);
      todo := todo - {k};
      if |groups[k]| > maxCount {
        maxCount, majority, best := |groups[k]|, groups[k], k;
      }
    }
    assert k0 in groups;
    CountOfPresent(col, k0);
    FirstWithKey(col, best);
    assert |Keys(col)| == |groups|;
    if maxCount > 1 || |groups| == 2 {
      h := majority[0];
    } else {
      h := col[0];
    }
  }

  lemma FirstWithOwnKey(col: seq<Hop>)
    requires col != []
    ensures FirstOfItsKey(col, col[0])
  {
    assert FirstAt(col, col[0], 0);
  }

  lemma OnlyKey(groups: map<Key, seq<Hop>>, k: Key)
    requires |groups| == 1 && k in groups
    ensures groups.Keys == {k}
  {
    assert |groups.Keys - {k}| == 0;
  }

  method LongestLength(all: seq<seq<Hop>>) returns (maxLen: nat)
    ensures maxLen == MaxLen(all)
  {
    maxLen := 0;
    for i := 0 to |all|
      invariant maxLen == MaxLen(all[..i])
    {
      assert all[..i+1][..i] == all[..i];
      if |all[i]| > maxLen {
        maxLen := |all[i]|;
      }
    }
    assert all[..|all|] == all;
  }

  method AvailableAt(all: seq<seq<Hop>>, pos: nat) returns (available: seq<Hop>)
    ensures available == Column(all, pos)
  {
    available := [];
    for i := 0 to |all|
      invariant available == Column(all[..i], pos)
    {
      assert all[..i+1][..i] == all[..i];
      if pos < |all[i]| {
        available := available + [all[i][pos]];
      }
    }
    assert all[..|all|] == all;
  }

  lemma ColumnNonempty(all: seq<seq<Hop>>, pos: nat)
    requires pos < MaxLen(all)
    ensures Column(all, pos) != []
  {
    ColumnMembers(all, pos);
    var a :| a in all && |a| == MaxLen(all);
    assert a[pos] in Column(all, pos);
  }

  method HopAt(all: seq<seq<Hop>>, pos: nat) returns (h: Hop)
    requires pos < MaxLen(all)
    ensures Chosen(Column(all, pos), h)
  {
    var available := AvailableAt(all, pos);
    ColumnNonempty(all, pos);
    if |available| == 1 {
      LoneHop(available);
      h := available[0];
    } else {
      h := ChooseHop(available);
    }
  }

  lemma NoAttempts()
    ensures Merged([], [])
  {
  }

  lemma AllPositions(all: seq<seq<Hop>>, m: seq<Hop>)
    requires |m| == MaxLen(all)
    requires forall p :: 0 <= p < |m| ==> Chosen(Column(all, p), m[p])
    ensures Merged(all, m)
  {
  }

  method MergeHops(all: seq<seq<Hop>>) returns (merged: seq<Hop>)
    ensures Merged(all, merged)
  {
    hide *;
    if |all| == 0 {
      NoAttempts();
      return [];
    }
    if |all| == 1 {
      SingleAttempt(all);
      return all[0];
    }
    var maxLen := LongestLength(all);
    merged := [];
    for pos := 0 to maxLen
      invariant |merged| == pos
      invariant forall p :: 0 <= p < pos ==> Chosen(Column(all, p), merged[p])
    {
      var h := HopAt(all, pos);
      merged := merged + [h];
    }
    AllPositions(all, merged);
  }

  lemma LoneHop(col: seq<Hop>)
    requires |col| == 1
    ensures Chosen(col, col[0])
  {
    FirstWithOwnKey(col);
    var only := col[0];
    assert col[..0] == [] && col == [only];
    forall k ensures Count(col, k) <= Count(col, KeyOf(only)) {
      FilterStep(col, 0, h => KeyOf(h) == k);
    }
  }

  lemma SingleAttempt(all: seq<seq<Hop>>)
    requires |all| == 1
    ensures Merged(all, all[0])
  {
    assert all[..0] == [] && all == [all[0]];
    assert MaxLen(all) == |all[0]|;
    forall pos | 0 <= pos < |all[0]| ensures Chosen(Column(all, pos), all[0][pos]) {
      assert Column(all, pos) == [all[0][pos]];
      LoneHop([all[0][pos]]);
    }
  }
}
