/** One entry for each relationship, in a fixed order, whatever order a map is walked in. */
module Relationships {
  import opened Lists
  import opened Sorting
  import opened Text

  datatype Relationship = Relationship(asn: string, name: string, kind: string, source: string, status: string,
                                       power: real, ixpId: string, inferred: bool, rateLimited: bool, timeout: bool)

  function Key(v: Relationship): string {
    v.kind + ":" + v.asn + ":" + v.ixpId
  }

  // ----- order: kind, then number text, then exchange -----

  predicate Before(a: Relationship, b: Relationship) {
    if a.kind != b.kind then Less(a.kind, b.kind)
    else if a.asn != b.asn then Less(a.asn, b.asn)
    else Less(a.ixpId, b.ixpId)
  }

  predicate SameTriple(a: Relationship, b: Relationship) {
    a.kind == b.kind && a.asn == b.asn && a.ixpId == b.ixpId
  }

  function InOrder(): (Relationship, Relationship) -> bool {
    (a: Relationship, b: Relationship) => SameTriple(a, b) || Before(a, b)
  }

  lemma BeforeTotal(a: Relationship, b: Relationship)
    ensures SameTriple(a, b) || Before(a, b) || Before(b, a)
    ensures !(Before(a, b) && Before(b, a)) && !(SameTriple(a, b) && Before(a, b))
  {
    LessTotal(a.kind, b.kind);
    LessTotal(a.asn, b.asn);
    LessTotal(a.ixpId, b.ixpId);
    hide Less;
  }

  lemma BeforeTransitive(a: Relationship, b: Relationship, c: Relationship)
    requires Before(a, b) && Before(b, c)
    ensures Before(a, c)
  {
    hide Less;
    LessTotal(a.kind, b.kind);
    LessTotal(a.asn, b.asn);
    if a.kind != b.kind && b.kind != c.kind {
      LessTransitive(a.kind, b.kind, c.kind);
    } else if a.kind == b.kind == c.kind {
      if a.asn != b.asn && b.asn != c.asn {
        LessTransitive(a.asn, b.asn, c.asn);
      } else if a.asn == b.asn == c.asn {
        LessTransitive(a.ixpId, b.ixpId, c.ixpId);
      }
    }
  }

  lemma InOrderPreorder()
    ensures TotalPreorder(InOrder())
  {
    forall x, y ensures InOrder()(x, y) || InOrder()(y, x) {
      BeforeTotal(x, y);
    }
    forall x, y, z | InOrder()(x, y) && InOrder()(y, z) ensures InOrder()(x, z) {
      if Before(x, y) && Before(y, z) {
        BeforeTransitive(x, y, z);
      }
    }
  }

  // ----- the entry kept for a key -----

  /** The kept entries after the whole list: a later entry replaces an earlier one only to supply a missing name. */
  function Chosen(values: seq<Relationship>): map<string, Relationship> {
    if values == [] then map[]
    else
      var kept, value := Chosen(values[..|values|-1]), values[|values|-1];
      var key := Key(value);
      if key !in kept || (kept[key].name == "" && value.name != "") then kept[key := value] else kept
  }

  /** The index holds the first entry of the key with a name, or if none has one the first entry of the key. */
  ghost predicate First(values: seq<Relationship>, key: string, i: nat) {
    && i < |values| && Key(values[i]) == key
    && (forall j :: 0 <= j < i && Key(values[j]) == key ==> values[j].name == "" && values[i].name != "")
    && (values[i].name == "" ==> forall j :: i <= j < |values| && Key(values[j]) == key ==> values[j].name == "")
  }

  ghost predicate Represents(values: seq<Relationship>, key: string, v: Relationship) {
    exists i: nat :: First(values, key, i) && values[i] == v
  }

  ghost predicate Occurs(values: seq<Relationship>, key: string) {
    exists i :: 0 <= i < |values| && Key(values[i]) == key
  }

  lemma OccursMore(front: seq<Relationship>, last: Relationship, key: string)
    ensures Occurs(front + [last], key) <==> Occurs(front, key) || Key(last) == key
  {
    hide Key;
    var values := front + [last];
    assert values[|front|] == last;
    forall i | 0 <= i < |front| ensures values[i] == front[i] {
    }
    if Occurs(front, key) {
      var i :| 0 <= i < |front| && Key(front[i]) == key;
      assert Key(values[i]) == key;
    }
  }

  /** An entry of another key, or one without a better name, leaves the representative alone. */
  lemma RepresentsMore(front: seq<Relationship>, last: Relationship, key: string, v: Relationship)
    requires Represents(front, key, v) && (Key(last) != key || v.name != "" || last.name == "")
    ensures Represents(front + [last], key, v)
  {
    hide Key;
    var i: nat :| First(front, key, i) && front[i] == v;
    assert First(front + [last], key, i);
  }

  /** The first entry of its key represents it. */
  lemma RepresentsNew(front: seq<Relationship>, last: Relationship)
    requires !Occurs(front, Key(last))
    ensures Represents(front + [last], Key(last), last)
  {
    hide Key;
    assert First(front + [last], Key(last), |front|);
  }

  /** So does the first entry with a name, when the key had none. */
  lemma RepresentsNamed(front: seq<Relationship>, last: Relationship, v: Relationship)
    requires Represents(front, Key(last), v) && v.name == "" && last.name != ""
    ensures Represents(front + [last], Key(last), last)
  {
    hide Key;
    var i: nat :| First(front, Key(last), i) && front[i] == v;
    assert First(front + [last], Key(last), |front|);
  }

  lemma {:induction false} ChosenRepresents(values: seq<Relationship>, key: string)
    ensures key in Chosen(values) <==> Occurs(values, key)
    ensures key in Chosen(values) ==> Represents(values, key, Chosen(values)[key])
  {
    if values != [] {
      var front, last := values[..|values|-1], values[|values|-1];
      assert values == front + [last];
      hide Key, Represents, Occurs;
      OccursMore(front, last, key);
      ChosenRepresents(front, key);
      if key !in Chosen(front) {
        if Key(last) == key {
          RepresentsNew(front, last);
        }
      } else if Key(last) == key && Chosen(front)[key].name == "" && last.name != "" {
        RepresentsNamed(front, last, Chosen(front)[key]);
      } else {
        RepresentsMore(front, last, key, Chosen(front)[key]);
      }
    }
  }

  /** A key has one representative. */
  lemma RepresentativeUnique(values: seq<Relationship>, key: string, v: Relationship, w: Relationship)
    requires Represents(values, key, v) && Represents(values, key, w)
    ensures v == w
  {
    hide Key;
    var i: nat :| First(values, key, i) && values[i] == v;
    var k: nat :| First(values, key, k) && values[k] == w;
  }

  // ----- the output -----

  ghost predicate StrictOrder(result: seq<Relationship>) {
    forall i, j :: 0 <= i < j < |result| ==> Before(result[i], result[j])
  }

  /** Strictly ordered, and holding for every key of the input its representative and nothing else. */
  ghost predicate IsDeduped(values: seq<Relationship>, result: seq<Relationship>) {
    && StrictOrder(result)
    && (forall v :: v in result <==> Key(v) in Chosen(values) && Chosen(values)[Key(v)] == v)
  }

  lemma {:induction false} ChosenKeys(values: seq<Relationship>, key: string)
    ensures key in Chosen(values) ==> Key(Chosen(values)[key]) == key
  {
    hide Key;
    if values != [] {
      ChosenKeys(values[..|values|-1], key);
    }
  }

  lemma KeyOfTriple(a: Relationship, b: Relationship)
    requires SameTriple(a, b)
    ensures Key(a) == Key(b)
  {
  }

  lemma DistinctKeysStrict(collected: seq<Relationship>)
    requires forall i, j :: 0 <= i < j < |collected| ==> Key(collected[i]) != Key(collected[j])
    ensures StrictOrder(Sort(collected, InOrder()))
    ensures forall v :: v in Sort(collected, InOrder()) <==> v in collected
  {
    InOrderPreorder();
    SortSorts(collected, InOrder());
    var r := Sort(collected, InOrder());
    KeysStayDistinct(r, collected, Key);
    hide Sort, Key, Before;
    forall i, j | 0 <= i < j < |r| ensures Before(r[i], r[j]) {
      assert InOrder()(r[i], r[j]);
      if SameTriple(r[i], r[j]) {
        KeyOfTriple(r[i], r[j]);
      }
    }
  }

  method DedupeRelationships(values: seq<Relationship>) returns (result: seq<Relationship>)
    ensures IsDeduped(values, result)
  {
    hide Key, Sort, StrictOrder;
    var seen: map<string, Relationship> := map[];
    for i := 0 to |values|
      invariant seen == Chosen(values[..i])
    {
      assert values[..i+1][..i] == values[..i];
      var value := values[i];
      var key := Key(value);
      if key !in seen || (seen[key].name == "" && value.name != "") {
        seen := seen[key := value];
      }
    }
    assert values[..|values|] == values;
    var collected: seq<Relationship> := [];
    var keys := seen.Keys;
    hide Chosen;
    while keys != {}
      invariant keys <= seen.Keys
      invariant forall v :: v in collected <==> Key(v) in seen && Key(v) !in keys && seen[Key(v)] == v
      invariant forall i, j :: 0 <= i < j < |collected| ==> Key(collected[i]) != Key(collected[j])
      decreases |keys|
    {
      var key :| key in keys;
      ChosenKeys(values, key);
      forall i | 0 <= i < |collected| ensures Key(collected[i]) != key {
        assert collected[i] in collected;
      }
      keys := keys - {key};
      collected := collected + [seen[key]];
    }
    DistinctKeysStrict(collected);
    result := Sort(collected, InOrder());
  }

  // ----- what the output means -----

  /** The output goes by kind, within a kind by the text of the number, and within a number by the exchange. */
  lemma OutputOrder(values: seq<Relationship>, result: seq<Relationship>, i: nat, j: nat)
    requires IsDeduped(values, result) && i < j < |result|
    ensures var a, b := result[i], result[j];
            || Less(a.kind, b.kind)
            || (a.kind == b.kind && Less(a.asn, b.asn))
            || (a.kind == b.kind && a.asn == b.asn && Less(a.ixpId, b.ixpId))
  {
    hide Less;
    assert Before(result[i], result[j]);
  }

  lemma StrictIsSeparated(r: seq<Relationship>)
    requires StrictOrder(r)
    ensures Ordered(r, InOrder()) && Separated(r, InOrder()) && Distinct(r)
  {
    forall x, y | x in r && y in r && InOrder()(x, y) && InOrder()(y, x) ensures x == y {
      var i :| 0 <= i < |r| && r[i] == x;
      var j :| 0 <= j < |r| && r[j] == y;
      BeforeTotal(x, y);
    }
    forall i, j | 0 <= i < j < |r| ensures r[i] != r[j] && InOrder()(r[i], r[j]) {
      BeforeTotal(r[i], r[j]);
    }
  }

  lemma StrictUnique(a: seq<Relationship>, b: seq<Relationship>)
    requires StrictOrder(a) && StrictOrder(b) && forall v :: v in a <==> v in b
    ensures a == b
  {
    StrictIsSeparated(a);
    StrictIsSeparated(b);
    SameMembersSameBag(a, b);
    InOrderPreorder();
    hide StrictOrder, Ordered, Separated, TotalPreorder;
    OrderedUnique(a, b, InOrder());
  }

  /** The order in which the map is walked cannot show. */
  lemma OutputUnique(values: seq<Relationship>, a: seq<Relationship>, b: seq<Relationship>)
    requires IsDeduped(values, a) && IsDeduped(values, b)
    ensures a == b
  {
    hide Key, Chosen, StrictOrder;
    StrictUnique(a, b);
  }

  /** Every input key is in the output once, as the first named entry or else the first. */
  lemma OutputRepresents(values: seq<Relationship>, result: seq<Relationship>, i: nat)
    requires IsDeduped(values, result) && i < |values|
    ensures exists r :: r in result && Key(r) == Key(values[i]) && Represents(values, Key(values[i]), r)
              && (forall s :: s in result && Key(s) == Key(r) ==> s == r)
              && (forall s :: Represents(values, Key(values[i]), s) ==> s == r)
  {
    hide Key, StrictOrder, Represents;
    var key := Key(values[i]);
    assert Occurs(values, key);
    ChosenRepresents(values, key);
    ChosenKeys(values, key);
    var r := Chosen(values)[key];
    assert r in result;
    forall s | Represents(values, key, s) ensures s == r {
      RepresentativeUnique(values, key, s, r);
    }
  }

  lemma {:induction false} ChosenOfDistinct(s: seq<Relationship>)
    requires forall i, j :: 0 <= i < j < |s| ==> Key(s[i]) != Key(s[j])
    ensures forall v :: v in s <==> Key(v) in Chosen(s) && Chosen(s)[Key(v)] == v
  {
    hide Key;
    if s != [] {
      var front, last := s[..|s|-1], s[|s|-1];
      ChosenOfDistinct(front);
      ChosenRepresents(front, Key(last));
      assert s == front + [last];
    }
  }

  lemma OutputKeysDistinct(values: seq<Relationship>, result: seq<Relationship>)
    requires IsDeduped(values, result)
    ensures forall i, j :: 0 <= i < j < |result| ==> Key(result[i]) != Key(result[j])
  {
    hide Key, Chosen;
    StrictIsSeparated(result);
    hide StrictOrder, Ordered, Separated;
    forall i, j | 0 <= i < j < |result| ensures Key(result[i]) != Key(result[j]) {
      assert result[i] in result && result[j] in result;
    }
  }

  /** Deduplicating twice is deduplicating once. */
  lemma Idempotent(values: seq<Relationship>, once: seq<Relationship>, twice: seq<Relationship>)
    requires IsDeduped(values, once) && IsDeduped(once, twice)
    ensures twice == once
  {
    OutputKeysDistinct(values, once);
    ChosenOfDistinct(once);
    hide Key, Chosen, StrictOrder;
    StrictUnique(twice, once);
  }

  // ----- when the joined key tells entries apart -----

  lemma CutAtColon(a: string, x: string, b: string, y: string)
    requires ':' !in a && ':' !in b && a + ":" + x == b + ":" + y
    ensures a == b && x == y
  {
    hide Split;
    assert [':'] == ":";
    SplitPrefix(a, x, ':');
    SplitPrefix(b, y, ':');
    assert Split(a + ":" + x, ':')[0] == a && Split(b + ":" + y, ':')[0] == b;
    assert x == (a + ":" + x)[|a|+1..] && y == (b + ":" + y)[|b|+1..];
  }

  /** With colon-free kinds and numbers the key determines the triple. */
  lemma KeyInjective(a: Relationship, b: Relationship)
    requires ':' !in a.kind && ':' !in a.asn && ':' !in b.kind && ':' !in b.asn
    ensures Key(a) == Key(b) <==> SameTriple(a, b)
  {
    if Key(a) == Key(b) {
      assert Key(a) == a.kind + ":" + (a.asn + ":" + a.ixpId);
      assert Key(b) == b.kind + ":" + (b.asn + ":" + b.ixpId);
      CutAtColon(a.kind, a.asn + ":" + a.ixpId, b.kind, b.asn + ":" + b.ixpId);
      CutAtColon(a.asn, a.ixpId, b.asn, b.ixpId);
    }
  }

  /** Some entry of the list has the triple. */
  ghost predicate HasTriple(list: seq<Relationship>, v: Relationship) {
    exists r :: r in list && SameTriple(r, v)
  }

  /** Strict order leaves room for one entry of a triple. */
  lemma OneOfATriple(result: seq<Relationship>, r: Relationship, s: Relationship)
    requires StrictOrder(result) && r in result && s in result && SameTriple(r, s)
    ensures r == s
  {
    var i :| 0 <= i < |result| && result[i] == r;
    var j :| 0 <= j < |result| && result[j] == s;
    BeforeTotal(result[i], result[j]);
    BeforeTotal(result[j], result[i]);
  }

  /** The output keeps every kind, ASN and exchange id of the input exactly when the joined key tells the inputs apart. */
  lemma TriplesKeptExactly(values: seq<Relationship>, result: seq<Relationship>)
    requires IsDeduped(values, result)
    ensures (forall v :: v in values ==> HasTriple(result, v)) <==>
            (forall v, u :: v in values && u in values && Key(v) == Key(u) ==> SameTriple(v, u))
    ensures forall r, s :: r in result && s in result && SameTriple(r, s) ==> r == s
  {
    forall r, s | r in result && s in result && SameTriple(r, s) ensures r == s {
      OneOfATriple(result, r, s);
    }
    hide Key, StrictOrder, Represents, Chosen;
    if forall v, u :: v in values && u in values && Key(v) == Key(u) ==> SameTriple(v, u) {
      forall v | v in values ensures HasTriple(result, v) {
        var r := KeptFor(values, result, v);
      }
    }
    if forall v :: v in values ==> HasTriple(result, v) {
      forall v, u | v in values && u in values && Key(v) == Key(u) ensures SameTriple(v, u) {
        var r :| r in result && SameTriple(r, v);
        var s :| s in result && SameTriple(s, u);
        KeyOfTriple(r, v);
        KeyOfTriple(s, u);
      }
    }
  }

  /** The entry kept for an input's key, itself an input. */
  lemma KeptFor(values: seq<Relationship>, result: seq<Relationship>, v: Relationship) returns (r: Relationship)
    requires IsDeduped(values, result) && v in values
    ensures r in result && r in values && Key(r) == Key(v)
  {
    hide Key, StrictOrder, Represents, Chosen;
    var i :| 0 <= i < |values| && values[i] == v;
    OutputRepresents(values, result, i);
    r :| r in result && Key(r) == Key(values[i]) && Represents(values, Key(values[i]), r);
    RepresentsMember(values, Key(values[i]), r);
  }

  lemma RepresentsMember(values: seq<Relationship>, key: string, v: Relationship)
    requires Represents(values, key, v)
    ensures v in values
  {
    hide Key;
  }

  /** Colon-free kinds and numbers, which is what the callers pass, are enough. */
  lemma ColonFreeKeepsAll(values: seq<Relationship>, result: seq<Relationship>)
    requires IsDeduped(values, result) && forall v :: v in values ==> ':' !in v.kind && ':' !in v.asn
    ensures forall v :: v in values ==> HasTriple(result, v)
  {
    hide Key, IsDeduped, HasTriple;
    forall v, u | v in values && u in values && Key(v) == Key(u) ensures SameTriple(v, u) {
      KeyInjective(v, u);
    }
    TriplesKeptExactly(values, result);
  }

  /** A colon in the number text can merge two different relationships: of these two the output has one. */
  lemma ColonMerges(kind: string, a: string, b: string, c: string, like: Relationship, result: seq<Relationship>)
    requires var one := like.(kind := kind, asn := a + ":" + b, ixpId := c);
             var two := like.(kind := kind, asn := a, ixpId := b + ":" + c);
             IsDeduped([one, two], result)
    ensures var one := like.(kind := kind, asn := a + ":" + b, ixpId := c);
            var two := like.(kind := kind, asn := a, ixpId := b + ":" + c);
            !SameTriple(one, two) && !(HasTriple(result, one) && HasTriple(result, two))
  {
    var one := like.(kind := kind, asn := a + ":" + b, ixpId := c);
    var two := like.(kind := kind, asn := a, ixpId := b + ":" + c);
    assert Key(one) == Key(two) by {
      assert Key(one) == kind + ":" + a + ":" + (b + ":" + c);
    }
    assert |a + ":" + b| != |a|;
    hide Key, IsDeduped, HasTriple;
    TriplesKeptExactly([one, two], result);
    assert one in [one, two] && two in [one, two];
  }

  // ----- a report -----

  datatype SourceStatus = SourceStatus(source: string, status: string)

  function BySource(): (SourceStatus, SourceStatus) -> bool {
    (a: SourceStatus, b: SourceStatus) => LessEq(a.source, b.source)
  }

  lemma BySourceOrder()
    ensures TotalPreorder(BySource())
  {
    forall x, y ensures BySource()(x, y) || BySource()(y, x) {
      LessTotal(x.source, y.source);
    }
    forall x, y, z | BySource()(x, y) && BySource()(y, z) ensures BySource()(x, z) {
      if Less(x.source, y.source) && Less(y.source, z.source) {
        LessTransitive(x.source, y.source, z.source);
      }
    }
  }

  class Report {
    var upstreams: seq<Relationship>
    var peers: seq<Relationship>
    var ixps: seq<Relationship>
    var statuses: seq<SourceStatus>

    constructor (u: seq<Relationship>, p: seq<Relationship>, x: seq<Relationship>, s: seq<SourceStatus>)
      ensures upstreams == u && peers == p && ixps == x && statuses == s
    {
      upstreams, peers, ixps, statuses := u, p, x, s;
    }

    method SortRelationships()
      modifies this
      ensures IsDeduped(old(upstreams), upstreams)
      ensures IsDeduped(old(peers), peers)
      ensures IsDeduped(old(ixps), ixps)
      ensures forall i, j :: 0 <= i < j < |statuses| ==> LessEq(statuses[i].source, statuses[j].source)
      ensures multiset(statuses) == multiset(old(statuses))
    {
      hide IsDeduped, Sort, LessEq;
      upstreams := DedupeRelationships(upstreams);
      peers := DedupeRelationships(peers);
      ixps := DedupeRelationships(ixps);
      BySourceOrder();
      SortSorts(statuses, BySource());
      statuses := Sort(statuses, BySource());
      assert Ordered(statuses, BySource());
    }
  }
}
