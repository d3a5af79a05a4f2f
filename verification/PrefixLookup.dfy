/** The autonomous system of an IPv6 address: the most specific entry of an unordered table. */
module PrefixLookup {
  import opened Bits
  import opened Lists
  import opened Text

  /** A parsed address: its family, whether it carries a zone, and its bits as a number. */
  datatype Addr = Addr(v6: bool, zoned: bool, value: nat)
  datatype Network = Network(addr: Addr, bits: nat)

  /** The address parsers of the standard library. */
  datatype NetIP = NetIP(addr: string -> Option<Addr>, prefix: string -> Option<Network>)

  type Registry = map<string, seq<string>>

  function Width(v6: bool): nat {
    if v6 then 128 else 32
  }

  /** The leading bits of an address. */
  function Leading(a: Addr, bits: nat): nat
    requires bits <= Width(a.v6)
  {
    ShiftRight(a.value, Width(a.v6) - bits)
  }

  predicate Contains(n: Network, a: Addr) {
    && n.bits <= Width(n.addr.v6)
    && !a.zoned && n.addr.v6 == a.v6
    && Leading(n.addr, n.bits) == Leading(a, n.bits)
  }

  /** The size of a network's block of addresses. */
  function Size(n: Network): nat
    requires n.bits <= Width(n.addr.v6)
  {
    Pow2(Width(n.addr.v6) - n.bits)
  }

  /** The block of the network holds the address: the addresses of its family, without a zone, from the last multiple
      of the size not above the network's own address. */
  ghost predicate Covers(n: Network, a: Addr) {
    && n.bits <= Width(n.addr.v6)
    && a.v6 == n.addr.v6 && !a.zoned
    && var first := n.addr.value - n.addr.value % Size(n); first <= a.value < first + Size(n)
  }

  /** Comparing leading bits decides whether the address lies in the block. */
  lemma ContainsExactly(n: Network, a: Addr)
    ensures Contains(n, a) <==> Covers(n, a)
  {
    if n.bits <= Width(n.addr.v6) && a.v6 == n.addr.v6 {
      ShiftDivides(n.addr.value, Width(n.addr.v6) - n.bits);
      ShiftDivides(a.value, Width(n.addr.v6) - n.bits);
      hide Pow2, ShiftRight, Aligned;
      SameBlock(n.addr.value, a.value, Size(n));
    }
  }

  predicate IsHexDigit(c: char) {
    '0' <= c <= '9' || 'a' <= c <= 'f'
  }

  /** The bits a fragment of address text fixes: four for each lower-case hexadecimal digit. */
  function HexBits(fragment: string): nat {
    4 * |Filter(fragment, IsHexDigit)|
  }

  method PrefixHexBits(prefix: string) returns (bits: nat)
    ensures bits == HexBits(prefix)
  {
    bits := 0;
    for i := 0 to |prefix|
      invariant bits == HexBits(prefix[..i])
    {
      FilterStep(prefix, i, IsHexDigit);
      if '0' <= prefix[i] <= '9' {
        bits := bits + 4;
      } else if 'a' <= prefix[i] <= 'f' {
        bits := bits + 4;
      }
    }
    assert prefix[..|prefix|] == prefix;
  }

  /** A lookup in progress: the lower-case text asked about and the address it denotes. */
  datatype Query = Query(net: NetIP, text: string, addr: Addr)

  /** How specifically a table line covers the address, if it does. */
  function Score(q: Query, line: string): Option<nat> {
    var prefix := TrimSpace(line);
    if prefix == "" then None
    else if '/' in prefix then
      var network := q.net.prefix(prefix);
      if network.Some? && Contains(network.value, q.addr) then Some(network.value.bits) else None
    else if HasPrefix(q.text, prefix) then Some(HexBits(prefix))
    else None
  }

  /** Some line of the list covers the address with this specificity. */
  ghost predicate Covered(q: Query, lines: seq<string>, specificity: nat) {
    exists i :: 0 <= i < |lines| && Score(q, lines[i]) == Some(specificity)
  }

  ghost predicate Candidate(q: Query, registry: Registry, asn: string, specificity: nat) {
    asn in registry && Covered(q, registry[asn], specificity)
  }

  /** A candidate no other outranks: more specific first, then the smaller name. */
  ghost predicate Winner(q: Query, registry: Registry, asn: string, specificity: nat) {
    && Candidate(q, registry, asn, specificity)
    && forall a, s: nat :: Candidate(q, registry, a, s) ==> s < specificity || (s == specificity && LessEq(asn, a))
  }

  /** What a lookup may answer. */
  ghost predicate Answers(q: Query, registry: Registry, asn: string) {
    if exists a, s: nat :: Candidate(q, registry, a, s) then exists s: nat :: Winner(q, registry, asn, s) else asn == ""
  }

  /** The candidates met so far, and the best of them. */
  ghost predicate Leads(seen: iset<(string, nat)>, asn: string, specificity: int) {
    if specificity < 0 then asn == "" && specificity == -1 && seen == iset{}
    else
      && (asn, specificity) in seen
      && forall c :: c in seen ==> c.1 < specificity || (c.1 == specificity && LessEq(asn, c.0))
  }

  lemma LeadsStep(seen: iset<(string, nat)>, asn: string, specificity: int, a: string, s: nat)
    requires Leads(seen, asn, specificity)
    ensures var wins := s > specificity || (s == specificity && Less(a, asn));
            Leads(seen + iset{(a, s)}, if wins then a else asn, if wins then s else specificity)
  {
    hide Less;
    LessTotal(a, asn);
    if s == specificity && Less(a, asn) {
      forall c | c in seen && c.1 == s ensures LessEq(a, c.0) {
        if Less(asn, c.0) {
          LessTransitive(a, asn, c.0);
        }
      }
    }
  }

  /** The candidates contributed by some lists. */
  ghost function Met(q: Query, registry: Registry, done: set<string>): iset<(string, nat)> {
    iset a: string, s: nat | a in done && Candidate(q, registry, a, s) :: (a, s)
  }

  ghost function MetIn(q: Query, asn: string, lines: seq<string>): iset<(string, nat)> {
    iset s: nat | Covered(q, lines, s) :: (asn, s)
  }

  lemma MetInStep(q: Query, asn: string, lines: seq<string>, i: nat)
    requires i < |lines|
    ensures var score := Score(q, lines[i]);
            MetIn(q, asn, lines[..i+1]) ==
            MetIn(q, asn, lines[..i]) + (if score.Some? then iset{(asn, score.value)} else iset{})
  {
    hide Score;
    var before, after := lines[..i], lines[..i+1];
    forall s: nat ensures Covered(q, after, s) <==> Covered(q, before, s) || Score(q, lines[i]) == Some(s) {
      if Covered(q, before, s) {
        var j :| 0 <= j < |before| && Score(q, before[j]) == Some(s);
        assert Score(q, after[j]) == Some(s);
      }
      if Score(q, lines[i]) == Some(s) {
        assert Score(q, after[i]) == Some(s);
      }
      if Covered(q, after, s) {
        var j :| 0 <= j < |after| && Score(q, after[j]) == Some(s);
        assert j < i ==> Score(q, before[j]) == Some(s);
      }
    }
  }

  lemma LeadsAnswers(q: Query, registry: Registry, asn: string, specificity: int)
    requires Leads(Met(q, registry, registry.Keys), asn, specificity)
    ensures Answers(q, registry, asn)
    ensures specificity >= 0 ==> Winner(q, registry, asn, specificity)
  {
    hide Covered, LessEq;
    var seen := Met(q, registry, registry.Keys);
    forall a, s: nat | Candidate(q, registry, a, s)
      ensures (a, s) in seen && specificity >= 0
      ensures s < specificity || (s == specificity && LessEq(asn, a))
    {
      var c := (a, s);
      assert c in seen && c.1 == s && c.0 == a;
    }
    if specificity >= 0 {
      assert (asn, specificity) in seen;
      assert Winner(q, registry, asn, specificity);
    }
  }

  method Ipv6Asn(net: NetIP, registry: Registry, ip: string) returns (bestAsn: string)
    ensures var text := ToLower(ip);
            var address := net.addr(text);
            if address.Some? && address.value.v6 then Answers(Query(net, text, address.value), registry, bestAsn)
            else bestAsn == ""
  {
    var text := ToLower(ip);
    var address := net.addr(text);
    if address.None? || !address.value.v6 {
      return "";
    }
    ghost var q := Query(net, text, address.value);
    bestAsn := "";
    var bestSpecificity: int := -1;
    var keys := registry.Keys;
    ghost var done: set<string> := {};
    hide Answers, Leads, Met, MetIn, Contains, Less, HexBits, TrimSpace, HasPrefix, ToLower, Winner;
    assert Leads(Met(q, registry, done), bestAsn, bestSpecificity) by { StartsEmpty(q, registry); }
    while keys != {}
      invariant keys !! done && keys + done == registry.Keys
      invariant Leads(Met(q, registry, done), bestAsn, bestSpecificity)
      decreases |keys|
    {
      var asn :| asn in keys;
      ghost var met := Met(q, registry, done);
      var prefixes := registry[asn];
      MetInNothing(q, asn, prefixes, met);
      for i := 0 to |prefixes|
        invariant Leads(met + MetIn(q, asn, prefixes[..i]), bestAsn, bestSpecificity)
      {
        ghost var seen := met + MetIn(q, asn, prefixes[..i]);
        ghost var asnBefore, specificityBefore := bestAsn, bestSpecificity;
        var prefix := TrimSpace(prefixes[i]);
        if prefix == "" {
        } else if '/' in prefix {
          var network := net.prefix(prefix);
          if network.Some? && Contains(network.value, address.value) &&
             (network.value.bits > bestSpecificity || (network.value.bits == bestSpecificity && Less(asn, bestAsn)))
          {
            bestAsn := asn;
            bestSpecificity := network.value.bits;
          }
        } else if HasPrefix(text, prefix) {
          var specificity := PrefixHexBits(prefix);
          if specificity > bestSpecificity || (specificity == bestSpecificity && Less(asn, bestAsn)) {
            bestAsn := asn;
            bestSpecificity := specificity;
          }
        }
        LineStep(q, asn, prefixes, i, met, asnBefore, specificityBefore);
      }
      assert prefixes[..|prefixes|] == prefixes;
      MetStep(q, registry, done, asn);
      keys := keys - {asn};
      done := done + {asn};
    }
    assert done == registry.Keys;
    LeadsAnswers(q, registry, bestAsn, bestSpecificity);
  }

  lemma StartsEmpty(q: Query, registry: Registry)
    ensures Leads(Met(q, registry, {}), "", -1)
  {
    assert Met(q, registry, {}) == iset{};
  }

  lemma MetInNothing(q: Query, asn: string, lines: seq<string>, met: iset<(string, nat)>)
    ensures met + MetIn(q, asn, lines[..0]) == met
  {
    assert MetIn(q, asn, lines[..0]) == iset{};
  }

  lemma MetStep(q: Query, registry: Registry, done: set<string>, asn: string)
    requires asn in registry
    ensures Met(q, registry, done + {asn}) == Met(q, registry, done) + MetIn(q, asn, registry[asn])
  {
    hide Covered;
  }

  /** Trying one more line keeps the leader ahead of everything met. */
  lemma LineStep(q: Query, asn: string, lines: seq<string>, i: nat, met: iset<(string, nat)>,
                 bestAsn: string, best: int)
    requires i < |lines| && Leads(met + MetIn(q, asn, lines[..i]), bestAsn, best)
    ensures var score := Score(q, lines[i]);
            var wins := score.Some? && (score.value > best || (score.value == best && Less(asn, bestAsn)));
            Leads(met + MetIn(q, asn, lines[..i+1]), if wins then asn else bestAsn,
                  if wins then score.value else best)
  {
    hide Score, Leads, MetIn;
    var score := Score(q, lines[i]);
    MetInStep(q, asn, lines, i);
    var seen := met + MetIn(q, asn, lines[..i]);
    if score.Some? {
      LeadsStep(seen, bestAsn, best, asn, score.value);
      assert met + MetIn(q, asn, lines[..i+1]) == seen + iset{(asn, score.value)};
    } else {
      assert met + MetIn(q, asn, lines[..i+1]) == seen;
    }
  }

  // ----- what the answer means -----

  /** The table's iteration order cannot show: a table has one answer. */
  lemma AnswerUnique(q: Query, registry: Registry, a: string, b: string)
    requires Answers(q, registry, a) && Answers(q, registry, b)
    ensures a == b
  {
    hide Candidate;
    if exists x, s: nat :: Candidate(q, registry, x, s) {
      var s :| Winner(q, registry, a, s);
      var t :| Winner(q, registry, b, t);
      assert Candidate(q, registry, a, s) && Candidate(q, registry, b, t);
      LessTotal(a, b);
    }
  }

  /** The line names a network whose block holds the address, or begins its text. */
  ghost predicate Hits(q: Query, line: string) {
    var prefix := TrimSpace(line);
    && prefix != ""
    && if '/' in prefix then q.net.prefix(prefix).Some? && Covers(q.net.prefix(prefix).value, q.addr)
       else prefix <= q.text
  }

  lemma ScoreHits(q: Query, line: string)
    ensures Score(q, line).Some? <==> Hits(q, line)
  {
    var prefix := TrimSpace(line);
    hide TrimSpace, Contains, Covers, HexBits;
    if '/' in prefix && q.net.prefix(prefix).Some? {
      ContainsExactly(q.net.prefix(prefix).value, q.addr);
    }
  }

  /** No answer exactly when no line of the table hits the address, provided "" names no system. */
  lemma EmptyExactly(q: Query, registry: Registry, asn: string)
    requires Answers(q, registry, asn) && "" !in registry
    ensures asn == "" <==> forall a, i :: a in registry && 0 <= i < |registry[a]| ==> !Hits(q, registry[a][i])
  {
    hide Score, Hits, LessEq;
    forall a, i | a in registry && 0 <= i < |registry[a]|
      ensures Hits(q, registry[a][i]) <==> Score(q, registry[a][i]).Some?
      ensures Score(q, registry[a][i]).Some? ==> Candidate(q, registry, a, Score(q, registry[a][i]).value)
    {
      ScoreHits(q, registry[a][i]);
    }
    if exists a, s: nat :: Candidate(q, registry, a, s) {
      var s :| Winner(q, registry, asn, s);
      assert Candidate(q, registry, asn, s);
    }
  }

  /** A fragment counts four bits for each lower-case hexadecimal digit, wherever it stands. */
  lemma FragmentBits(a: string, b: string)
    ensures HexBits(a + b) == HexBits(a) + HexBits(b)
    ensures |a| == 1 ==> HexBits(a) == if a[0] in "0123456789abcdef" then 4 else 0
  {
    FilterConcat(a, b, IsHexDigit);
    if |a| == 1 {
      assert a[..0] == [];
      HexDigits(a[0]);
    }
  }

  lemma HexDigits(c: char)
    ensures IsHexDigit(c) <==> c in "0123456789abcdef"
  {
    var digits := "0123456789abcdef";
    if '0' <= c <= '9' {
      assert digits[c as int - '0' as int] == c;
    } else if 'a' <= c <= 'f' {
      assert digits[c as int - 'a' as int + 10] == c;
    }
  }

  /** Tables with the same candidates give the same answers. */
  lemma SameCandidates(q: Query, r: Registry, p: Query, t: Registry, asn: string)
    requires forall a, s: nat :: Candidate(q, r, a, s) <==> Candidate(p, t, a, s)
    ensures Answers(q, r, asn) <==> Answers(p, t, asn)
  {
    hide Candidate, LessEq;
    forall s: nat ensures Winner(q, r, asn, s) <==> Winner(p, t, asn, s) {
    }
  }

  // ----- tables of networks -----

  /** Every line that is not blank is written as a network. */
  predicate CidrOnly(registry: Registry) {
    forall asn, i :: asn in registry && 0 <= i < |registry[asn]| ==>
      var prefix := TrimSpace(registry[asn][i]);
      prefix == "" || '/' in prefix
  }

  /** No fragment of the table begins the text: only networks decide. */
  ghost predicate NetworksDecide(q: Query, registry: Registry) {
    forall asn, i :: asn in registry && 0 <= i < |registry[asn]| ==> FromNetwork(q, registry[asn][i])
  }

  ghost predicate FromNetwork(q: Query, line: string) {
    var prefix := TrimSpace(line);
    prefix == "" || '/' in prefix || !(prefix <= q.text)
  }

  lemma CidrDecides(q: Query, registry: Registry)
    requires CidrOnly(registry)
    ensures NetworksDecide(q, registry)
  {
    hide TrimSpace;
  }

  /** The table lists this network under this system. */
  ghost predicate Listed(net: NetIP, registry: Registry, asn: string, n: Network) {
    asn in registry &&
    exists i :: 0 <= i < |registry[asn]| && TrimSpace(registry[asn][i]) != ""
      && '/' in TrimSpace(registry[asn][i]) && net.prefix(TrimSpace(registry[asn][i])) == Some(n)
  }

  lemma CandidateListed(q: Query, registry: Registry, asn: string, s: nat) returns (n: Network)
    requires NetworksDecide(q, registry) && Candidate(q, registry, asn, s)
    ensures Listed(q.net, registry, asn, n) && Covers(n, q.addr) && n.bits == s
  {
    hide Covers, Contains, TrimSpace;
    var lines := registry[asn];
    var i :| 0 <= i < |lines| && Score(q, lines[i]) == Some(s);
    n := q.net.prefix(TrimSpace(lines[i])).value;
    ContainsExactly(n, q.addr);
  }

  lemma ListedCandidate(q: Query, registry: Registry, asn: string, n: Network)
    requires Listed(q.net, registry, asn, n) && Covers(n, q.addr)
    ensures Candidate(q, registry, asn, n.bits)
  {
    hide Covers, Contains;
    ContainsExactly(n, q.addr);
    var lines := registry[asn];
    var i :| 0 <= i < |lines| && TrimSpace(lines[i]) != "" && '/' in TrimSpace(lines[i])
             && q.net.prefix(TrimSpace(lines[i])) == Some(n);
    assert Score(q, lines[i]) == Some(n.bits);
  }

  lemma FewerBits(a: Addr, bits: nat, fewer: nat)
    requires fewer <= bits <= Width(a.v6)
    ensures Leading(a, fewer) == ShiftRight(Leading(a, bits), bits - fewer)
  {
    ShiftTwice(a.value, Width(a.v6) - bits, bits - fewer);
  }

  /** Of two networks holding one address, the longer prefix is the smaller network. */
  lemma LongerIsInside(long: Network, short: Network, a: Addr, b: Addr)
    requires Covers(long, a) && Covers(short, a) && short.bits <= long.bits
    requires Covers(long, b)
    ensures Covers(short, b)
  {
    hide Leading, Covers;
    ContainsExactly(long, a);
    ContainsExactly(short, a);
    ContainsExactly(long, b);
    ContainsExactly(short, b);
    FewerBits(a, long.bits, short.bits);
    FewerBits(b, long.bits, short.bits);
  }

  /** Longest-prefix match: the answer's network lies inside every listed network that holds the address. */
  lemma LongestPrefixMatch(q: Query, registry: Registry, asn: string) returns (n: Network)
    requires NetworksDecide(q, registry) && Answers(q, registry, asn)
    requires exists a, s: nat :: Candidate(q, registry, a, s)
    ensures Listed(q.net, registry, asn, n) && Covers(n, q.addr)
    ensures forall a, m :: Listed(q.net, registry, a, m) && Covers(m, q.addr) ==>
              && m.bits <= n.bits
              && (forall b :: Covers(n, b) ==> Covers(m, b))
              && (m.bits == n.bits ==> LessEq(asn, a))
  {
    hide Candidate, Covers, Listed, NetworksDecide, LessEq;
    var s :| Winner(q, registry, asn, s);
    n := CandidateListed(q, registry, asn, s);
    forall a, m | Listed(q.net, registry, a, m) && Covers(m, q.addr)
      ensures && m.bits <= n.bits
              && (forall b :: Covers(n, b) ==> Covers(m, b))
              && (m.bits == n.bits ==> LessEq(asn, a))
    {
      ListedCandidate(q, registry, a, m);
      forall b | Covers(n, b) ensures Covers(m, b) {
        LongerIsInside(n, m, q.addr, b);
      }
    }
  }

  /** Two systems tie only by listing one and the same network. */
  lemma TiesShareTheNetwork(q: Query, registry: Registry, a: string, b: string, s: nat)
    requires NetworksDecide(q, registry) && Candidate(q, registry, a, s) && Candidate(q, registry, b, s)
    ensures exists n, m :: Listed(q.net, registry, a, n) && Listed(q.net, registry, b, m)
              && n.bits == m.bits == s && forall x :: Covers(n, x) <==> Covers(m, x)
  {
    hide Candidate, Covers, Listed, NetworksDecide;
    var n := CandidateListed(q, registry, a, s);
    var m := CandidateListed(q, registry, b, s);
    forall x ensures Covers(n, x) <==> Covers(m, x) {
      if Covers(n, x) {
        LongerIsInside(n, m, q.addr, x);
      }
      if Covers(m, x) {
        LongerIsInside(m, n, q.addr, x);
      }
    }
  }

  /** Where networks decide, every spelling of an address gets the same answer. */
  lemma NetworksIgnoreSpelling(net: NetIP, registry: Registry, addr: Addr, one: string, other: string, asn: string)
    requires NetworksDecide(Query(net, one, addr), registry) && NetworksDecide(Query(net, other, addr), registry)
    ensures Answers(Query(net, one, addr), registry, asn) <==> Answers(Query(net, other, addr), registry, asn)
  {
    var q, p := Query(net, one, addr), Query(net, other, addr);
    hide Candidate, Covers, Listed, NetworksDecide, Answers;
    forall a, s ensures Candidate(q, registry, a, s) <==> Candidate(p, registry, a, s) {
      if Candidate(q, registry, a, s) {
        var n := CandidateListed(q, registry, a, s);
        ListedCandidate(p, registry, a, n);
      }
      if Candidate(p, registry, a, s) {
        var n := CandidateListed(p, registry, a, s);
        ListedCandidate(q, registry, a, n);
      }
    }
    SameCandidates(q, registry, p, registry, asn);
  }

  /** Of several candidates one wins. */
  lemma {:induction false} SomeWinner(q: Query, registry: Registry, keys: set<string>)
    returns (seen: iset<(string, nat)>, asn: string, specificity: int)
    requires keys <= registry.Keys
    ensures seen == Met(q, registry, keys) && Leads(seen, asn, specificity)
    decreases |keys|
  {
    hide Leads, Met, MetIn;
    if keys == {} {
      StartsEmpty(q, registry);
      seen, asn, specificity := Met(q, registry, {}), "", -1;
    } else {
      var key :| key in keys;
      var met;
      met, asn, specificity := SomeWinner(q, registry, keys - {key});
      MetStep(q, registry, keys - {key}, key);
      assert keys - {key} + {key} == keys;
      MetInNothing(q, key, registry[key], met);
      asn, specificity := LinesLead(q, key, registry[key], |registry[key]|, met, asn, specificity);
      assert registry[key][..|registry[key]|] == registry[key];
      seen := met + MetIn(q, key, registry[key]);
    }
  }

  lemma {:induction false} LinesLead(q: Query, key: string, lines: seq<string>, i: nat, met: iset<(string, nat)>,
                                     start: string, best: int)
    returns (asn: string, specificity: int)
    requires i <= |lines| && Leads(met, start, best)
    ensures Leads(met + MetIn(q, key, lines[..i]), asn, specificity)
    decreases i
  {
    hide Leads, Score, Less, MetIn;
    if i == 0 {
      MetInNothing(q, key, lines, met);
      asn, specificity := start, best;
    } else {
      asn, specificity := LinesLead(q, key, lines, i - 1, met, start, best);
      LineStep(q, key, lines, i - 1, met, asn, specificity);
      var score := Score(q, lines[i-1]);
      var wins := score.Some? && (score.value > specificity || (score.value == specificity && Less(key, asn)));
      asn, specificity := if wins then key else asn, if wins then score.value else specificity;
    }
  }

  /** Every table has an answer to every question. */
  lemma AnswerExists(q: Query, registry: Registry) returns (asn: string)
    ensures Answers(q, registry, asn)
  {
    hide Leads, Met, Answers;
    var seen, a, specificity := SomeWinner(q, registry, registry.Keys);
    asn := a;
    LeadsAnswers(q, registry, asn, specificity);
  }

  // ----- spelling -----

  /** Two lower-case texts of one IPv6 address; lookups lower their text. */
  ghost predicate Spellings(net: NetIP, addr: Addr, one: string, other: string) {
    IsLower(one) && IsLower(other) && net.addr(one) == net.addr(other) == Some(addr) && addr.v6
  }

  /** All spellings of an address get the same answer. */
  ghost predicate IgnoresSpelling(net: NetIP, registry: Registry) {
    forall addr: Addr, one: string, other: string, asn: string ::
      Spellings(net, addr, one, other) && Answers(Query(net, one, addr), registry, asn) ==>
        Answers(Query(net, other, addr), registry, asn)
  }

  /** Either all spellings of an address begin with the fragment or none does. */
  ghost predicate Stable(net: NetIP, fragment: string) {
    forall addr: Addr, one: string, other: string ::
      Spellings(net, addr, one, other) ==> (fragment <= one <==> fragment <= other)
  }

  /** The line is a fragment that a lower-case text can begin with. */
  predicate Live(line: string) {
    TrimSpace(line) != "" && '/' !in TrimSpace(line) && IsLower(TrimSpace(line))
  }

  lemma PrefixIsLower(text: string, prefix: string)
    requires IsLower(text) && prefix <= text
    ensures IsLower(prefix)
  {
    forall i | 0 <= i < |prefix| ensures ToLower(prefix)[i] == prefix[i] {
      assert ToLower(text)[i] == text[i];
    }
  }

  lemma StableScore(net: NetIP, addr: Addr, one: string, other: string, line: string)
    requires Spellings(net, addr, one, other) && (Live(line) ==> Stable(net, TrimSpace(line)))
    ensures Score(Query(net, one, addr), line) == Score(Query(net, other, addr), line)
  {
    hide TrimSpace, IsLower, Contains, HexBits;
    var prefix := TrimSpace(line);
    if prefix <= one {
      PrefixIsLower(one, prefix);
    }
    if prefix <= other {
      PrefixIsLower(other, prefix);
    }
  }

  /** With one parser fixed: a table whose live fragments are all stable ignores spelling. */
  lemma StableTableIgnoresSpelling(net: NetIP, registry: Registry)
    requires forall asn, i :: asn in registry && 0 <= i < |registry[asn]| && Live(registry[asn][i]) ==>
               Stable(net, TrimSpace(registry[asn][i]))
    ensures IgnoresSpelling(net, registry)
  {
    hide Score, Spellings, Stable, Answers, Live, TrimSpace;
    forall addr: Addr, one: string, other: string, asn: string |
      Spellings(net, addr, one, other) && Answers(Query(net, one, addr), registry, asn)
      ensures Answers(Query(net, other, addr), registry, asn)
    {
      var q, p := Query(net, one, addr), Query(net, other, addr);
      forall a, s: nat ensures Candidate(q, registry, a, s) <==> Candidate(p, registry, a, s) {
        if a in registry {
          forall i | 0 <= i < |registry[a]| ensures Score(q, registry[a][i]) == Score(p, registry[a][i]) {
            StableScore(net, addr, one, other, registry[a][i]);
          }
        }
      }
      SameCandidates(q, registry, p, registry, asn);
    }
  }

  lemma SingleLine(q: Query, asn: string, line: string)
    ensures Score(q, line).Some? ==> Answers(q, map[asn := [line]], asn)
    ensures Score(q, line).None? ==> Answers(q, map[asn := [line]], "")
  {
    hide Score, Less;
    var registry: Registry := map[asn := [line]];
    assert registry[asn] == [line] && [line][0] == line;
    if Score(q, line).Some? {
      assert Covered(q, registry[asn], Score(q, line).value);
      assert Winner(q, registry, asn, Score(q, line).value);
    }
  }

  lemma SpellingsSymmetric(net: NetIP, addr: Addr, one: string, other: string)
    requires Spellings(net, addr, one, other)
    ensures Spellings(net, addr, other, one)
  {
  }

  /** A text that begins with the fragment gets its system, one that does not gets nothing. */
  lemma FragmentAnswers(q: Query, asn: string, line: string)
    requires TrimSpace(line) != "" && '/' !in TrimSpace(line)
    ensures Answers(q, map[asn := [line]], if TrimSpace(line) <= q.text then asn else "")
  {
    SingleLine(q, asn, line);
    hide TrimSpace, HexBits, Contains, Answers;
  }

  lemma FragmentHeld(net: NetIP, asn: string, line: string, addr: Addr, one: string, other: string)
    requires asn != "" && Live(line) && IgnoresSpelling(net, map[asn := [line]])
    requires Spellings(net, addr, one, other) && TrimSpace(line) <= one
    ensures TrimSpace(line) <= other
  {
    var registry: Registry := map[asn := [line]];
    FragmentAnswers(Query(net, one, addr), asn, line);
    FragmentAnswers(Query(net, other, addr), asn, line);
    hide TrimSpace, IsLower, Answers, Spellings;
    assert Answers(Query(net, other, addr), registry, asn);
    if !(TrimSpace(line) <= other) {
      AnswerUnique(Query(net, other, addr), registry, asn, "");
    }
  }

  /** The table of one lower-case fragment ignores spelling exactly when the fragment is stable. */
  lemma SpellingExactly(net: NetIP, asn: string, line: string)
    requires asn != "" && Live(line)
    ensures IgnoresSpelling(net, map[asn := [line]]) <==> Stable(net, TrimSpace(line))
  {
    var registry: Registry := map[asn := [line]];
    hide TrimSpace, IsLower, Answers, Spellings, IgnoresSpelling;
    if Stable(net, TrimSpace(line)) {
      StableTableIgnoresSpelling(net, registry);
    }
    if IgnoresSpelling(net, registry) {
      forall addr: Addr, one: string, other: string | Spellings(net, addr, one, other)
        ensures TrimSpace(line) <= one <==> TrimSpace(line) <= other
      {
        SpellingsSymmetric(net, addr, one, other);
        if TrimSpace(line) <= one {
          FragmentHeld(net, asn, line, addr, one, other);
        }
        if TrimSpace(line) <= other {
          FragmentHeld(net, asn, line, addr, other, one);
        }
      }
    }
  }

  const FRAGMENT := "2001:7f8:43"
  const SHORT_TEXT := "2001:7f8:43::1"
  const LONG_TEXT := "2001:07f8:43::1"

  lemma FragmentText()
    ensures Live(FRAGMENT) && TrimSpace(FRAGMENT) == FRAGMENT
    ensures IsLower(SHORT_TEXT) && IsLower(LONG_TEXT)
    ensures FRAGMENT <= SHORT_TEXT && !(FRAGMENT <= LONG_TEXT)
  {
    var f := FRAGMENT;
    assert f[|f|-1] == '3' && !IsSpace(f[0]) && !IsSpace(f[|f|-1]);
    assert FRAGMENT[5] == '7' && LONG_TEXT[5] == '0';
  }

  /** A fragment of the tables that no parser reading both texts alike makes stable: one text finds AS58453, the other
      nothing. */
  lemma FragmentSeesSpelling(net: NetIP, addr: Addr)
    requires net.addr(SHORT_TEXT) == net.addr(LONG_TEXT) == Some(addr) && addr.v6
    ensures Answers(Query(net, SHORT_TEXT, addr), map["AS58453" := [FRAGMENT]], "AS58453")
    ensures Answers(Query(net, LONG_TEXT, addr), map["AS58453" := [FRAGMENT]], "")
    ensures !Stable(net, FRAGMENT) && !IgnoresSpelling(net, map["AS58453" := [FRAGMENT]])
  {
    var asn := "AS58453";
    assert asn != "";
    FragmentText();
    FragmentAnswers(Query(net, SHORT_TEXT, addr), asn, FRAGMENT);
    FragmentAnswers(Query(net, LONG_TEXT, addr), asn, FRAGMENT);
    assert Spellings(net, addr, SHORT_TEXT, LONG_TEXT);
    hide TrimSpace, IsLower, Answers, Live, IgnoresSpelling, Spellings;
    SpellingExactly(net, asn, FRAGMENT);
  }

  /** Such parsers exist, and need not accept anything else. */
  lemma SomeParserSeesSpelling() returns (net: NetIP, addr: Addr)
    ensures net.addr("") == None && addr.v6 && net.addr(SHORT_TEXT) == net.addr(LONG_TEXT) == Some(addr)
    ensures !IgnoresSpelling(net, map["AS58453" := [FRAGMENT]])
  {
    addr := Addr(true, false, 0x2001_07f8_0043_0000_0000_0000_0000_0001);
    var there := addr;
    net := NetIP((s: string) => if s == SHORT_TEXT || s == LONG_TEXT then Some(there) else None, (s: string) => None);
    hide IgnoresSpelling, Answers;
    FragmentSeesSpelling(net, addr);
  }
}
