/** One target of a route report: attempts with fallback, their collection, and the report drawn from them. */
module RouteTarget {
  import opened Contexts
  import opened Lists
  import opened Tracing
  import opened Hops
  import opened Merging
  import opened Classification
  import opened RouteReport
  import opened Text
  import Latency

  // ----- one attempt -----

  /** What one attempt produced; `failed` is an error, a recovered panic included. */
  datatype Attempt = Attempt(hops: seq<Hop>, target: IP, fallback: bool, failed: bool)

  predicate Succeeded(a: Attempt) {
    !a.failed && a.hops != []
  }

  /** What tracing an address gave. */
  datatype Traced = Traced(hops: seq<Hop>, failed: bool)

  predicate Good(t: Traced) {
    !t.failed && t.hops != []
  }

  /** The alternatives worth trying: those that are addresses, and not the primary one. */
  function Candidates(primary: IP, alternatives: seq<Option<IP>>): seq<IP> {
    if alternatives == [] then []
    else
      var front, last := Candidates(primary, alternatives[..|alternatives|-1]), alternatives[|alternatives|-1];
      if last.None? || last.value == primary then front else front + [last.value]
  }

  /** The first good trace among the addresses, the k-th of them, counting traces as they are made. */
  ghost predicate FirstGood(trace: (nat, IP) -> Traced, addresses: seq<IP>, k: nat) {
    k < |addresses| && Good(trace(k, addresses[k])) && forall j: nat :: j < k ==> !Good(trace(j, addresses[j]))
  }

  /** The first k traces are made, and none of them is good. */
  ghost predicate NoneGood(trace: (nat, IP) -> Traced, addresses: seq<IP>, k: nat) {
    k <= |addresses| && forall j: nat :: j < k ==> !Good(trace(j, addresses[j]))
  }

  /** The primary address first, then the alternatives in order, until a trace is good, or an alternative has failed
      and the context is done. */
  method ExecuteRouteAttempt(primary: Option<IP>, alternatives: seq<Option<IP>>, trace: (nat, IP) -> Traced, ctx: Context)
    returns (r: Attempt, interrupted: bool)
    modifies ctx
    ensures primary.None? ==> r.failed && !interrupted
    ensures interrupted ==> r.failed && ctx.err != ContextErr.Open && exists k: nat ::
      k >= 2 && NoneGood(trace, [primary.value] + Candidates(primary.value, alternatives), k)
    ensures !r.failed ==> Succeeded(r) && exists k: nat ::
      && FirstGood(trace, [primary.value] + Candidates(primary.value, alternatives), k)
      && r == Attempt(trace(k, r.target).hops, ([primary.value] + Candidates(primary.value, alternatives))[k], k > 0, false)
    ensures r.failed && !interrupted && primary.Some? ==> forall k: nat ::
      !FirstGood(trace, [primary.value] + Candidates(primary.value, alternatives), k)
  {
    hide Candidates;
    CandidatesNone(if primary.Some? then primary.value else V4(0), alternatives);
    interrupted := false;
    var failure := Attempt([], V4(0), false, true);
    if primary.None? {
      return failure, false;
    }
    var first := primary.value;
    ghost var addresses := [first] + Candidates(first, alternatives);
    var traced := trace(0, first);
    if !traced.failed && |traced.hops| > 0 {
      assert FirstGood(trace, addresses, 0);
      return Attempt(traced.hops, first, false, false), false;
    }
    var calls := 1;
    for i := 0 to |alternatives|
      invariant calls == 1 + |Candidates(first, alternatives[..i])| <= |addresses|
      invariant addresses[..calls] == [first] + Candidates(first, alternatives[..i])
      invariant forall j: nat :: j < calls ==> !Good(trace(j, addresses[j]))
    {
      CandidatesStep(first, alternatives, i);
      if alternatives[i].None? || alternatives[i].value == first {
        continue;
      }
      var candidate := alternatives[i].value;
      CandidatesPrefix(first, alternatives, i + 1);
      assert addresses[calls] == candidate;
      traced := trace(calls, candidate);
      if !traced.failed && |traced.hops| > 0 {
        assert FirstGood(trace, addresses, calls);
        return Attempt(traced.hops, candidate, true, false), false;
      }
      calls := calls + 1;
      ctx.Elapse();
      if ctx.err != ContextErr.Open {
        assert NoneGood(trace, addresses, calls);
        return failure, true;
      }
    }
    assert alternatives[..|alternatives|] == alternatives;
    assert addresses[..calls] == addresses;
    return failure, false;
  }

  lemma CandidatesNone(primary: IP, alternatives: seq<Option<IP>>)
    ensures Candidates(primary, alternatives[..0]) == []
  {
  }

  lemma CandidatesStep(primary: IP, alternatives: seq<Option<IP>>, i: nat)
    requires i < |alternatives|
    ensures Candidates(primary, alternatives[..i+1]) == Candidates(primary, alternatives[..i]) +
              (if alternatives[i].None? || alternatives[i].value == primary then [] else [alternatives[i].value])
  {
    assert alternatives[..i+1][..i] == alternatives[..i];
  }

  lemma {:induction false} CandidatesPrefix(primary: IP, alternatives: seq<Option<IP>>, i: nat)
    requires i <= |alternatives|
    ensures Candidates(primary, alternatives[..i]) <= Candidates(primary, alternatives)
  {
    if i < |alternatives| {
      var front := alternatives[..|alternatives|-1];
      CandidatesPrefix(primary, front, i);
      assert front[..i] == alternatives[..i];
    } else {
      assert alternatives[..i] == alternatives;
    }
  }

  /** The candidates are the alternatives that are addresses and not the primary one. */
  lemma {:induction false} CandidatesExactly(primary: IP, alternatives: seq<Option<IP>>)
    ensures forall c :: c in Candidates(primary, alternatives) <==>
              c != primary && exists i :: 0 <= i < |alternatives| && alternatives[i] == Some(c)
  {
    if alternatives != [] {
      var front := alternatives[..|alternatives|-1];
      CandidatesExactly(primary, front);
      assert forall i :: 0 <= i < |front| ==> front[i] == alternatives[i];
    }
  }

  // ----- evidence -----

  /** The ordered ASN evidence of a list of hops; `asnOf` is the lookup of an address. */
  function EvidenceOf(hops: seq<Hop>, asnOf: IP -> string): seq<Evidence> {
    if hops == [] then []
    else
      var h := hops[|hops|-1];
      EvidenceOf(hops[..|hops|-1], asnOf)
      + (if h.nodes == [] then [] else [Evidence(h.distance, HopAsns(h.nodes, asnOf))])
  }

  /** The ASNs of a hop's nodes: known ones, in order, each once. */
  function HopAsns(nodes: seq<Node>, asnOf: IP -> string): (asns: seq<string>)
    ensures Distinct(asns) && "" !in asns
    ensures forall a :: a in asns <==> a != "" && exists i :: 0 <= i < |nodes| && asnOf(nodes[i].ip) == a
  {
    if nodes == [] then []
    else
      var before := HopAsns(nodes[..|nodes|-1], asnOf);
      var asn := asnOf(nodes[|nodes|-1].ip);
      if asn == "" || asn in before then before else before + [asn]
  }

  /** More nodes only add systems at the end, so the systems are in order of first appearance. */
  lemma {:induction false} HopAsnsGrow(nodes: seq<Node>, i: nat, asnOf: IP -> string)
    requires i <= |nodes|
    ensures HopAsns(nodes[..i], asnOf) <= HopAsns(nodes, asnOf)
  {
    if i < |nodes| {
      HopAsnsGrow(nodes[..|nodes|-1], i, asnOf);
      assert nodes[..|nodes|-1][..i] == nodes[..i];
    } else {
      assert nodes[..i] == nodes;
    }
  }

  method RouteEvidenceFromHops(hops: seq<Hop>, asnOf: IP -> string) returns (result: seq<Evidence>)
    ensures result == EvidenceOf(hops, asnOf)
  {
    result := [];
    for i := 0 to |hops|
      invariant result == EvidenceOf(hops[..i], asnOf)
    {
      assert hops[..i+1][..i] == hops[..i];
      var nodes := hops[i].nodes;
      if |nodes| == 0 {
        continue;
      }
      var seen: set<string> := {};
      var asns: seq<string> := [];
      for j := 0 to |nodes|
        invariant asns == HopAsns(nodes[..j], asnOf) && seen == set a | a in asns
      {
        assert nodes[..j+1][..j] == nodes[..j];
        var asn := asnOf(nodes[j].ip);
        if asn == "" || asn in seen {
          continue;
        }
        seen := seen + {asn};
        asns := asns + [asn];
      }
      assert nodes[..|nodes|] == nodes;
      result := result + [Evidence(hops[i].distance, asns)];
    }
    assert hops[..|hops|] == hops;
  }

  predicate Reaches(hops: seq<Hop>, target: IP) {
    exists i, j :: 0 <= i < |hops| && 0 <= j < |hops[i].nodes| && hops[i].nodes[j].ip == target
  }

  function PathClass(carrier: string, asnOf: IP -> string, hops: seq<Hop>): Class {
    Classify(carrier, EvidenceOf(hops, asnOf))
  }

  /** Evidence is drawn from the hops in their order. */
  lemma {:induction false} EvidenceConcat(hops: seq<Hop>, more: seq<Hop>, asnOf: IP -> string)
    ensures EvidenceOf(hops + more, asnOf) == EvidenceOf(hops, asnOf) + EvidenceOf(more, asnOf)
  {
    hide HopAsns;
    if more == [] {
      assert hops + more == hops;
    } else {
      EvidenceConcat(hops, more[..|more|-1], asnOf);
      assert (hops + more)[..|hops + more|-1] == hops + more[..|more|-1];
    }
  }

  /** This evidence is that of a hop with nodes: its distance and the systems known there. */
  ghost predicate EntryOf(x: Evidence, hops: seq<Hop>, asnOf: IP -> string) {
    exists h :: h in hops && h.nodes != [] && x.distance == h.distance && x.asns == HopAsns(h.nodes, asnOf)
  }

  lemma EntryStep(x: Evidence, front: seq<Hop>, h: Hop, asnOf: IP -> string)
    ensures EntryOf(x, front + [h], asnOf) <==>
            EntryOf(x, front, asnOf) || (h.nodes != [] && x == Evidence(h.distance, HopAsns(h.nodes, asnOf)))
  {
    hide HopAsns;
    assert forall g :: g in front + [h] <==> g in front || g == h;
  }

  /** One more hop. */
  lemma FullEvidenceStep(hops: seq<Hop>, h: Hop, asnOf: IP -> string)
    ensures var x := Evidence(h.distance, HopAsns(h.nodes, asnOf));
            && FullEvidence(hops + [h], asnOf) == FullEvidence(hops, asnOf) + [x]
            && EvidenceOf(hops + [h], asnOf) == EvidenceOf(hops, asnOf) + (if h.nodes == [] then [] else [x])
            && (h.nodes == [] ==> x.asns == [])
  {
    assert (hops + [h])[..|hops|] == hops;
  }

  /** The evidence consists of one entry for every hop that has a node, with the known systems of that hop. */
  lemma {:induction false} EvidenceMembers(hops: seq<Hop>, asnOf: IP -> string)
    ensures forall x :: x in EvidenceOf(hops, asnOf) <==> EntryOf(x, hops, asnOf)
  {
    if hops != [] {
      var front, last := hops[..|hops|-1], hops[|hops|-1];
      assert hops == front + [last];
      EvidenceMembers(front, asnOf);
      FullEvidenceStep(front, last, asnOf);
      hide EvidenceOf, EntryOf, HopAsns, FullEvidence;
      forall x ensures x in EvidenceOf(hops, asnOf) <==> EntryOf(x, hops, asnOf) {
        EntryStep(x, front, last, asnOf);
      }
    }
  }

  lemma EntryBefore(x: Evidence, hops: seq<Hop>, asnOf: IP -> string)
    requires hops != [] && Increasing(hops) && EntryOf(x, hops[..|hops|-1], asnOf)
    ensures x.distance < hops[|hops|-1].distance
  {
    var front := hops[..|hops|-1];
    var h :| h in front && h.nodes != [] && x.distance == h.distance && x.asns == HopAsns(h.nodes, asnOf);
    var k :| 0 <= k < |front| && front[k] == h;
    assert hops[k] == h;
  }

  /** For hops at increasing distances the evidence is at increasing distances. */
  lemma {:induction false} EvidenceIncreases(hops: seq<Hop>, asnOf: IP -> string)
    requires Increasing(hops)
    ensures var e := EvidenceOf(hops, asnOf); forall i, j :: 0 <= i < j < |e| ==> e[i].distance < e[j].distance
  {
    if hops != [] {
      var front, last := hops[..|hops|-1], hops[|hops|-1];
      EvidenceIncreases(front, asnOf);
      EvidenceMembers(front, asnOf);
      assert hops == front + [last];
      FullEvidenceStep(front, last, asnOf);
      hide EvidenceOf, HopAsns, FullEvidence, EntryOf;
      var e := EvidenceOf(front, asnOf);
      forall i | 0 <= i < |e| ensures e[i].distance < last.distance {
        assert e[i] in e;
        EntryBefore(e[i], hops, asnOf);
      }
    }
  }

  /** Hop i of the path has a node of this system, as the lookup names it. */
  ghost predicate PathShows(path: seq<Hop>, asnOf: IP -> string, i: int, asn: string) {
    && 0 <= i < |path|
    && exists j :: 0 <= j < |path[i].nodes| && EqualFold(TrimSpace(asnOf(path[i].nodes[j].ip)), asn)
  }

  /** One entry for every hop, those without nodes included. */
  ghost function FullEvidence(hops: seq<Hop>, asnOf: IP -> string): (e: seq<Evidence>) {
    Map(hops, (h: Hop) => Evidence(h.distance, HopAsns(h.nodes, asnOf)))
  }

  lemma RelevantStep(carrier: string, hops: seq<Evidence>, x: Evidence)
    ensures RelevantHops(carrier, hops + [x]) == RelevantHops(carrier, hops) + (if Relevant(carrier, x) then [x] else [])
  {
    hide Relevant;
    assert (hops + [x])[..|hops|] == hops;
  }

  /** The entries without systems do not matter, so a path can be classified hop by hop. */
  lemma {:induction false} FullEvidenceSame(carrier: string, hops: seq<Hop>, asnOf: IP -> string)
    ensures RelevantHops(carrier, EvidenceOf(hops, asnOf)) == RelevantHops(carrier, FullEvidence(hops, asnOf))
  {
    if hops != [] {
      var front, last := hops[..|hops|-1], hops[|hops|-1];
      assert hops == front + [last];
      FullEvidenceSame(carrier, front, asnOf);
      FullEvidenceStep(front, last, asnOf);
      var x, e := Evidence(last.distance, HopAsns(last.nodes, asnOf)), EvidenceOf(front, asnOf);
      assert x.asns == [] ==> !Relevant(carrier, x);
      hide HopAsns, Relevant, FullEvidence, EvidenceOf, RelevantHops;
      RelevantStep(carrier, e, x);
      RelevantStep(carrier, FullEvidence(front, asnOf), x);
      assert e + [] == e;
    }
  }

  lemma FullEvidenceShows(hops: seq<Hop>, asnOf: IP -> string, i: int, asn: string)
    requires asn != ""
    ensures ShowsAt(FullEvidence(hops, asnOf), i, asn) <==> PathShows(hops, asnOf, i, asn)
  {
    assert TrimSpace("") == "" && !EqualFold("", asn);
    hide TrimSpace, EqualFold, HopAsns;
    if 0 <= i < |hops| {
      var nodes := hops[i].nodes;
      var asns := HopAsns(nodes, asnOf);
      assert FullEvidence(hops, asnOf)[i].asns == asns;
      if ShowsAt(FullEvidence(hops, asnOf), i, asn) {
        var k :| 0 <= k < |asns| && EqualFold(TrimSpace(asns[k]), asn);
        assert asns[k] in asns;
      }
      if PathShows(hops, asnOf, i, asn) {
        var j :| 0 <= j < |nodes| && EqualFold(TrimSpace(asnOf(nodes[j].ip)), asn);
        assert asnOf(nodes[j].ip) in asns;
      }
    }
  }

  lemma PathAsEvidence(carrier: string, hops: seq<Hop>, asnOf: IP -> string)
    ensures PathClass(carrier, asnOf, hops) == Classify(carrier, FullEvidence(hops, asnOf))
    ensures forall i, asn :: asn != "" ==> (ShowsAt(FullEvidence(hops, asnOf), i, asn) <==> PathShows(hops, asnOf, i, asn))
  {
    FullEvidenceSame(carrier, hops, asnOf);
    IrrelevantHopsIgnored(carrier, EvidenceOf(hops, asnOf), FullEvidence(hops, asnOf));
    forall i, asn | asn != "" ensures ShowsAt(FullEvidence(hops, asnOf), i, asn) <==> PathShows(hops, asnOf, i, asn) {
      FullEvidenceShows(hops, asnOf, i, asn);
    }
  }

  /** A path is CN2 GIA exactly when two of its hops have a node in AS4809, at most one hop has a node in AS4134, and
      before such a hop comes one of AS4809. */
  lemma PathGiaExactly(asnOf: IP -> string, path: seq<Hop>)
    ensures PathClass("CT", asnOf, path).code == "ct_cn2_gia" <==>
            && (exists i, j :: i < j && PathShows(path, asnOf, i, "AS4809") && PathShows(path, asnOf, j, "AS4809"))
            && (forall i, j :: PathShows(path, asnOf, i, "AS4134") && PathShows(path, asnOf, j, "AS4134") ==> i == j)
            && (forall j :: PathShows(path, asnOf, j, "AS4134") ==>
                  exists i :: i < j && PathShows(path, asnOf, i, "AS4809"))
  {
    PathAsEvidence("CT", path, asnOf);
    hide PathShows, FullEvidence, Classify, PathClass;
    GiaExactly(FullEvidence(path, asnOf));
  }

  /** The same for the other two carriers: the premium system has a node on the path, and no hop of the ordinary one
      comes before the first of it. */
  lemma PathPremiumExactly(carrier: string, asnOf: IP -> string, path: seq<Hop>)
    requires carrier == "CU" || carrier == "CM"
    ensures var (premium, plain, code) := if carrier == "CU" then ("AS9929", "AS4837", "cu_9929")
                                          else ("AS58807", "AS58453", "cm_cmin2");
            PathClass(carrier, asnOf, path).code == code <==>
            && (exists i :: PathShows(path, asnOf, i, premium))
            && (forall j :: PathShows(path, asnOf, j, plain) ==> exists i :: i <= j && PathShows(path, asnOf, i, premium))
  {
    PathAsEvidence(carrier, path, asnOf);
    hide PathShows, FullEvidence, Classify, PathClass;
    PremiumExactly(FullEvidence(path, asnOf), carrier);
  }

  function Paths(successful: seq<Attempt>): (paths: seq<seq<Hop>>)
    ensures |paths| == |successful| && forall i :: 0 <= i < |paths| ==> paths[i] == successful[i].hops
  {
    if successful == [] then []
    else Paths(successful[..|successful|-1]) + [successful[|successful|-1].hops]
  }

  function PathClasses(carrier: string, asnOf: IP -> string, paths: seq<seq<Hop>>): (classes: seq<Class>)
    ensures |classes| == |paths|
    ensures forall i :: 0 <= i < |paths| ==> classes[i] == PathClass(carrier, asnOf, paths[i])
  {
    seq(|paths|, i requires 0 <= i < |paths| => PathClass(carrier, asnOf, paths[i]))
  }

  /** The classes that are combined: one for each path, and one for the merged path. */
  function AllClasses(carrier: string, asnOf: IP -> string, paths: seq<seq<Hop>>, merged: seq<Hop>): (c: seq<Class>)
    ensures |c| == |paths| + 1 && c[|paths|] == PathClass(carrier, asnOf, merged)
    ensures forall i :: 0 <= i < |paths| ==> c[i] == PathClass(carrier, asnOf, paths[i])
  {
    PathClasses(carrier, asnOf, paths) + [PathClass(carrier, asnOf, merged)]
  }

  /** If all successful attempts saw the same path, the report's class is the class of that path. */
  lemma EqualAttemptsClass(carrier: string, asnOf: IP -> string, paths: seq<seq<Hop>>, merged: seq<Hop>, path: seq<Hop>)
    requires paths != [] && (forall p :: p in paths ==> p == path) && Merged(paths, merged)
    ensures merged == path
    ensures Combine(carrier, AllClasses(carrier, asnOf, paths, merged)) == PathClass(carrier, asnOf, path)
  {
    MergeOfEqual(paths, merged, path);
    var values, c := AllClasses(carrier, asnOf, paths, merged), PathClass(carrier, asnOf, path);
    forall v | v in values ensures v == c {
      var i :| 0 <= i < |values| && values[i] == v;
      if i < |paths| { assert paths[i] in paths; }
    }
    CombineOfEqual(carrier, values, c);
  }

  /** The report claims rank 4 or more exactly when some path or the merged path
      does, and every conclusive one among them has the same code. */
  lemma HighRankAgreement(carrier: string, asnOf: IP -> string, paths: seq<seq<Hop>>, merged: seq<Hop>)
    ensures var r := Combine(carrier, AllClasses(carrier, asnOf, paths, merged));
            && (r.rank >= 4 <==>
                 && (exists p :: p in paths + [merged] && PathClass(carrier, asnOf, p).rank >= 4)
                 && (forall p, q :: p in paths + [merged] && q in paths + [merged]
                                    && Conclusive(PathClass(carrier, asnOf, p)) && Conclusive(PathClass(carrier, asnOf, q))
                                    ==> PathClass(carrier, asnOf, p).code == PathClass(carrier, asnOf, q).code))
            && (r.rank >= 4 ==> forall p :: p in paths + [merged] && Conclusive(PathClass(carrier, asnOf, p))
                                            ==> PathClass(carrier, asnOf, p).code == r.code)
  {
    hide Combine, EvidenceOf, Classify;
    var values := AllClasses(carrier, asnOf, paths, merged);
    var all := paths + [merged];
    forall i | 0 <= i < |all|
      ensures values[i] == PathClass(carrier, asnOf, all[i]) && all[i] in all && values[i] in values
    {
    }
    forall p | p in all
      ensures PathClass(carrier, asnOf, p) in values
      ensures !Conclusive(PathClass(carrier, asnOf, p)) <==> PathClass(carrier, asnOf, p).rank == 0
    {
      var i :| 0 <= i < |all| && all[i] == p;
      assert values[i] == PathClass(carrier, asnOf, p);
      RankMeaning(carrier, EvidenceOf(p, asnOf));
    }
    forall v | v in values ensures exists p :: p in all && PathClass(carrier, asnOf, p) == v {
      var i :| 0 <= i < |values| && values[i] == v;
      assert PathClass(carrier, asnOf, all[i]) == v;
    }
    HighRankExactly(carrier, values);
  }

  predicate AnyFallback(successful: seq<Attempt>) {
    exists i :: 0 <= i < |successful| && successful[i].fallback
  }

  predicate AnyReached(successful: seq<Attempt>) {
    exists i :: 0 <= i < |successful| && Reaches(successful[i].hops, successful[i].target)
  }

  lemma AnyStep(successful: seq<Attempt>, a: Attempt)
    ensures AnyFallback(successful + [a]) <==> AnyFallback(successful) || a.fallback
    ensures AnyReached(successful + [a]) <==> AnyReached(successful) || Reaches(a.hops, a.target)
  {
    var all := successful + [a];
    assert all[|successful|] == a;
    hide Reaches;
    if AnyFallback(successful) {
      var i :| 0 <= i < |successful| && successful[i].fallback;
      assert all[i] == successful[i];
    }
    if AnyReached(successful) {
      var i :| 0 <= i < |successful| && Reaches(successful[i].hops, successful[i].target);
      assert all[i] == successful[i];
    }
  }


  // ----- latency samples and observed systems -----

  /** Every RTT of the hops, in order. */
  function NodeRtts(nodes: seq<Node>): seq<int> {
    if nodes == [] then [] else NodeRtts(nodes[..|nodes|-1]) + nodes[|nodes|-1].rtts
  }

  function Rtts(hops: seq<Hop>): seq<int> {
    if hops == [] then [] else Rtts(hops[..|hops|-1]) + NodeRtts(hops[|hops|-1].nodes)
  }

  lemma {:induction false} NodeRttsConcat(nodes: seq<Node>, more: seq<Node>)
    ensures NodeRtts(nodes + more) == NodeRtts(nodes) + NodeRtts(more)
  {
    if more == [] {
      assert nodes + more == nodes;
    } else {
      NodeRttsConcat(nodes, more[..|more|-1]);
      var all := nodes + more;
      assert all[..|all|-1] == nodes + more[..|more|-1] && all[|all|-1] == more[|more|-1];
    }
  }

  lemma {:induction false} RttsConcat(hops: seq<Hop>, more: seq<Hop>)
    ensures Rtts(hops + more) == Rtts(hops) + Rtts(more)
  {
    hide NodeRtts;
    if more == [] {
      assert hops + more == hops;
    } else {
      RttsConcat(hops, more[..|more|-1]);
      assert (hops + more)[..|hops + more|-1] == hops + more[..|more|-1];
    }
  }

  /** The RTTs stand in the order of the hops, and within a hop in the order of its nodes: those of any node come
      after those of the nodes and hops before it, and before those of the nodes and hops after it. */
  lemma RttsInOrder(hops: seq<Hop>, i: nat, j: nat)
    requires i < |hops| && j < |hops[i].nodes|
    ensures var nodes := hops[i].nodes;
            Rtts(hops) ==
            Rtts(hops[..i]) + NodeRtts(nodes[..j]) + nodes[j].rtts + NodeRtts(nodes[j+1..]) + Rtts(hops[i+1..])
  {
    hide Rtts, NodeRtts;
    var h, n, nodes := hops[i], hops[i].nodes[j], hops[i].nodes;
    OneHopRtts(h, n);
    assert Rtts(hops) == Rtts(hops[..i]) + NodeRtts(nodes) + Rtts(hops[i+1..]) by {
      assert hops == hops[..i] + [h] + hops[i+1..];
      RttsConcat(hops[..i] + [h], hops[i+1..]);
      RttsConcat(hops[..i], [h]);
    }
    assert NodeRtts(nodes) == NodeRtts(nodes[..j]) + n.rtts + NodeRtts(nodes[j+1..]) by {
      assert nodes == nodes[..j] + [n] + nodes[j+1..];
      NodeRttsConcat(nodes[..j] + [n], nodes[j+1..]);
      NodeRttsConcat(nodes[..j], [n]);
    }
    Regroup(Rtts(hops[..i]), NodeRtts(nodes[..j]), n.rtts, NodeRtts(nodes[j+1..]), Rtts(hops[i+1..]));
  }

  lemma Regroup<T>(a: seq<T>, b: seq<T>, c: seq<T>, d: seq<T>, e: seq<T>)
    ensures a + (b + c + d) + e == a + b + c + d + e
  {
    assert a + (b + c + d) == a + b + c + d;
  }

  lemma OneHopRtts(h: Hop, n: Node)
    ensures Rtts([h]) == NodeRtts(h.nodes) && NodeRtts([n]) == n.rtts
  {
    assert [h][..0] == [] && [n][..0] == [];
  }

  predicate Counted(rtt: int) {
    rtt >= 0
  }

  function Milliseconds(nanoseconds: int): real {
    nanoseconds as real / 1000000.0
  }

  function Samples(hops: seq<Hop>): seq<real> {
    Map(Filter(Rtts(hops), Counted), Milliseconds)
  }

  method RouteRTTMilliseconds(hops: seq<Hop>) returns (result: seq<real>)
    ensures result == Samples(hops)
  {
    hide Filter, Milliseconds;
    result := [];
    assert Filter([], Counted) == [];
    for i := 0 to |hops|
      invariant result == Samples(hops[..i])
    {
      assert hops[..i+1][..i] == hops[..i];
      var nodes := hops[i].nodes;
      ghost var before := Rtts(hops[..i]);
      assert before + NodeRtts(nodes[..0]) == before;
      for j := 0 to |nodes|
        invariant result == Map(Filter(before + NodeRtts(nodes[..j]), Counted), Milliseconds)
      {
        assert nodes[..j+1][..j] == nodes[..j];
        result := AddSamples(result, before + NodeRtts(nodes[..j]), nodes[j].rtts);
        assert before + NodeRtts(nodes[..j]) + nodes[j].rtts == before + NodeRtts(nodes[..j+1]);
      }
      assert nodes[..|nodes|] == nodes;
    }
    assert hops[..|hops|] == hops;
  }

  method AddSamples(start: seq<real>, ghost before: seq<int>, rtts: seq<int>) returns (result: seq<real>)
    requires start == Map(Filter(before, Counted), Milliseconds)
    ensures result == Map(Filter(before + rtts, Counted), Milliseconds)
  {
    hide Milliseconds;
    result := start;
    assert before + rtts[..0] == before;
    for k := 0 to |rtts|
      invariant result == Map(Filter(before + rtts[..k], Counted), Milliseconds)
    {
      assert before + rtts[..k+1] == (before + rtts[..k]) + [rtts[k]];
      assert (before + rtts[..k+1])[..|before| + k] == before + rtts[..k];
      if rtts[k] >= 0 {
        result := result + [Milliseconds(rtts[k])];
      }
    }
    assert rtts[..|rtts|] == rtts;
  }

  lemma OneNodeRtts(d: int, n: Node)
    ensures NodeBag(d, n, RttKey()) == multiset(n.rtts)
  {
    NodeBagListed(d, n, RttKey(), n.rtts);
  }

  lemma {:induction false} NodeRttsBag(d: int, nodes: seq<Node>)
    ensures multiset(NodeRtts(nodes)) == NodesBag(d, nodes, RttKey())
  {
    hide NodeBag, RttKey;
    if nodes != [] {
      NodeRttsBag(d, nodes[..|nodes|-1]);
      OneNodeRtts(d, nodes[|nodes|-1]);
    }
  }

  lemma {:induction false} RttsBag(hops: seq<Hop>)
    ensures multiset(Rtts(hops)) == TableBag(hops, RttKey())
  {
    hide NodesBag, NodeRtts;
    if hops != [] {
      RttsBag(hops[..|hops|-1]);
      NodeRttsBag(hops[|hops|-1].distance, hops[|hops|-1].nodes);
    }
  }

  /** A table that keeps every reply gives latency statistics of exactly the replies. */
  lemma SamplesAreReplies(hops: seq<Hop>, replies: seq<Reply>)
    requires TableBag(hops, RttKey()) == ReplyBag(replies, RttKey())
    ensures multiset(Rtts(hops)) == multiset(Map(replies, (r: Reply) => r.rtt))
  {
    RttsBag(hops);
    hide TableBag;
    ReplyBagListed(replies, RttKey(), Map(replies, (r: Reply) => r.rtt));
  }

  /** And the table a trace returns is one: from the replies of a trace to the samples of its attempt. */
  lemma TraceSamplesAreReplies(replies: seq<Reply>, target: IP)
    ensures multiset(Rtts(TracedHops(replies, target))) == multiset(Map(replies, (r: Reply) => r.rtt))
  {
    TracedBag(replies, target, RttKey());
    hide TableBag, ReplyBag, TracedHops, RttKey, Rtts;
    SamplesAreReplies(TracedHops(replies, target), replies);
  }

  function AttemptSamples(successful: seq<Attempt>): seq<real> {
    if successful == [] then []
    else AttemptSamples(successful[..|successful|-1]) + Samples(successful[|successful|-1].hops)
  }

  /** The samples of the attempts stand in the order of the attempts. */
  lemma {:induction false} AttemptSamplesConcat(successful: seq<Attempt>, a: Attempt, more: seq<Attempt>)
    ensures AttemptSamples(successful + [a] + more) == AttemptSamples(successful) + Samples(a.hops) + AttemptSamples(more)
  {
    hide Samples;
    var all := successful + [a] + more;
    if more == [] {
      assert all == successful + [a] && all[..|all|-1] == successful;
    } else {
      AttemptSamplesConcat(successful, a, more[..|more|-1]);
      assert all[..|all|-1] == successful + [a] + more[..|more|-1];
    }
  }

  /** A sample is a round-trip time in milliseconds; the non-negative ones count. */
  lemma SampleUnits(hops: seq<Hop>)
    ensures var counted := Filter(Rtts(hops), (x: int) => x >= 0);
            && |Samples(hops)| == |counted|
            && forall k :: 0 <= k < |counted| ==> Samples(hops)[k] * 1000000.0 == counted[k] as real
  {
    FilterSame(Rtts(hops), Counted, (x: int) => x >= 0);
  }

  /** The systems of some lists, each once, in order of first appearance. */
  function AddUnique(seen: seq<string>, asns: seq<string>): (r: seq<string>)
    requires Distinct(seen)
    ensures Distinct(r) && seen <= r && forall a :: a in r <==> a in seen || a in asns
  {
    if asns == [] then seen
    else
      var before := AddUnique(seen, asns[..|asns|-1]);
      var asn := asns[|asns|-1];
      assert forall a :: a in asns <==> a in asns[..|asns|-1] || a == asn;
      if asn in before then before else before + [asn]
  }

  function UniqueAsns(hops: seq<Evidence>): (r: seq<string>)
    ensures Distinct(r)
    ensures forall a :: a in r <==> exists i :: 0 <= i < |hops| && a in hops[i].asns
  {
    if hops == [] then []
    else
      var front, last := hops[..|hops|-1], hops[|hops|-1];
      assert forall i :: 0 <= i < |front| ==> front[i] == hops[i];
      AddUnique(UniqueAsns(front), last.asns)
  }

  lemma {:induction false} AddUniqueGrows(seen: seq<string>, asns: seq<string>, j: nat)
    requires Distinct(seen) && j <= |asns|
    ensures AddUnique(seen, asns[..j]) <= AddUnique(seen, asns)
  {
    if j < |asns| {
      AddUniqueGrows(seen, asns[..|asns|-1], j);
      assert asns[..|asns|-1][..j] == asns[..j];
    } else {
      assert asns[..j] == asns;
    }
  }

  /** More evidence only adds systems at the end, and so do more systems in the last entry: they are in order of first
      appearance. */
  lemma {:induction false} UniqueAsnsGrow(hops: seq<Evidence>, h: Evidence, j: nat, more: seq<Evidence>)
    requires j <= |h.asns|
    ensures UniqueAsns(hops + [h.(asns := h.asns[..j])]) <= UniqueAsns(hops + [h])
    ensures UniqueAsns(hops) <= UniqueAsns(hops + more)
  {
    assert (hops + [h.(asns := h.asns[..j])])[..|hops|] == hops && (hops + [h])[..|hops|] == hops;
    AddUniqueGrows(UniqueAsns(hops), h.asns, j);
    hide AddUnique;
    if more == [] {
      assert hops + more == hops;
    } else {
      UniqueAsnsGrow(hops, h, j, more[..|more|-1]);
      assert (hops + more)[..|hops + more|-1] == hops + more[..|more|-1];
    }
  }

  method UniqueRouteASNs(hops: seq<Evidence>) returns (result: seq<string>)
    ensures result == UniqueAsns(hops)
  {
    result := [];
    var seen: set<string> := {};
    for i := 0 to |hops|
      invariant result == UniqueAsns(hops[..i])
      invariant forall a :: a in seen <==> a in result
    {
      assert hops[..i+1][..i] == hops[..i];
      result, seen := AddUniqueAsns(result, seen, hops[i].asns);
    }
    assert hops[..|hops|] == hops;
  }

  /** The inner loop of the above. */
  method AddUniqueAsns(start: seq<string>, known: set<string>, asns: seq<string>)
    returns (result: seq<string>, seen: set<string>)
    requires Distinct(start) && forall a :: a in known <==> a in start
    ensures result == AddUnique(start, asns)
    ensures forall a :: a in seen <==> a in result
  {
    result, seen := start, known;
    for j := 0 to |asns|
      invariant result == AddUnique(start, asns[..j])
      invariant forall a :: a in seen <==> a in result
    {
      assert asns[..j+1][..j] == asns[..j];
      if asns[j] in seen {
        continue;
      }
      seen := seen + {asns[j]};
      result := result + [asns[j]];
    }
    assert asns[..|asns|] == asns;
  }

  // ----- the report -----

  datatype Status = Available | Unavailable | TimedOut | Canceled

  datatype TargetReport = TargetReport(
    status: Status, attempts: nat, successful: nat, validHops: nat, reached: bool, fallback: bool,
    observed: seq<string>, classification: Class, latency: Latency.Stats, error: string)

  const NO_LATENCY := Latency.Stats(0, 0.0, 0.0, 0.0, 0.0, 0.0, 0.0)

  function NoEvidence(carrier: string, reason: string): Class {
    Unclear(ToLower(NormalizeCarrier(carrier)) + "_unknown", "线路证据不足", reason)
  }

  function NoRoute(carrier: string, attempts: nat): TargetReport {
    TargetReport(Unavailable, attempts, 0, 0, false, false, [],
                 NoEvidence(carrier, "no responding trace attempts"), NO_LATENCY, "")
  }

  function CanceledTarget(carrier: string, attempts: nat, canceled: bool): TargetReport {
    var message := if canceled then "route probe canceled" else "route probe timed out";
    TargetReport(if canceled then Canceled else TimedOut, attempts, 0, 0, false, false, [],
                 NoEvidence(carrier, message), NO_LATENCY, message)
  }

  /** The report of a target whose successful attempts arrived in this order. */
  function Summary(carrier: string, asnOf: IP -> string, attempts: nat, successful: seq<Attempt>, merged: seq<Hop>):
    TargetReport
  {
    var evidence := EvidenceOf(merged, asnOf);
    TargetReport(Available, attempts, |successful|, |evidence|, AnyReached(successful), AnyFallback(successful),
                 UniqueAsns(evidence), Combine(carrier, AllClasses(carrier, asnOf, Paths(successful), merged)),
                 Latency.StatsOf(AttemptSamples(successful)), "")
  }

  /** The attempts in the order in which they arrived. */
  ghost function Arrived(own: seq<Attempt>, order: seq<nat>): (arrived: seq<Attempt>)
    requires forall k :: 0 <= k < |order| ==> order[k] < |own|
    ensures |arrived| == |order| && forall k :: 0 <= k < |order| ==> arrived[k] == own[order[k]]
  {
    if order == [] then [] else Arrived(own, order[..|order|-1]) + [own[order[|order|-1]]]
  }

  /** Every attempt once. */
  ghost predicate Arrival(order: seq<nat>, n: nat) {
    && |order| == n && Distinct(order)
    && (forall k :: 0 <= k < |order| ==> order[k] < n)
    && (forall i: nat :: i < n ==> i in order)
  }

  ghost function SuccessIn(own: seq<Attempt>, order: seq<nat>): seq<Attempt>
    requires forall k :: 0 <= k < |order| ==> order[k] < |own|
  {
    Filter(Arrived(own, order), Succeeded)
  }

  /** The report sums up the successful attempts in this order of arrival, with this merged path. */
  ghost predicate SumsUp(carrier: string, asnOf: IP -> string, own: seq<Attempt>, report: TargetReport,
                         order: seq<nat>, merged: seq<Hop>)
  {
    && Arrival(order, |own|) && SuccessIn(own, order) != []
    && Merged(Paths(SuccessIn(own, order)), merged)
    && report == Summary(carrier, asnOf, |own|, SuccessIn(own, order), merged)
  }

  /** What a target may report, given what its attempts produce. */
  ghost predicate Reports(carrier: string, asnOf: IP -> string, own: seq<Attempt>, report: TargetReport) {
    match report.status
    case TimedOut => report == CanceledTarget(carrier, |own|, false)
    case Canceled => report == CanceledTarget(carrier, |own|, true)
    case Unavailable => report == NoRoute(carrier, |own|) && forall a :: a in own ==> !Succeeded(a)
    case Available => exists order, merged :: SumsUp(carrier, asnOf, own, report, order, merged)
  }

  /** The loop that receives the attempts, under any schedule: all of them, each once, in order of arrival, unless
      the context ends first, which it may do at any turn. */
  method CollectAttempts(own: seq<Attempt>, w: Workers, ctx: Context)
    returns (ok: bool, successful: seq<Attempt>, fallback: bool)
    requires w.Valid() && w.n == |own| && w.taken == []
    modifies w, ctx
    ensures w.Valid() && w.idle == {}
    ensures forall k :: 0 <= k < |w.taken| ==> w.taken[k] < |own|
    ensures if ok then Arrival(w.taken, |own|) else ctx.err != ContextErr.Open && |w.taken| < |own|
    ensures successful == SuccessIn(own, w.taken)
    ensures fallback <==> AnyFallback(successful)
    ensures old(ctx.err) != ContextErr.Open ==> ctx.err == old(ctx.err)
  {
    hide Workers.Valid, Distinct, Succeeded, Arrived, AnyFallback;
    ArrivedNone(own);
    successful, fallback := [], false;
    var attempt := 0;
    while attempt < |own|
      invariant w.Valid() && attempt == |w.taken|
      invariant forall k :: 0 <= k < |w.taken| ==> w.taken[k] < |own|
      invariant successful == SuccessIn(own, w.taken)
      invariant fallback <==> AnyFallback(successful)
      invariant old(ctx.err) != ContextErr.Open ==> ctx.err == old(ctx.err)
      decreases |own| - attempt, w.idle
    {
      ctx.Elapse();
      w.NoDeadlock();
      var choice: int := *;
      if choice == 0 && ctx.err != ContextErr.Open {
        DrainWorkers(w);
        return false, successful, fallback;
      } else if w.idle != {} && (choice == 1 || w.chan == []) {
        var i :| i in w.idle;
        w.RoomToSend(i);
        w.Send(i);
      } else {
        ghost var order := w.taken;
        var i := w.Take();
        var result := own[i];
        ArrivedStep(own, order, i);
        attempt := attempt + 1;
        if Succeeded(result) {
          AnyStep(successful, result);
          successful := successful + [result];
          fallback := fallback || result.fallback;
        }
      }
    }
    w.AllTaken();
    assert Arrival(w.taken, |own|);
    ok := true;
    DrainWorkers(w);
  }

  lemma ArrivedNone(own: seq<Attempt>)
    ensures SuccessIn(own, []) == [] && !AnyFallback([])
  {
  }

  lemma ArrivedStep(own: seq<Attempt>, order: seq<nat>, i: nat)
    requires i < |own| && forall k :: 0 <= k < |order| ==> order[k] < |own|
    ensures SuccessIn(own, order + [i]) == SuccessIn(own, order) + (if Succeeded(own[i]) then [own[i]] else [])
  {
    assert (order + [i])[..|order|] == order;
    var before := Arrived(own, order);
    assert Arrived(own, order + [i]) == before + [own[i]];
    assert (before + [own[i]])[..|before|] == before;
  }

  /** Once all have arrived, the successful arrivals are the successful attempts. */
  lemma SuccessMembers(own: seq<Attempt>, order: seq<nat>)
    requires Arrival(order, |own|)
    ensures forall a :: a in SuccessIn(own, order) <==> a in own && Succeeded(a)
  {
    FilterMembers(Arrived(own, order), Succeeded);
    hide Filter, Arrived, Distinct;
    forall a | a in own ensures a in Arrived(own, order) {
      var i: nat :| i < |own| && own[i] == a;
      assert i in order;
      var k :| 0 <= k < |order| && order[k] == i;
      assert Arrived(own, order)[k] == a;
    }
    forall a | a in Arrived(own, order) ensures a in own {
      var k :| 0 <= k < |order| && Arrived(own, order)[k] == a;
    }
  }

  /** The classes of the successful paths, their samples, and whether any reached its target. */
  method ClassifyPaths(carrier: string, asnOf: IP -> string, got: seq<Attempt>)
    returns (paths: seq<seq<Hop>>, classes: seq<Class>, latencies: seq<real>, reached: bool)
    ensures paths == Paths(got)
    ensures classes == PathClasses(carrier, asnOf, paths)
    ensures latencies == AttemptSamples(got)
    ensures reached <==> AnyReached(got)
  {
    hide Classify, EvidenceOf, Reaches, AnyReached, Samples, Paths, PathClasses, AttemptSamples, PathClass;
    paths, classes, latencies, reached := [], [], [], false;
    AnyNone();
    for i := 0 to |got|
      invariant paths == Paths(got[..i]) && classes == PathClasses(carrier, asnOf, paths)
      invariant latencies == AttemptSamples(got[..i])
      invariant reached <==> AnyReached(got[..i])
    {
      assert got[..i+1] == got[..i] + [got[i]];
      AnyStep(got[..i], got[i]);
      SuccessStep(got[..i], got[i]);
      var hops := got[i].hops;
      ClassesStep(carrier, asnOf, paths, hops);
      var evidence := RouteEvidenceFromHops(hops, asnOf);
      paths := paths + [hops];
      classes := classes + [Classify(carrier, evidence)];
      var samples := RouteRTTMilliseconds(hops);
      latencies := latencies + samples;
      if Reaches(hops, got[i].target) {
        reached := true;
      }
    }
    assert got[..|got|] == got;
  }

  lemma SuccessStep(successful: seq<Attempt>, a: Attempt)
    ensures Paths(successful + [a]) == Paths(successful) + [a.hops]
    ensures AttemptSamples(successful + [a]) == AttemptSamples(successful) + Samples(a.hops)
  {
    hide Samples;
    assert (successful + [a])[..|successful|] == successful;
  }

  lemma ClassesStep(carrier: string, asnOf: IP -> string, paths: seq<seq<Hop>>, path: seq<Hop>)
    ensures PathClasses(carrier, asnOf, paths + [path]) ==
            PathClasses(carrier, asnOf, paths) + [Classify(carrier, EvidenceOf(path, asnOf))]
  {
    hide Classify, EvidenceOf;
    assert (paths + [path])[|paths|] == path;
  }

  lemma AnyNone()
    ensures !AnyReached([]) && Paths([]) == [] && AttemptSamples([]) == []
  {
  }

  /** Collect the attempts, classify each path and the merged path, combine, and measure. */
  method RunRouteTarget(carrier: string, asnOf: IP -> string, own: seq<Attempt>, ctx: Context)
    returns (report: TargetReport)
    modifies ctx
    ensures Reports(carrier, asnOf, own, report)
    ensures report.status == TimedOut ==> ctx.err == ContextErr.DeadlineExceeded
    ensures report.status == Canceled ==> ctx.err == ContextErr.Interrupted
    ensures old(ctx.err) != ContextErr.Open ==> ctx.err == old(ctx.err)
  {
    hide NoEvidence, UniqueAsns, AttemptSamples, Filter, Arrived, Arrival, SuccessIn;
    hide Merged, Classify, EvidenceOf, AnyReached, AnyFallback, Paths, PathClasses, Combine;
    var w := new Workers(|own|);
    var ok, got, fallback := CollectAttempts(own, w, ctx);
    ghost var order := w.taken;
    if !ok {
      return CanceledTarget(carrier, |own|, ctx.err == ContextErr.Interrupted);
    }
    if |got| == 0 {
      SuccessMembers(own, order);
      return NoRoute(carrier, |own|);
    }
    var paths, classes, latencies, reached := ClassifyPaths(carrier, asnOf, got);
    var merged := MergeHops(paths);
    var mergedEvidence := RouteEvidenceFromHops(merged, asnOf);
    classes := classes + [Classify(carrier, mergedEvidence)];
    var observed := UniqueRouteASNs(mergedEvidence);
    var class' := CombineRouteClassifications(carrier, classes);
    var latency := Latency.CalculateRouteLatency(latencies);
    report := TargetReport(Available, |own|, |got|, |mergedEvidence|, reached, fallback, observed, class', latency, "");
    assert SumsUp(carrier, asnOf, own, report, order, merged);
  }

  // ----- what a report means -----

  lemma {:induction false} PathMembers(successful: seq<Attempt>)
    ensures forall p :: p in Paths(successful) <==> exists a :: a in successful && a.hops == p
  {
    if successful != [] {
      var front, last := successful[..|successful|-1], successful[|successful|-1];
      PathMembers(front);
      assert successful == front + [last];
    }
  }

  /** All attempts arrive: the arrivals are a rearrangement of the attempts. */
  lemma ArrivedBag(own: seq<Attempt>, order: seq<nat>)
    requires Arrival(order, |own|)
    ensures multiset(Arrived(own, order)) == multiset(own)
  {
    hide Arrived;
    var inOrder: seq<nat> := seq(|own|, (i: nat) => i);
    forall i: nat ensures i in order <==> i in inOrder {
      if i < |own| { assert inOrder[i] == i; }
    }
    SameMembersSameBag(order, inOrder);
    var at: nat -> Attempt := (i: nat) => if i < |own| then own[i] else Attempt([], V4(0), false, true);
    MapPermuted(order, inOrder, at);
    assert Map(inOrder, at) == own && Map(order, at) == Arrived(own, order);
  }

  /** Some node of some hop has the address traced. */
  ghost predicate SawTarget(a: Attempt) {
    exists i, j :: 0 <= i < |a.hops| && 0 <= j < |a.hops[i].nodes| && a.hops[i].nodes[j].ip == a.target
  }

  /** The fields of an available report: how many attempts were made and succeeded, and whether a successful one
      reached its target or used an alternative address. */
  lemma ReportFields(carrier: string, asnOf: IP -> string, own: seq<Attempt>, report: TargetReport)
    requires Reports(carrier, asnOf, own, report) && report.status == Available
    ensures report.attempts == |own| && report.error == ""
    ensures report.successful == |Filter(own, (a: Attempt) => !a.failed && a.hops != [])| > 0
    ensures report.reached <==> exists a :: a in own && !a.failed && SawTarget(a)
    ensures report.fallback <==> exists a :: a in own && !a.failed && a.hops != [] && a.fallback
  {
    ReportCounts(carrier, asnOf, own, report);
    FilterSame(own, Succeeded, (a: Attempt) => !a.failed && a.hops != []);
    hide Reports, Filter, SawTarget, Reaches;
    forall a: Attempt ensures SawTarget(a) <==> a.hops != [] && Reaches(a.hops, a.target) {
      SawReaches(a);
    }
  }

  lemma SawReaches(a: Attempt)
    ensures SawTarget(a) <==> a.hops != [] && Reaches(a.hops, a.target)
  {
  }

  lemma ReportCounts(carrier: string, asnOf: IP -> string, own: seq<Attempt>, report: TargetReport)
    requires Reports(carrier, asnOf, own, report) && report.status == Available
    ensures report.attempts == |own| && report.successful == |Filter(own, Succeeded)| > 0 && report.error == ""
    ensures report.reached <==> exists a :: a in own && Succeeded(a) && Reaches(a.hops, a.target)
    ensures report.fallback <==> exists a :: a in own && Succeeded(a) && a.fallback
  {
    hide Combine, Merged, EvidenceOf, UniqueAsns, SuccessIn, Succeeded, AllClasses, Paths, Reaches;
    var order, merged :| SumsUp(carrier, asnOf, own, report, order, merged);
    var got := SuccessIn(own, order);
    SuccessMembers(own, order);
    SuccessCount(own, order);
    assert forall i :: 0 <= i < |got| ==> got[i] in got;
  }

  lemma SuccessCount(own: seq<Attempt>, order: seq<nat>)
    requires Arrival(order, |own|)
    ensures |SuccessIn(own, order)| == |Filter(own, Succeeded)|
  {
    ArrivedBag(own, order);
    FilterPermuted(Arrived(own, order), own, Succeeded);
  }

  /** A report without a route says so: an inconclusive class of the carrier, and nothing seen or measured. */
  lemma FailedReport(carrier: string, asnOf: IP -> string, own: seq<Attempt>, report: TargetReport)
    requires Reports(carrier, asnOf, own, report) && report.status != Available
    ensures Reported(report.classification, ToLower(NormalizeCarrier(carrier)) + "_unknown", Inconclusive, 0)
    ensures report.attempts == |own| && report.successful == report.validHops == report.latency.samples == 0
    ensures !report.reached && !report.fallback && report.observed == []
    ensures report.status == Unavailable <==> report.error == ""
    ensures report.status == Unavailable ==> forall a :: a in own ==> !Succeeded(a)
  {
    hide ToLower, NormalizeCarrier, Succeeded;
  }

  /** If every successful attempt took the same path, the report classifies that path, whatever arrived when. */
  lemma EqualAttemptsReport(carrier: string, asnOf: IP -> string, own: seq<Attempt>, report: TargetReport, path: seq<Hop>)
    requires Reports(carrier, asnOf, own, report) && report.status == Available
    requires forall a :: a in own && Succeeded(a) ==> a.hops == path
    ensures report.classification == PathClass(carrier, asnOf, path)
    ensures report.validHops == |EvidenceOf(path, asnOf)| && report.observed == UniqueAsns(EvidenceOf(path, asnOf))
  {
    var order, merged :| SumsUp(carrier, asnOf, own, report, order, merged);
    var got := SuccessIn(own, order);
    SuccessMembers(own, order);
    PathMembers(got);
    hide Combine, Merged, EvidenceOf, UniqueAsns, Arrival, SuccessIn, Succeeded, AllClasses, PathClass, Paths;
    EqualAttemptsClass(carrier, asnOf, Paths(got), merged, path);
  }

  /** A report of rank 4 or more means that every conclusive path behind it, of a successful attempt or merged, has
      the reported code. */
  lemma HighRankReport(carrier: string, asnOf: IP -> string, own: seq<Attempt>, report: TargetReport)
    returns (order: seq<nat>, merged: seq<Hop>)
    requires Reports(carrier, asnOf, own, report) && report.classification.rank >= 4
    ensures report.status == Available && SumsUp(carrier, asnOf, own, report, order, merged)
    ensures forall a :: a in own && Succeeded(a) && Conclusive(PathClass(carrier, asnOf, a.hops)) ==>
              PathClass(carrier, asnOf, a.hops).code == report.classification.code
    ensures Conclusive(PathClass(carrier, asnOf, merged)) ==>
              PathClass(carrier, asnOf, merged).code == report.classification.code
  {
    hide NoEvidence;
    assert report.status == Available by {
      NoEvidenceRank(carrier, "no responding trace attempts");
      NoEvidenceRank(carrier, "route probe canceled");
      NoEvidenceRank(carrier, "route probe timed out");
    }
    order, merged :| SumsUp(carrier, asnOf, own, report, order, merged);
    var got := SuccessIn(own, order);
    SuccessMembers(own, order);
    PathMembers(got);
    hide Combine, Merged, EvidenceOf, UniqueAsns, Arrival, SuccessIn, Succeeded, AllClasses, PathClass, Paths;
    hide Conclusive, Classify;
    var all := Paths(got) + [merged];
    HighRankAgreement(carrier, asnOf, Paths(got), merged);
    assert merged in all;
    forall a | a in own && Succeeded(a) ensures a.hops in all {
      assert a in got && a.hops in Paths(got);
    }
  }

  lemma NoEvidenceRank(carrier: string, reason: string)
    ensures NoEvidence(carrier, reason).rank == 0
  {
  }
}
