/** The walk from a target AS to its upstreams over a possibly cyclic graph:
    follow the chain while the successor is unique. */
module Upstreams {
  import opened Lists

  datatype Card = Card(asn: string, name: string, fill: string, stroke: string)

  datatype Arrow = Arrow(from: string, to: string)

  datatype Upstream = Upstream(asn: string, name: string, direct: bool, tier1: bool, kind: string)

  /** The name tables the type of an entry is looked up in. */
  datatype Tables = Tables(
    tier1Global: map<string, string>, tier1Regional: map<string, string>, tier2: map<string, string>,
    content: map<string, string>, ixps: map<string, string>)

  predicate Named(table: map<string, string>, asn: string) {
    asn in table && table[asn] != ""
  }

  function IspType(t: Tables, asn: string, tier1: bool, direct: bool): string {
    if tier1 && direct && Named(t.tier1Global, asn) then "Tier1 Global"
    else if tier1 && direct && Named(t.tier1Regional, asn) then "Tier1 Regional"
    else if tier1 && !direct then "Tier1 Indirect"
    else if Named(t.tier2, asn) then "Tier2"
    else if Named(t.content, asn) then "CDN Provider"
    else if Named(t.ixps, asn) then "IXP"
    else if direct then "Direct"
    else "Indirect"
  }

  predicate IsTier1(c: Card) {
    c.fill == "white" && c.stroke == "#005ea5"
  }

  function Entry(t: Tables, c: Card, direct: bool): Upstream {
    Upstream(c.asn, c.name, direct, IsTier1(c), IspType(t, c.asn, IsTier1(c), direct))
  }

  // ----- the graph -----

  function Successors(edges: seq<Arrow>, asn: string): set<string> {
    set e | e in edges && e.from == asn :: e.to
  }

  predicate Unique(edges: seq<Arrow>, a: string, b: string) {
    Successors(edges, a) == {b}
  }

  function FirstCard(nodes: seq<Card>, asn: string): (c: Option<Card>)
    ensures c.Some? ==> c.value in nodes && c.value.asn == asn
    ensures c.None? <==> forall n :: n in nodes ==> n.asn != asn
  {
    if nodes == [] then None
    else if nodes[0].asn == asn then Some(nodes[0])
    else FirstCard(nodes[1..], asn)
  }

  function Asns(nodes: seq<Card>): set<string> {
    set n | n in nodes :: n.asn
  }

  function Direct(target: string, nodes: seq<Card>, edges: seq<Arrow>): seq<Card> {
    Filter(nodes, (n: Card) => n.asn in Successors(edges, target))
  }

  // ----- one step of the chain of an indirect walk -----

  datatype Stop = Dead | Found(card: Card)

  datatype Move = Halt(stop: Stop) | Go(asn: string)

  datatype Graph = Graph(nodes: seq<Card>, edges: seq<Arrow>, listed: set<string>)

  /** From here: stop for good, stop at a Tier1 network, or move to the unique
      successor, which is then a known non-Tier1 network outside `listed`. */
  ghost function Step(g: Graph, asn: string): Move {
    if exists b :: Unique(g.edges, asn, b) then
      var b :| Unique(g.edges, asn, b);
      if b in g.listed then Halt(Dead)
      else
        match FirstCard(g.nodes, b)
        case None => Halt(Dead)
        case Some(c) => if IsTier1(c) then Halt(Found(c)) else Go(b)
    else Halt(Dead)
  }

  /** The walk can make k moves. */
  ghost predicate Goes(g: Graph, asn: string, k: nat)
    decreases k
  {
    k == 0 || (Step(g, asn).Go? && Goes(g, Step(g, asn).asn, k - 1))
  }

  ghost function At(g: Graph, asn: string, k: nat): string
    requires Goes(g, asn, k)
    decreases k
  {
    if k == 0 then asn else At(g, Step(g, asn).asn, k - 1)
  }

  ghost function End(g: Graph, asn: string, k: nat): Stop
    requires !Goes(g, asn, k)
    decreases k
  {
    match Step(g, asn)
    case Halt(stop) => stop
    case Go(next) => End(g, next, k - 1)
  }

  function Budget(g: Graph): nat {
    |g.nodes| + 1
  }

  // ----- when the walk ends -----

  lemma {:induction false} GoesSplit(g: Graph, asn: string, i: nat, j: nat)
    ensures Goes(g, asn, i + j) <==> Goes(g, asn, i) && Goes(g, At(g, asn, i), j)
    ensures Goes(g, asn, i + j) ==> At(g, asn, i + j) == At(g, At(g, asn, i), j)
    decreases i
  {
    if i > 0 && Step(g, asn).Go? {
      GoesSplit(g, Step(g, asn).asn, i - 1, j);
    }
  }

  lemma {:induction false} CycleGoesOn(g: Graph, asn: string, i: nat, j: nat, k: nat)
    requires i < j && Goes(g, asn, j) && Goes(g, asn, i) && At(g, asn, i) == At(g, asn, j)
    ensures Goes(g, asn, k)
    decreases k
  {
    if k <= j {
      GoesSplit(g, asn, k, j - k);
    } else {
      CycleGoesOn(g, asn, i, j, i + (k - j));
      GoesSplit(g, asn, i, k - j);
      GoesSplit(g, asn, j, k - j);
    }
  }

  lemma {:induction false} MovesToKnown(g: Graph, asn: string, k: nat)
    requires k > 0 && Goes(g, asn, k)
    ensures At(g, asn, k) in Asns(g.nodes) && At(g, asn, k) !in g.listed
    ensures FirstCard(g.nodes, At(g, asn, k)).Some? && !IsTier1(FirstCard(g.nodes, At(g, asn, k)).value)
    ensures Goes(g, asn, k - 1) && Unique(g.edges, At(g, asn, k - 1), At(g, asn, k))
    decreases k
  {
    if k == 1 {
      assert At(g, asn, 1) == Step(g, asn).asn;
      var c := FirstCard(g.nodes, Step(g, asn).asn).value;
      assert c in g.nodes;
    } else {
      MovesToKnown(g, Step(g, asn).asn, k - 1);
    }
  }

  /** A walk that makes more moves than there are nodes has come back to a network. */
  lemma LongWalkRevisits(g: Graph, asn: string) returns (i: nat, j: nat)
    requires Goes(g, asn, Budget(g))
    ensures i < j <= Budget(g) && Goes(g, asn, i) && Goes(g, asn, j) && At(g, asn, i) == At(g, asn, j)
  {
    var n := Budget(g);
    forall k: nat | k <= n ensures Goes(g, asn, k) {
      GoesSplit(g, asn, k, n - k);
    }
    i, j := 0, 1;
    if a, b :| 1 <= a < b <= n && At(g, asn, a) == At(g, asn, b) {
      i, j := a, b;
    } else {
      var path := seq(n, k requires 0 <= k < n => At(g, asn, k + 1));
      forall x | x in path ensures x in Asns(g.nodes) {
        var k :| 0 <= k < n && path[k] == x;
        MovesToKnown(g, asn, k + 1);
      }
      DistinctFits(path, Asns(g.nodes));
      AsnsFit(g.nodes);
      assert false;
    }
  }

  lemma {:induction false} AsnsFit(nodes: seq<Card>)
    ensures |Asns(nodes)| <= |nodes|
  {
    if nodes != [] {
      var front, last := nodes[..|nodes|-1], nodes[|nodes|-1];
      AsnsFit(front);
      assert nodes == front + [last];
      assert Asns(nodes) == Asns(front) + {last.asn};
    }
  }

  /** A walk ends exactly when it ends within |nodes| + 1 moves, and exactly when
      it never visits a network twice. */
  lemma HaltsExactly(g: Graph, asn: string)
    ensures (exists k: nat :: !Goes(g, asn, k)) <==> !Goes(g, asn, Budget(g))
    ensures !Goes(g, asn, Budget(g)) <==>
            forall i: nat, j: nat :: i < j && Goes(g, asn, i) && Goes(g, asn, j) ==> At(g, asn, i) != At(g, asn, j)
  {
    if Goes(g, asn, Budget(g)) {
      var i, j := LongWalkRevisits(g, asn);
      forall k: nat ensures Goes(g, asn, k) {
        CycleGoesOn(g, asn, i, j, k);
      }
    } else {
      forall i: nat, j: nat | i < j && Goes(g, asn, i) && Goes(g, asn, j)
        ensures At(g, asn, i) != At(g, asn, j)
      {
        if At(g, asn, i) == At(g, asn, j) {
          CycleGoesOn(g, asn, i, j, Budget(g));
        }
      }
    }
  }

  const LOOP_NODES: seq<Card> :=
    [Card("2", "", "", ""), Card("3", "", "", ""), Card("4", "", "", ""), Card("5", "", "", "")]
  const LOOP_EDGES: seq<Arrow> := [Arrow("1", "2"), Arrow("1", "3"), Arrow("2", "4"), Arrow("4", "5"), Arrow("5", "4")]

  lemma LoopSuccessors(asn: string)
    ensures Successors(LOOP_EDGES, asn) ==
            if asn == "1" then {"2", "3"} else if asn == "2" then {"4"}
            else if asn == "4" then {"5"} else if asn == "5" then {"4"} else {}
  {
    var es := LOOP_EDGES;
    assert es[0] in es && es[1] in es && es[2] in es && es[3] in es && es[4] in es;
    forall e | e in es ensures e == es[0] || e == es[1] || e == es[2] || e == es[3] || e == es[4] {}
  }

  lemma LoopDirect()
    ensures Direct("1", LOOP_NODES, LOOP_EDGES) == LOOP_NODES[..2]
  {
    LoopSuccessors("1");
    hide Successors;
    var keep := (n: Card) => n.asn in Successors(LOOP_EDGES, "1");
    var ns := LOOP_NODES;
    FilterStep(ns, 0, keep);
    FilterStep(ns, 1, keep);
    FilterStep(ns, 2, keep);
    FilterStep(ns, 3, keep);
    assert ns[..0] == [] && ns[..4] == ns;
    hide Filter;
    assert ns[..2] == [] + [ns[0]] + [ns[1]];
  }

  /** Two networks that are each other's only successor, behind one of two direct
      upstreams: the walk of the second branch of findUpstreams never ends. */
  lemma WalkCanDiverge(k: nat)
    ensures |Direct("1", LOOP_NODES, LOOP_EDGES)| == 2
    ensures LOOP_NODES[0] in Direct("1", LOOP_NODES, LOOP_EDGES)
    ensures Goes(GraphOf("1", LOOP_NODES, LOOP_EDGES), LOOP_NODES[0].asn, k)
  {
    LoopDirect();
    var g := GraphOf("1", LOOP_NODES, LOOP_EDGES);
    var d := LOOP_NODES[..2];
    assert forall c :: c in d ==> c == d[0] || c == d[1];
    assert "4" !in g.listed && "5" !in g.listed;
    LoopSuccessors("2");
    LoopSuccessors("4");
    LoopSuccessors("5");
    assert Unique(g.edges, "2", "4") && Unique(g.edges, "4", "5") && Unique(g.edges, "5", "4");
    LoopSteps(g);
    hide Step;
    assert Goes(g, "2", 1) && Goes(g, "4", 2) && Goes(g, "2", 3);
    assert At(g, "4", 2) == "4" && At(g, "2", 1) == "4" && At(g, "2", 3) == "4";
    CycleGoesOn(g, "2", 1, 3, k);
  }

  /** The step is what the unique successor says it is. */
  lemma StepAlong(g: Graph, a: string, b: string)
    requires Unique(g.edges, a, b)
    ensures b in g.listed ==> Step(g, a) == Halt(Dead)
    ensures b !in g.listed && FirstCard(g.nodes, b).None? ==> Step(g, a) == Halt(Dead)
    ensures b !in g.listed && FirstCard(g.nodes, b).Some? ==>
              var c := FirstCard(g.nodes, b).value;
              Step(g, a) == if IsTier1(c) then Halt(Found(c)) else Go(b)
  {
    forall x | Unique(g.edges, a, x) ensures x == b {
      assert x in Successors(g.edges, a);
    }
  }

  lemma LoopSteps(g: Graph)
    requires g.nodes == LOOP_NODES && g.edges == LOOP_EDGES && "4" !in g.listed && "5" !in g.listed
    requires Unique(g.edges, "2", "4") && Unique(g.edges, "4", "5") && Unique(g.edges, "5", "4")
    ensures Step(g, "2") == Go("4") && Step(g, "4") == Go("5") && Step(g, "5") == Go("4")
  {
    LoopCards();
    hide Step, Successors, FirstCard;
    StepAlong(g, "2", "4");
    StepAlong(g, "4", "5");
    StepAlong(g, "5", "4");
  }

  lemma LoopCards()
    ensures FirstCard(LOOP_NODES, "4") == Some(LOOP_NODES[2])
    ensures FirstCard(LOOP_NODES, "5") == Some(LOOP_NODES[3])
  {
    var n := LOOP_NODES;
    assert n[1..][1..] == n[2..] && n[2..][1..] == n[3..];
  }

  function GraphOf(target: string, nodes: seq<Card>, edges: seq<Arrow>): Graph {
    Graph(nodes, edges, Asns(Direct(target, nodes, edges)))
  }

  // ----- what the walks contribute -----

  function UpAsns(ups: seq<Upstream>): set<string> {
    set u | u in ups :: u.asn
  }

  function DirectEntries(t: Tables, direct: seq<Card>): seq<Upstream> {
    Map(direct, c => Entry(t, c, true))
  }

  /** With one direct upstream: the chain so far, each entry the unique successor of the one before. */
  ghost predicate IsChain(t: Tables, nodes: seq<Card>, edges: seq<Arrow>, ups: seq<Upstream>) {
    && ups != []
    && (forall i :: 1 <= i < |ups| ==>
          && Unique(edges, ups[i-1].asn, ups[i].asn)
          && FirstCard(nodes, ups[i].asn).Some?
          && ups[i] == Entry(t, FirstCard(nodes, ups[i].asn).value, false))
    && (forall i, j :: 0 <= i < j < |ups| ==> ups[i].asn != ups[j].asn)
  }

  /** The chain cannot be continued: no unique successor, or one that is unknown or already listed. */
  ghost predicate ChainStops(nodes: seq<Card>, edges: seq<Arrow>, ups: seq<Upstream>)
    requires ups != []
  {
    forall b :: Unique(edges, ups[|ups|-1].asn, b) ==> b in UpAsns(ups) || FirstCard(nodes, b).None?
  }

  ghost predicate AllHalt(g: Graph, direct: seq<Card>) {
    forall c :: c in direct ==> !Goes(g, c.asn, Budget(g))
  }

  /** With several: the entries the first k direct upstreams add. */
  ghost function Indirect(t: Tables, g: Graph, direct: seq<Card>, k: nat): seq<Upstream>
    requires k <= |direct| && AllHalt(g, direct)
  {
    if k == 0 then []
    else
      var before := Indirect(t, g, direct, k - 1);
      match End(g, direct[k-1].asn, Budget(g))
      case Dead => before
      case Found(c) => if c.asn in UpAsns(before) then before else before + [Entry(t, c, false)]
  }

  /** The i-th move leads to a known, unlisted, non-Tier1 network, the unique successor of the one before. */
  ghost predicate PassesThrough(g: Graph, asn: string, i: int) {
    && i > 0 && Goes(g, asn, i) && Goes(g, asn, i - 1)
    && Unique(g.edges, At(g, asn, i - 1), At(g, asn, i))
    && At(g, asn, i) !in g.listed
    && FirstCard(g.nodes, At(g, asn, i)).Some?
    && !IsTier1(FirstCard(g.nodes, At(g, asn, i)).value)
  }

  /** How a Tier1 network is reached from an upstream: by k moves through known,
      unlisted, non-Tier1 networks, each the unique successor of the last. */
  ghost predicate ReachedFrom(g: Graph, asn: string, c: Card, k: nat) {
    && Goes(g, asn, k)
    && (forall i :: 0 < i <= k ==> PassesThrough(g, asn, i))
    && Unique(g.edges, At(g, asn, k), c.asn)
    && FirstCard(g.nodes, c.asn) == Some(c) && IsTier1(c) && c.asn !in g.listed
  }

  lemma StepFound(g: Graph, asn: string, c: Card)
    requires Step(g, asn) == Halt(Found(c))
    ensures Unique(g.edges, asn, c.asn) && FirstCard(g.nodes, c.asn) == Some(c) && IsTier1(c) && c.asn !in g.listed
  {
    var b :| Unique(g.edges, asn, b);
    StepAlong(g, asn, b);
  }

  lemma {:induction false} EndMoves(g: Graph, asn: string, c: Card, budget: nat) returns (k: nat)
    requires !Goes(g, asn, budget) && End(g, asn, budget) == Found(c)
    ensures Goes(g, asn, k) && Step(g, At(g, asn, k)) == Halt(Found(c))
    decreases budget
  {
    if Step(g, asn).Halt? {
      k := 0;
    } else {
      var j := EndMoves(g, Step(g, asn).asn, c, budget - 1);
      k := j + 1;
      assert Goes(g, asn, k) && At(g, asn, k) == At(g, Step(g, asn).asn, j);
    }
  }

  lemma EndReached(g: Graph, asn: string, c: Card)
    requires !Goes(g, asn, Budget(g)) && End(g, asn, Budget(g)) == Found(c)
    ensures exists k: nat :: ReachedFrom(g, asn, c, k)
  {
    var k := EndMoves(g, asn, c, Budget(g));
    StepFound(g, At(g, asn, k), c);
    forall i | 0 < i <= k ensures PassesThrough(g, asn, i) {
      GoesSplit(g, asn, i, k - i);
      MovesToKnown(g, asn, i);
    }
    assert ReachedFrom(g, asn, c, k);
  }

  /** u is the Tier1 network that the walk from one of the first k upstreams reaches. */
  ghost predicate AddedBy(t: Tables, g: Graph, direct: seq<Card>, k: nat, u: Upstream) {
    exists i: nat, c: Card, n: nat ::
      i < k && i < |direct| && u == Entry(t, c, false) && u.tier1 && ReachedFrom(g, direct[i].asn, c, n)
  }

  lemma AddedLater(t: Tables, g: Graph, direct: seq<Card>, j: nat, k: nat, u: Upstream)
    requires j <= k && AddedBy(t, g, direct, j, u)
    ensures AddedBy(t, g, direct, k, u)
  {
  }

  lemma AddedHere(t: Tables, g: Graph, direct: seq<Card>, k: nat, c: Card)
    requires 0 < k <= |direct| && !Goes(g, direct[k-1].asn, Budget(g))
    requires End(g, direct[k-1].asn, Budget(g)) == Found(c)
    ensures AddedBy(t, g, direct, k, Entry(t, c, false)) && c.asn !in g.listed
  {
    EndReached(g, direct[k-1].asn, c);
    hide Goes, At, FirstCard, IspType, End;
  }

  lemma NewIsDistinct(before: seq<Upstream>, u: Upstream)
    requires forall i, j :: 0 <= i < j < |before| ==> before[i].asn != before[j].asn
    requires u.asn !in UpAsns(before)
    ensures var s := before + [u];
            forall i, j :: 0 <= i < j < |s| ==> s[i].asn != s[j].asn
  {
    forall i | 0 <= i < |before| ensures before[i].asn != u.asn {
      assert before[i] in before;
    }
  }

  /** Each direct upstream adds at most one entry. Every entry added is a Tier1
      network reached from that upstream, and repeats no ASN listed before it. */
  lemma {:induction false} IndirectSound(t: Tables, g: Graph, direct: seq<Card>, k: nat)
    requires k <= |direct| && AllHalt(g, direct)
    ensures var extra := Indirect(t, g, direct, k);
            && (k > 0 ==> Indirect(t, g, direct, k - 1) <= extra && |extra| <= |Indirect(t, g, direct, k - 1)| + 1)
            && (forall u :: u in extra ==> u.asn !in g.listed)
            && (forall i, j :: 0 <= i < j < |extra| ==> extra[i].asn != extra[j].asn)
            && (forall u :: u in extra ==> AddedBy(t, g, direct, k, u))
  {
    if k > 0 {
      IndirectSound(t, g, direct, k - 1);
      var before := Indirect(t, g, direct, k - 1);
      var extra := Indirect(t, g, direct, k);
      assert direct[k-1] in direct;
      var end := End(g, direct[k-1].asn, Budget(g));
      hide Goes, At, FirstCard, IspType, End, ReachedFrom, AddedBy;
      forall u | u in before ensures AddedBy(t, g, direct, k, u) {
        AddedLater(t, g, direct, k - 1, k, u);
      }
      if end.Found? && end.card.asn !in UpAsns(before) {
        var u := Entry(t, end.card, false);
        assert extra == before + [u];
        hide Indirect;
        NewIsDistinct(before, u);
        AddedHere(t, g, direct, k, end.card);
      } else {
        assert extra == before;
      }
    }
  }

  lemma {:induction false} EndIs(g: Graph, asn: string, c: Card, k: nat, budget: nat)
    requires Goes(g, asn, k) && Step(g, At(g, asn, k)) == Halt(Found(c)) && !Goes(g, asn, budget)
    ensures End(g, asn, budget) == Found(c)
    decreases k
  {
    if k > 0 {
      EndIs(g, Step(g, asn).asn, c, k - 1, budget - 1);
    }
  }

  lemma ReachedEnds(g: Graph, asn: string, c: Card, n: nat)
    requires ReachedFrom(g, asn, c, n) && !Goes(g, asn, Budget(g))
    ensures End(g, asn, Budget(g)) == Found(c)
  {
    hide End;
    StepAlong(g, At(g, asn, n), c.asn);
    EndIs(g, asn, c, n, Budget(g));
  }

  lemma IndirectTakes(t: Tables, g: Graph, direct: seq<Card>, k: nat)
    requires 0 < k <= |direct| && AllHalt(g, direct)
    ensures var before, extra := UpAsns(Indirect(t, g, direct, k - 1)), UpAsns(Indirect(t, g, direct, k));
            && before <= extra
            && direct[k-1] in direct
            && (End(g, direct[k-1].asn, Budget(g)).Found? ==> End(g, direct[k-1].asn, Budget(g)).card.asn in extra)
  {
    var before, end := Indirect(t, g, direct, k - 1), End(g, direct[k-1].asn, Budget(g));
    hide End, Goes, IspType, UpAsns;
    if end.Found? {
      GrowAsns(before, Entry(t, end.card, false));
    }
  }

  /** And none is missed: every Tier1 network that one of the first k upstreams reaches is there. */
  lemma {:induction false} IndirectComplete(t: Tables, g: Graph, direct: seq<Card>, k: nat, i: nat, c: Card, n: nat)
    requires k <= |direct| && AllHalt(g, direct) && i < k && ReachedFrom(g, direct[i].asn, c, n)
    ensures c.asn in UpAsns(Indirect(t, g, direct, k))
  {
    hide ReachedFrom, End, Goes, Indirect, UpAsns;
    IndirectTakes(t, g, direct, k);
    if i < k - 1 {
      IndirectComplete(t, g, direct, k - 1, i, c, n);
    } else {
      ReachedEnds(g, direct[i].asn, c, n);
    }
  }

  /** The entry of a network: its name and number, whether it is a direct upstream, whether its card has the look of a
      Tier1 network, and the first of the tables that has a name for it, Tier1 tables only for direct Tier1 networks. */
  lemma EntryExactly(t: Tables, c: Card, direct: bool)
    ensures var u, tier1 := Entry(t, c, direct), c.fill == "white" && c.stroke == "#005ea5";
            var has := (m: map<string, string>) => c.asn in m && m[c.asn] != "";
            var top := tier1 && direct && (has(t.tier1Global) || has(t.tier1Regional));
            var other := !top && !(tier1 && !direct);
            && u.asn == c.asn && u.name == c.name && u.direct == direct && u.tier1 == tier1
            && (u.kind == "Tier1 Global" <==> tier1 && direct && has(t.tier1Global))
            && (u.kind == "Tier1 Regional" <==> top && !has(t.tier1Global))
            && (u.kind == "Tier1 Indirect" <==> tier1 && !direct)
            && (u.kind == "Tier2" <==> other && has(t.tier2))
            && (u.kind == "CDN Provider" <==> other && !has(t.tier2) && has(t.content))
            && (u.kind == "IXP" <==> other && !has(t.tier2) && !has(t.content) && has(t.ixps))
            && (other && !has(t.tier2) && !has(t.content) && !has(t.ixps) ==>
                  u.kind == if direct then "Direct" else "Indirect")
  {
    assert "Tier1 Global"[0] != "CDN Provider"[0] && "Tier1 Regional"[6] != "Tier1 Indirect"[6];
  }

  // ----- the code -----

  method SuccessorsOf(edges: seq<Arrow>, asn: string) returns (next: set<string>)
    ensures next == Successors(edges, asn)
  {
    next := {};
    for i := 0 to |edges|
      invariant next == Successors(edges[..i], asn)
    {
      assert edges[..i+1] == edges[..i] + [edges[i]];
      if edges[i].from == asn {
        next := next + {edges[i].to};
      }
    }
    assert edges[..|edges|] == edges;
  }

  method FindCard(nodes: seq<Card>, asn: string) returns (c: Option<Card>)
    ensures c == FirstCard(nodes, asn)
  {
    for i := 0 to |nodes|
      invariant FirstCard(nodes, asn) == FirstCard(nodes[i..], asn)
    {
      if nodes[i].asn == asn {
        return Some(nodes[i]);
      }
      assert nodes[i..][1..] == nodes[i+1..];
    }
    return None;
  }

  lemma ChainGrows(t: Tables, nodes: seq<Card>, edges: seq<Arrow>, ups: seq<Upstream>, c: Card)
    requires IsChain(t, nodes, edges, ups) && FirstCard(nodes, c.asn) == Some(c)
    requires Unique(edges, ups[|ups|-1].asn, c.asn) && c.asn !in UpAsns(ups)
    ensures IsChain(t, nodes, edges, ups + [Entry(t, c, false)])
    ensures UpAsns(ups + [Entry(t, c, false)]) == UpAsns(ups) + {c.asn}
  {
    hide FirstCard, Successors, IspType;
    forall i | 0 <= i < |ups| ensures ups[i].asn != c.asn {
      assert ups[i] in ups;
    }
  }

  /** The chain from a single direct upstream. It ends on every graph: each turn lists a new network. */
  method FollowChain(t: Tables, nodes: seq<Card>, edges: seq<Arrow>, first: Upstream) returns (ups: seq<Upstream>)
    ensures IsChain(t, nodes, edges, ups) && ups[0] == first
    ensures ChainStops(nodes, edges, ups)
  {
    ups := [first];
    var added := {first.asn};
    var current := first.asn;
    while true
      invariant IsChain(t, nodes, edges, ups) && ups[0] == first
      invariant added == UpAsns(ups) && current == ups[|ups|-1].asn
      decreases Asns(nodes) - added
    {
      var next := SuccessorsOf(edges, current);
      if |next| != 1 {
        NoneUnique(edges, current);
        break;
      }
      var nextAsn :| nextAsn in next;
      Singleton(next, nextAsn);
      UniqueIs(edges, current, nextAsn);
      if nextAsn in added {
        break;
      }
      var node := FindCard(nodes, nextAsn);
      if node == None {
        break;
      }
      assert node.value in nodes && nextAsn in Asns(nodes);
      ChainGrows(t, nodes, edges, ups, node.value);
      ups := ups + [Entry(t, node.value, false)];
      added := added + {nextAsn};
      current := nextAsn;
    }
  }

  lemma Singleton<T>(s: set<T>, x: T)
    requires |s| == 1 && x in s
    ensures s == {x}
  {
    assert |s - {x}| == 0;
  }

  lemma UniqueIs(edges: seq<Arrow>, a: string, b: string)
    requires Unique(edges, a, b)
    ensures forall x :: Unique(edges, a, x) ==> x == b
  {
    forall x | Unique(edges, a, x) ensures x == b {
      assert x in Successors(edges, a);
    }
  }

  lemma NoneUnique(edges: seq<Arrow>, a: string)
    requires |Successors(edges, a)| != 1
    ensures forall x :: !Unique(edges, a, x)
  {
  }

  /** One walk of the second branch: the Tier1 network it ends at, unless listed. */
  method WalkToTier1(g: Graph, start: string, added: set<string>) returns (found: Option<Card>)
    requires !Goes(g, start, Budget(g))
    requires g.listed <= added
    requires forall a :: a in added - g.listed ==> FirstCard(g.nodes, a).Some? && IsTier1(FirstCard(g.nodes, a).value)
    ensures found == match End(g, start, Budget(g))
                     case Dead => None
                     case Found(c) => if c.asn in added then None else Some(c)
  {
    var current := start;
    ghost var budget := Budget(g);
    while true
      invariant !Goes(g, current, budget) && End(g, current, budget) == End(g, start, Budget(g))
      decreases budget
    {
      var next := SuccessorsOf(g.edges, current);
      if |next| != 1 {
        NoneUnique(g.edges, current);
        return None;
      }
      var nextAsn :| nextAsn in next;
      Singleton(next, nextAsn);
      StepAlong(g, current, nextAsn);
      if nextAsn in added {
        return None;
      }
      var node := FindCard(g.nodes, nextAsn);
      if node == None {
        return None;
      }
      if IsTier1(node.value) {
        return node;
      }
      current := nextAsn;
      budget := budget - 1;
    }
  }

  /** The second branch: every direct upstream in turn. */
  method AddIndirect(t: Tables, g: Graph, direct: seq<Card>) returns (extra: seq<Upstream>)
    requires AllHalt(g, direct)
    ensures extra == Indirect(t, g, direct, |direct|)
  {
    var added := g.listed;
    extra := [];
    for k := 0 to |direct|
      invariant extra == Indirect(t, g, direct, k)
      invariant added == g.listed + UpAsns(extra)
      invariant forall a :: a in added - g.listed ==> FirstCard(g.nodes, a).Some? && IsTier1(FirstCard(g.nodes, a).value)
    {
      assert direct[k] in direct;
      var found := WalkToTier1(g, direct[k].asn, added);
      ghost var end := End(g, direct[k].asn, Budget(g));
      if end.Found? {
        EndReached(g, direct[k].asn, end.card);
      }
      if found.Some? {
        GrowAsns(extra, Entry(t, found.value, false));
        added := added + {found.value.asn};
        extra := extra + [Entry(t, found.value, false)];
      }
    }
  }

  lemma GrowAsns(ups: seq<Upstream>, u: Upstream)
    ensures UpAsns(ups + [u]) == UpAsns(ups) + {u.asn}
  {
  }

  method FindUpstreams(t: Tables, target: string, nodes: seq<Card>, edges: seq<Arrow>) returns (ups: seq<Upstream>)
    requires |Direct(target, nodes, edges)| > 1 ==> AllHalt(GraphOf(target, nodes, edges), Direct(target, nodes, edges))
    ensures var d := Direct(target, nodes, edges);
            if d == [] then ups == []
            else if |d| == 1 then
              && IsChain(t, nodes, edges, ups) && ChainStops(nodes, edges, ups)
              && ups[0] == Entry(t, d[0], true)
            else ups == DirectEntries(t, d) + Indirect(t, GraphOf(target, nodes, edges), d, |d|)
  {
    var upstreamSet := SuccessorsOf(edges, target);
    ghost var keep := (n: Card) => n.asn in Successors(edges, target);
    var direct: seq<Card> := [];
    var added: set<string> := {};
    for i := 0 to |nodes|
      invariant direct == Filter(nodes[..i], keep) && added == Asns(direct)
    {
      FilterStep(nodes, i, keep);
      if nodes[i].asn in upstreamSet {
        assert Asns(direct + [nodes[i]]) == Asns(direct) + {nodes[i].asn};
        direct := direct + [nodes[i]];
        added := added + {nodes[i].asn};
      }
    }
    assert nodes[..|nodes|] == nodes;
    ups := DirectEntries(t, direct);
    if |ups| == 1 {
      ups := FollowChain(t, nodes, edges, ups[0]);
    } else if |ups| > 1 {
      var extra := AddIndirect(t, Graph(nodes, edges, added), direct);
      ups := ups + extra;
    }
  }
}
