/** From the stream of replies to the list of hops: group by distance and by
    node, sort by distance, then collapse the run of hops that show only the target. */
module Hops {
  import opened Lists
  import opened Sorting
  import opened Tracing

  datatype Node = Node(ip: IP, rtts: seq<int>)

  datatype Hop = Hop(distance: int, nodes: seq<Node>)

  ghost predicate ValidHop(h: Hop) {
    h.nodes != [] && forall i, j :: 0 <= i < j < |h.nodes| ==> h.nodes[i].ip != h.nodes[j].ip
  }

  ghost predicate ValidTable(hops: seq<Hop>) {
    && (forall h :: h in hops ==> ValidHop(h))
    && (forall i, j :: 0 <= i < j < |hops| ==> hops[i].distance != hops[j].distance)
  }

  ghost predicate Increasing(hops: seq<Hop>) {
    forall i, j :: 0 <= i < j < |hops| ==> hops[i].distance < hops[j].distance
  }

  // ----- accounting: every RTT in the table, seen through a key of (distance, ip, rtt) -----

  ghost function NodeBag<K>(d: int, n: Node, key: (int, IP, int) -> K): multiset<K> {
    multiset(Map(n.rtts, x => key(d, n.ip, x)))
  }

  ghost function NodesBag<K>(d: int, nodes: seq<Node>, key: (int, IP, int) -> K): multiset<K> {
    if nodes == [] then multiset{}
    else NodesBag(d, nodes[..|nodes|-1], key) + NodeBag(d, nodes[|nodes|-1], key)
  }

  ghost function TableBag<K>(hops: seq<Hop>, key: (int, IP, int) -> K): multiset<K> {
    if hops == [] then multiset{}
    else TableBag(hops[..|hops|-1], key) + NodesBag(hops[|hops|-1].distance, hops[|hops|-1].nodes, key)
  }

  ghost function ReplyBag<K>(rs: seq<Reply>, key: (int, IP, int) -> K): multiset<K> {
    multiset(Map(rs, (r: Reply) => key(r.hops, r.ip, r.rtt)))
  }

  /** The bag of a node or of replies, given its elements listed. */
  lemma NodeBagListed<K>(d: int, n: Node, key: (int, IP, int) -> K, listed: seq<K>)
    requires |listed| == |n.rtts| && forall i :: 0 <= i < |listed| ==> listed[i] == key(d, n.ip, n.rtts[i])
    ensures NodeBag(d, n, key) == multiset(listed)
  {
    assert Map(n.rtts, x => key(d, n.ip, x)) == listed;
  }

  lemma ReplyBagListed<K>(rs: seq<Reply>, key: (int, IP, int) -> K, listed: seq<K>)
    requires |listed| == |rs| && forall i :: 0 <= i < |rs| ==> listed[i] == key(rs[i].hops, rs[i].ip, rs[i].rtt)
    ensures ReplyBag(rs, key) == multiset(listed)
  {
    assert Map(rs, (r: Reply) => key(r.hops, r.ip, r.rtt)) == listed;
  }

  lemma {:induction false} NodesBagConcat<K>(d: int, a: seq<Node>, b: seq<Node>, key: (int, IP, int) -> K)
    ensures NodesBag(d, a + b, key) == NodesBag(d, a, key) + NodesBag(d, b, key)
  {
    hide NodeBag;
    if b == [] {
      assert a + b == a;
    } else {
      NodesBagConcat(d, a, b[..|b|-1], key);
      assert (a + b)[..|a + b|-1] == a + b[..|b|-1];
    }
  }

  lemma {:induction false} TableBagConcat<K>(a: seq<Hop>, b: seq<Hop>, key: (int, IP, int) -> K)
    ensures TableBag(a + b, key) == TableBag(a, key) + TableBag(b, key)
  {
    hide NodesBag;
    if b == [] {
      assert a + b == a;
    } else {
      TableBagConcat(a, b[..|b|-1], key);
      assert (a + b)[..|a + b|-1] == a + b[..|b|-1];
    }
  }

  lemma OneNodeBag<K>(d: int, n: Node, key: (int, IP, int) -> K)
    ensures NodesBag(d, [n], key) == NodeBag(d, n, key)
  {
    assert [n][..0] == [];
  }

  lemma OneHopBag<K>(h: Hop, key: (int, IP, int) -> K)
    ensures TableBag([h], key) == NodesBag(h.distance, h.nodes, key)
  {
    assert [h][..0] == [];
  }

  lemma TableBagDrop<K>(hops: seq<Hop>, j: nat, key: (int, IP, int) -> K)
    requires j < |hops|
    ensures TableBag(hops, key) == TableBag(hops[..j] + hops[j+1..], key) + TableBag([hops[j]], key)
  {
    hide TableBag, NodesBag;
    var l, x, r := hops[..j], hops[j], hops[j+1..];
    assert hops == l + ([x] + r);
    TableBagConcat(l, [x] + r, key);
    TableBagConcat([x], r, key);
    TableBagConcat(l, r, key);
  }

  lemma {:induction false} TableBagPermuted<K>(a: seq<Hop>, b: seq<Hop>, key: (int, IP, int) -> K)
    requires multiset(a) == multiset(b)
    ensures TableBag(a, key) == TableBag(b, key)
    decreases |a|
  {
    hide TableBag, NodesBag;
    if a == [] {
      EmptyBag(b);
    } else {
      var j := SameWithout(a, b);
      TableBagDrop(a, |a|-1, key);
      TableBagDrop(b, j, key);
      assert a[..|a|-1] + a[|a|..] == a[..|a|-1];
      TableBagPermuted(a[..|a|-1], b[..j] + b[j+1..], key);
    }
  }

  // ----- adding a reply -----

  function FindNode(nodes: seq<Node>, ip: IP): (i: nat)
    ensures i <= |nodes|
    ensures i < |nodes| ==> nodes[i].ip == ip
    ensures forall j :: 0 <= j < i ==> nodes[j].ip != ip
  {
    if nodes == [] || nodes[0].ip == ip then 0 else 1 + FindNode(nodes[1..], ip)
  }

  function FindHop(hops: seq<Hop>, d: int): (i: nat)
    ensures i <= |hops|
    ensures i < |hops| ==> hops[i].distance == d
    ensures forall j :: 0 <= j < i ==> hops[j].distance != d
  {
    if hops == [] || hops[0].distance == d then 0 else 1 + FindHop(hops[1..], d)
  }

  function NodesWith(nodes: seq<Node>, r: Reply): seq<Node> {
    var i := FindNode(nodes, r.ip);
    if i < |nodes| then nodes[i := Node(r.ip, nodes[i].rtts + [r.rtt])] else nodes + [Node(r.ip, [r.rtt])]
  }

  function TableWith(hops: seq<Hop>, r: Reply): seq<Hop> {
    var i := FindHop(hops, r.hops);
    if i < |hops| then hops[i := Hop(r.hops, NodesWith(hops[i].nodes, r))]
    else hops + [Hop(r.hops, NodesWith([], r))]
  }

  function TableOf(rs: seq<Reply>): seq<Hop> {
    if rs == [] then [] else TableWith(TableOf(rs[..|rs|-1]), rs[|rs|-1])
  }

  lemma NodeWithBag<K>(d: int, ip: IP, rtts: seq<int>, x: int, key: (int, IP, int) -> K)
    ensures NodeBag(d, Node(ip, rtts + [x]), key) == NodeBag(d, Node(ip, rtts), key) + multiset{key(d, ip, x)}
  {
    var f := y => key(d, ip, y);
    assert Map(rtts + [x], f) == Map(rtts, f) + [key(d, ip, x)];
  }

  lemma NodesWithBag<K>(nodes: seq<Node>, r: Reply, key: (int, IP, int) -> K)
    ensures NodesBag(r.hops, NodesWith(nodes, r), key) == NodesBag(r.hops, nodes, key) + multiset{key(r.hops, r.ip, r.rtt)}
  {
    var d, i := r.hops, FindNode(nodes, r.ip);
    hide NodeBag, NodesBag;
    if i < |nodes| {
      var n, m := nodes[i], Node(r.ip, nodes[i].rtts + [r.rtt]);
      NodesBagReplaced(d, nodes, i, m, key);
      NodeWithBag(d, r.ip, n.rtts, r.rtt, key);
      assert n == Node(r.ip, n.rtts);
      BagCancel(NodesBag(d, nodes[i := m], key), NodesBag(d, nodes, key), NodeBag(d, n, key),
                multiset{key(r.hops, r.ip, r.rtt)});
    } else {
      var n := Node(r.ip, [] + [r.rtt]);
      assert n == Node(r.ip, [r.rtt]);
      NodesBagConcat(d, nodes, [n], key);
      OneNodeBag(d, n, key);
      NodeWithBag(d, r.ip, [], r.rtt, key);
      EmptyNodeBag(d, r.ip, key);
    }
  }

  lemma EmptyNodeBag<K>(d: int, ip: IP, key: (int, IP, int) -> K)
    ensures NodeBag(d, Node(ip, []), key) == multiset{}
  {
    assert Map([], x => key(d, ip, x)) == [];
  }

  lemma NodesBagReplaced<K>(d: int, nodes: seq<Node>, i: nat, m: Node, key: (int, IP, int) -> K)
    requires i < |nodes|
    ensures NodesBag(d, nodes[i := m], key) + NodeBag(d, nodes[i], key) == NodesBag(d, nodes, key) + NodeBag(d, m, key)
  {
    hide NodeBag, NodesBag;
    var a, b := nodes[..i], nodes[i+1..];
    assert nodes == a + ([nodes[i]] + b) && nodes[i := m] == a + ([m] + b);
    NodesBagConcat(d, a, [nodes[i]] + b, key);
    NodesBagConcat(d, [nodes[i]], b, key);
    NodesBagConcat(d, a, [m] + b, key);
    NodesBagConcat(d, [m], b, key);
    OneNodeBag(d, nodes[i], key);
    OneNodeBag(d, m, key);
  }

  lemma NoNodesBag<K>(d: int, key: (int, IP, int) -> K)
    ensures NodesBag(d, [], key) == multiset{}
  {
  }

  /** Replacing one hop exchanges its bag. */
  lemma TableBagReplaced<K>(hops: seq<Hop>, i: nat, h: Hop, key: (int, IP, int) -> K)
    returns (rest: multiset<K>)
    requires i < |hops|
    ensures TableBag(hops, key) == rest + NodesBag(hops[i].distance, hops[i].nodes, key)
    ensures TableBag(hops[i := h], key) == rest + NodesBag(h.distance, h.nodes, key)
  {
    hide NodesBag, TableBag;
    var a, b := hops[..i], hops[i+1..];
    assert hops == a + ([hops[i]] + b) && hops[i := h] == a + ([h] + b);
    TableBagConcat(a, [hops[i]] + b, key);
    TableBagConcat([hops[i]], b, key);
    TableBagConcat(a, [h] + b, key);
    TableBagConcat([h], b, key);
    OneHopBag(hops[i], key);
    OneHopBag(h, key);
    rest := TableBag(a, key) + TableBag(b, key);
  }

  lemma TableWithBag<K>(hops: seq<Hop>, r: Reply, key: (int, IP, int) -> K)
    ensures TableBag(TableWith(hops, r), key) == TableBag(hops, key) + multiset{key(r.hops, r.ip, r.rtt)}
  {
    hide NodesBag, TableBag, NodesWith;
    var i := FindHop(hops, r.hops);
    if i < |hops| {
      var rest := TableBagReplaced(hops, i, Hop(r.hops, NodesWith(hops[i].nodes, r)), key);
      NodesWithBag(hops[i].nodes, r, key);
    } else {
      var h := Hop(r.hops, NodesWith([], r));
      TableBagConcat(hops, [h], key);
      OneHopBag(h, key);
      NodesWithBag([], r, key);
      NoNodesBag(r.hops, key);
    }
  }

  lemma TableWithValid(hops: seq<Hop>, r: Reply)
    requires ValidTable(hops)
    ensures ValidTable(TableWith(hops, r))
  {
    var i := FindHop(hops, r.hops);
    if i < |hops| {
      assert hops[i] in hops;
      assert ValidHop(TableWith(hops, r)[i]);
    }
  }

  /** The table built from a stream of replies: distinct distances, distinct
      nodes in each hop, and every reply filed once under its own distance and node. */
  lemma {:induction false} TableOfReplies<K>(rs: seq<Reply>, key: (int, IP, int) -> K)
    ensures ValidTable(TableOf(rs))
    ensures TableBag(TableOf(rs), key) == ReplyBag(rs, key)
  {
    if rs != [] {
      var front, r := rs[..|rs|-1], rs[|rs|-1];
      TableOfReplies(front, key);
      ReplyBagStep(front, r, key);
      assert rs == front + [r];
      hide ReplyBag, TableBag, ValidTable, TableWith;
      TableWithValid(TableOf(front), r);
      TableWithBag(TableOf(front), r, key);
    }
  }

  lemma ReplyBagStep<K>(front: seq<Reply>, r: Reply, key: (int, IP, int) -> K)
    ensures ReplyBag(front + [r], key) == ReplyBag(front, key) + multiset{key(r.hops, r.ip, r.rtt)}
  {
    var f := (q: Reply) => key(q.hops, q.ip, q.rtt);
    assert Map(front + [r], f) == Map(front, f) + [key(r.hops, r.ip, r.rtt)];
  }

  // ----- the order inside a hop -----

  /** The nodes filed under a distance, and the RTTs filed under an address among them. */
  function NodesAt(hops: seq<Hop>, d: int): seq<Node> {
    var i := FindHop(hops, d);
    if i < |hops| then hops[i].nodes else []
  }

  function RttsAt(nodes: seq<Node>, ip: IP): seq<int> {
    var i := FindNode(nodes, ip);
    if i < |nodes| then nodes[i].rtts else []
  }

  function Addresses(nodes: seq<Node>): (ips: seq<IP>) {
    Map(nodes, (n: Node) => n.ip)
  }

  lemma FindHopAt(hops: seq<Hop>, d: int, i: nat)
    requires i <= |hops| && (i < |hops| ==> hops[i].distance == d) && forall j :: 0 <= j < i ==> hops[j].distance != d
    ensures FindHop(hops, d) == i
  {
    assert i < |hops| ==> FindHop(hops, d) <= i;
  }

  lemma FindNodeAt(nodes: seq<Node>, ip: IP, i: nat)
    requires i <= |nodes| && (i < |nodes| ==> nodes[i].ip == ip) && forall j :: 0 <= j < i ==> nodes[j].ip != ip
    ensures FindNode(nodes, ip) == i
  {
    assert i < |nodes| ==> FindNode(nodes, ip) <= i;
  }

  lemma NodesAtStep(hops: seq<Hop>, r: Reply, d: int)
    ensures NodesAt(TableWith(hops, r), d) == if d == r.hops then NodesWith(NodesAt(hops, d), r) else NodesAt(hops, d)
  {
    var after, i := TableWith(hops, r), FindHop(hops, d);
    hide NodesWith, FindHop;
    FindHopAt(after, d, if i == |hops| && d != r.hops then |after| else i);
  }

  lemma NodesWithStep(nodes: seq<Node>, r: Reply, ip: IP)
    ensures RttsAt(NodesWith(nodes, r), ip) == RttsAt(nodes, ip) + (if ip == r.ip then [r.rtt] else [])
    ensures Addresses(nodes) <= Addresses(NodesWith(nodes, r))
  {
    var after, i := NodesWith(nodes, r), FindNode(nodes, ip);
    hide FindNode;
    FindNodeAt(after, ip, if i == |nodes| && ip != r.ip then |after| else i);
  }

  /** The RTTs under a distance and an address are those of the replies with both, in the order of the replies. */
  lemma {:induction false} RepliesInOrder(rs: seq<Reply>, d: int, ip: IP)
    ensures RttsAt(NodesAt(TableOf(rs), d), ip) ==
            Map(Filter(rs, (r: Reply) => r.hops == d && r.ip == ip), (r: Reply) => r.rtt)
  {
    hide TableWith, NodesWith, NodesAt, RttsAt;
    if rs == [] {
      assert RttsAt(NodesAt([], d), ip) == [] by { NothingFiled(d, ip); }
    } else {
      var front, r := rs[..|rs|-1], rs[|rs|-1];
      RepliesInOrder(front, d, ip);
      NodesAtStep(TableOf(front), r, d);
      NodesWithStep(NodesAt(TableOf(front), d), r, ip);
    }
  }

  lemma NothingFiled(d: int, ip: IP)
    ensures RttsAt(NodesAt([], d), ip) == []
  {
  }

  /** Later replies only add nodes after those of earlier ones: the nodes are in order of first reply. */
  lemma {:induction false} NodesInOrder(rs: seq<Reply>, more: seq<Reply>, d: int)
    ensures Addresses(NodesAt(TableOf(rs), d)) <= Addresses(NodesAt(TableOf(rs + more), d))
  {
    hide TableWith, NodesWith, NodesAt, Addresses;
    if more == [] {
      assert rs + more == rs;
    } else {
      var all, r := rs + more[..|more|-1], more[|more|-1];
      NodesInOrder(rs, more[..|more|-1], d);
      assert (rs + more)[..|rs + more|-1] == all && (rs + more)[|rs + more|-1] == r;
      NodesAtStep(TableOf(all), r, d);
      NodesWithStep(NodesAt(TableOf(all), d), r, r.ip);
    }
  }

  // ----- collapsing the tail -----

  predicate TargetOnly(h: Hop, target: IP) {
    |h.nodes| == 1 && h.nodes[0].ip == target
  }

  /** How many hops come before the trailing run of target-only hops. */
  function BeforeTail(hops: seq<Hop>, target: IP): (k: nat)
    ensures k <= |hops|
    ensures k > 0 ==> !TargetOnly(hops[k-1], target)
    ensures forall j :: k <= j < |hops| ==> TargetOnly(hops[j], target)
  {
    if hops == [] then 0
    else if TargetOnly(hops[|hops|-1], target) then BeforeTail(hops[..|hops|-1], target)
    else |hops|
  }

  function FirstRtts(h: Hop): seq<int> {
    if h.nodes == [] then [] else h.nodes[0].rtts
  }

  function TailRtts(hops: seq<Hop>): seq<int> {
    if hops == [] then [] else TailRtts(hops[..|hops|-1]) + FirstRtts(hops[|hops|-1])
  }

  /** What the tail loop leaves. If every hop is target-only it never reaches
      the collapsing branch, and the hops stay as they are. */
  function Collapsed(hops: seq<Hop>, target: IP): seq<Hop> {
    var k := BeforeTail(hops, target);
    if k == 0 || k == |hops| then hops
    else hops[..k] + [Hop(hops[k].distance, [Node(target, TailRtts(hops[k..]))])]
  }

  lemma {:induction false} TailBag'<K>(tail: seq<Hop>, d: int, target: IP, key: (int, IP, int) -> K)
    requires forall h :: h in tail ==> TargetOnly(h, target)
    requires forall d1, d2, ip, x :: key(d1, ip, x) == key(d2, ip, x)
    ensures TableBag(tail, key) == NodeBag(d, Node(target, TailRtts(tail)), key)
  {
    if tail != [] {
      var front, h := tail[..|tail|-1], tail[|tail|-1];
      assert h in tail;
      TailBag'(front, d, target, key);
      OneNodeBag(h.distance, h.nodes[0], key);
      assert h.nodes == [h.nodes[0]];
      var f := x => key(d, target, x);
      assert Map(h.nodes[0].rtts, x => key(h.distance, target, x)) == Map(h.nodes[0].rtts, f);
      assert Map(TailRtts(tail), f) == Map(TailRtts(front), f) + Map(h.nodes[0].rtts, f);
    }
  }

  lemma CollapseBag<K>(hops: seq<Hop>, target: IP, key: (int, IP, int) -> K)
    requires forall d1, d2, ip, x :: key(d1, ip, x) == key(d2, ip, x)
    ensures TableBag(Collapsed(hops, target), key) == TableBag(hops, key)
  {
    var k := BeforeTail(hops, target);
    if 0 < k < |hops| {
      var tail := hops[k..];
      var merged := Hop(hops[k].distance, [Node(target, TailRtts(tail))]);
      forall h | h in tail ensures TargetOnly(h, target) {
        var i :| 0 <= i < |tail| && tail[i] == h;
        assert hops[k + i] == h;
      }
      TailBag'(tail, merged.distance, target, key);
      hide TableBag, NodesBag, NodeBag;
      OneHopBag(merged, key);
      OneNodeBag(merged.distance, merged.nodes[0], key);
      assert hops == hops[..k] + tail;
      TableBagConcat(hops[..k], tail, key);
      TableBagConcat(hops[..k], [merged], key);
    }
  }

  lemma {:induction false} TailRttsConcat(hops: seq<Hop>, more: seq<Hop>)
    ensures TailRtts(hops + more) == TailRtts(hops) + TailRtts(more)
  {
    hide FirstRtts;
    if more == [] {
      assert hops + more == hops;
    } else {
      TailRttsConcat(hops, more[..|more|-1]);
      assert (hops + more)[..|hops + more|-1] == hops + more[..|more|-1];
    }
  }

  /** The merged hop holds the RTTs of the tail in the order of its hops. */
  lemma TailInOrder(tail: seq<Hop>, i: nat)
    requires i < |tail| && tail[i].nodes != []
    ensures TailRtts(tail) == TailRtts(tail[..i]) + tail[i].nodes[0].rtts + TailRtts(tail[i+1..])
  {
    hide TailRtts;
    assert tail == tail[..i] + [tail[i]] + tail[i+1..];
    TailRttsConcat(tail[..i] + [tail[i]], tail[i+1..]);
    TailRttsConcat(tail[..i], [tail[i]]);
    assert TailRtts([tail[i]]) == tail[i].nodes[0].rtts by { TailOfOne(tail[i]); }
  }

  lemma TailOfOne(h: Hop)
    requires h.nodes != []
    ensures TailRtts([h]) == h.nodes[0].rtts
  {
    assert [h][..0] == [];
  }

  /** Collapsing keeps the table valid and in order and every hop before the tail
      as it was. It leaves at most one target-only hop at the end exactly when
      some hop is not target-only, or there was at most one hop anyway. */
  lemma CollapseShape(hops: seq<Hop>, target: IP)
    requires ValidTable(hops) && Increasing(hops)
    ensures var c, k := Collapsed(hops, target), BeforeTail(hops, target);
            && ValidTable(c) && Increasing(c)
            && k <= |c| && c[..k] == hops[..k]
            && (|c| <= k + 1 <==> (exists h :: h in hops && !TargetOnly(h, target)) || |hops| <= 1)
            && (forall j :: k <= j < |c| ==> TargetOnly(c[j], target))
            && (k < |hops| ==> k < |c| && c[k].distance == hops[k].distance)
            && (k == 0 || k == |hops| ==> c == hops)
  {
    var k := BeforeTail(hops, target);
    var c := Collapsed(hops, target);
    if k > 0 {
      assert hops[k-1] in hops;
    }
    if 0 < k < |hops| {
      var merged := Hop(hops[k].distance, [Node(target, TailRtts(hops[k..]))]);
      hide TailRtts, BeforeTail;
      MergedLast(hops, k, merged);
    }
  }

  lemma MergedLast(hops: seq<Hop>, k: nat, merged: Hop)
    requires ValidTable(hops) && Increasing(hops) && k < |hops|
    requires ValidHop(merged) && merged.distance == hops[k].distance
    ensures ValidTable(hops[..k] + [merged]) && Increasing(hops[..k] + [merged])
  {
    var c := hops[..k] + [merged];
    forall h | h in c ensures ValidHop(h) {
      assert h == merged || h in hops[..k];
      assert h in hops[..k] ==> h in hops;
    }
  }

  // ----- the code -----

  function ByDistance(): (Hop, Hop) -> bool {
    (a: Hop, b: Hop) => a.distance <= b.distance
  }

  lemma ByDistanceOrders(hops: seq<Hop>)
    requires ValidTable(hops)
    ensures var s := Sort(hops, ByDistance());
            ValidTable(s) && Increasing(s) && multiset(s) == multiset(hops)
    ensures forall s :: multiset(s) == multiset(hops) && Ordered(s, ByDistance()) ==> s == Sort(hops, ByDistance())
  {
    SortSorts(hops, ByDistance());
    var s := Sort(hops, ByDistance());
    assert forall x, y :: x in hops && y in hops && x.distance == y.distance ==> x == y;
    DistinctTransfers(hops, s);
    forall i, j | 0 <= i < j < |s| ensures s[i].distance < s[j].distance {
      assert ByDistance()(s[i], s[j]) && s[i] in s && s[j] in s;
    }
    forall t | multiset(t) == multiset(hops) && Ordered(t, ByDistance()) ensures t == s {
      OrderedUnique(s, t, ByDistance());
    }
  }

  lemma DistinctTransfers(a: seq<Hop>, b: seq<Hop>)
    requires ValidTable(a) && multiset(a) == multiset(b)
    ensures ValidTable(b)
  {
    forall h | h in b ensures h in a {
      assert h in multiset(b);
    }
    KeysStayDistinct(b, a, (h: Hop) => h.distance);
  }

  class HopTable {
    var hops: seq<Hop>

    constructor ()
      ensures hops == []
    {
      hops := [];
    }

    /** The callback: find or create the hop of this distance, then add the reply to it. */
    method Add(r: Reply)
      modifies this
      ensures hops == TableWith(old(hops), r)
    {
      var i := Touch(r.hops);
      var nodes := hops[i].nodes;
      ghost var was := nodes;
      var j := 0;
      while j < |nodes| && nodes[j].ip != r.ip
        invariant j <= |nodes|
        invariant forall k :: 0 <= k < j ==> nodes[k].ip != r.ip
      {
        j := j + 1;
      }
      assert j == FindNode(was, r.ip);
      if j == |nodes| {
        nodes := nodes + [Node(r.ip, [])];
        assert nodes[j].rtts + [r.rtt] == [r.rtt];
      }
      nodes := nodes[j := nodes[j].(rtts := nodes[j].rtts + [r.rtt])];
      assert nodes == NodesWith(was, r);
      hops := hops[i := hops[i].(nodes := nodes)];
      assert hops == TableWith(old(hops), r);
    }

    method Touch(dist: int) returns (i: nat)
      modifies this
      ensures i == FindHop(old(hops), dist) && i < |hops|
      ensures hops == if i < |old(hops)| then old(hops) else old(hops) + [Hop(dist, [])]
    {
      i := 0;
      while i < |hops|
        invariant i <= |hops| && hops == old(hops)
        invariant forall k :: 0 <= k < i ==> hops[k].distance != dist
      {
        if hops[i].distance == dist {
          return;
        }
        i := i + 1;
      }
      hops := hops + [Hop(dist, [])];
    }

    /** The loop over the tail, with its in-place append and truncation. */
    method CollapseTail(target: IP)
      requires ValidTable(hops)
      modifies this
      ensures hops == Collapsed(old(hops), target)
    {
      var last := |hops| - 1;
      var i := last;
      while i >= 0
        invariant -1 <= i <= last && last == |hops| - 1 && hops == old(hops)
        invariant forall j :: i < j <= last ==> TargetOnly(hops[j], target)
        invariant BeforeTail(hops, target) <= i + 1
      {
        var h := hops[i];
        if |h.nodes| == 1 && h.nodes[0].ip == target {
          i := i - 1;
          continue;
        }
        assert BeforeTail(hops, target) == i + 1;
        if i == last {
          return;
        }
        MergeFrom(i + 1, target);
        return;
      }
    }

    method MergeFrom(first: nat, target: IP)
      requires first < |hops|
      requires forall j :: first <= j < |hops| ==> TargetOnly(hops[j], target)
      modifies this
      ensures hops == old(hops)[..first] + [Hop(old(hops)[first].distance, [Node(target, TailRtts(old(hops)[first..]))])]
    {
      var tail := hops[first..];
      var node := hops[first].nodes[0];
      assert tail[..1] == [hops[first]] && tail[..1][..0] == [];
      for k := 1 to |tail|
        invariant node == Node(target, TailRtts(tail[..k]))
      {
        node := node.(rtts := node.rtts + tail[k].nodes[0].rtts);
        assert tail[..k+1][..k] == tail[..k];
        assert TargetOnly(hops[first + k], target);
      }
      assert tail[..|tail|] == tail;
      hops := hops[..first] + [Hop(hops[first].distance, [node])];
    }
  }

  datatype TraceError = NoError | DeadlineExceeded | OtherError

  /** The hops a trace returns for its replies. */
  function TracedHops(replies: seq<Reply>, target: IP): seq<Hop> {
    Collapsed(Sort(TableOf(replies), ByDistance()), target)
  }

  /** They count every reply exactly once, under any key that does not look at the distance. */
  lemma TracedBag<K>(replies: seq<Reply>, target: IP, key: (int, IP, int) -> K)
    requires forall d1, d2, ip, x :: key(d1, ip, x) == key(d2, ip, x)
    ensures TableBag(TracedHops(replies, target), key) == ReplyBag(replies, key)
  {
    TableOfReplies(replies, key);
    ByDistanceOrders(TableOf(replies));
    hide TableBag, ReplyBag, Sort, TableOf, ByDistance, ValidTable, Increasing, Collapsed;
    TableBagPermuted(TableOf(replies), Sort(TableOf(replies), ByDistance()), key);
    CollapseBag(Sort(TableOf(replies), ByDistance()), target, key);
  }

  /** The address and RTT of a reply. */
  function ReplyKey(): (int, IP, int) -> (IP, int) {
    (d: int, ip: IP, rtt: int) => (ip, rtt)
  }

  /** The RTT alone. */
  function RttKey(): (int, IP, int) -> int {
    (d: int, ip: IP, rtt: int) => rtt
  }

  /** TraceContext, given the replies the trace delivered and how it ended: a
      deadline still yields the hops, any other error yields none. */
  method TraceContext(replies: seq<Reply>, err: TraceError, target: IP) returns (result: Option<seq<Hop>>)
    ensures result == None <==> err == OtherError
    ensures result.Some? ==> result.value == TracedHops(replies, target)
    ensures result.Some? ==> ValidTable(result.value) && Increasing(result.value)
    ensures result.Some? ==> TableBag(result.value, ReplyKey()) == ReplyBag(replies, ReplyKey())
  {
    var table := new HopTable();
    for i := 0 to |replies|
      invariant table.hops == TableOf(replies[..i])
    {
      assert replies[..i+1][..i] == replies[..i];
      table.Add(replies[i]);
    }
    assert replies[..|replies|] == replies;
    if err == OtherError {
      return None;
    }
    TableOfReplies(replies, ReplyKey());
    ByDistanceOrders(table.hops);
    table.hops := Sort(table.hops, ByDistance());
    TracedBag(replies, target, ReplyKey());
    CollapseShape(table.hops, target);
    table.CollapseTail(target);
    result := Some(table.hops);
  }
}
