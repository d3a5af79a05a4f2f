/** Probes, answers and the two stateful objects of the traceroute engine: the
    shared tracer (wrapping probe counter, session registry) and the session
    (pending probes filtered in place, bounded reply channel). */
module Tracing {
  import opened Lists

  const ID_SPACE: nat := 0x1_0000
  const COUNTER_SPACE: nat := 0x1_0000_0000
  const CHANNEL_CAPACITY: nat := 64

  /** An address in short form: IPv4 (also IPv4-mapped) or proper IPv6. */
  datatype IP = V4(bits: nat) | V6(bits: nat)

  /** A probe that was sent. `serial` is how many probes the tracer had issued by
      then, without wrap-around; no code reads it, it names the probe in proofs. */
  datatype Probe = Probe(id: nat, ttl: int, time: int, serial: nat)

  /** A decoded answer from the network. */
  datatype Answer = Answer(ip: IP, id: nat, ttl: int, time: int)

  datatype Reply = Reply(ip: IP, rtt: int, hops: int)

  predicate Expired(p: Probe, res: Answer, timeout: int) {
    res.time - p.time > timeout
  }

  /** IPv6 answers match every probe. */
  predicate Matches(p: Probe, res: Answer) {
    p.id == res.id || res.ip.V6?
  }

  function Kept(probes: seq<Probe>, res: Answer, timeout: int): seq<Probe> {
    Filter(probes, p => !Expired(p, res, timeout) && !Matches(p, res))
  }

  function Hit(probes: seq<Probe>, res: Answer, timeout: int): seq<Probe> {
    Filter(probes, p => !Expired(p, res, timeout) && Matches(p, res))
  }

  function Dropped(probes: seq<Probe>, res: Answer, timeout: int): seq<Probe> {
    Filter(probes, p => Expired(p, res, timeout))
  }

  function MakeReply(req: Probe, res: Answer): Reply {
    var hops := req.ttl - res.ttl + 1;
    Reply(res.ip, res.time - req.time, if hops < 1 then 1 else hops)
  }

  /** The non-blocking send on a session's channel. */
  function Offer(ch: seq<Reply>, r: Reply): seq<Reply> {
    if |ch| < CHANNEL_CAPACITY then ch + [r] else ch
  }

  /** The reply of a handle call: the last matching probe answers. */
  function ReplyOf(probes: seq<Probe>, res: Answer, timeout: int): Option<Reply> {
    var hit := Hit(probes, res, timeout);
    if hit == [] then None else Some(MakeReply(hit[|hit|-1], res))
  }

  /** The channel after a whole handle call. */
  function ChannelAfter(probes: seq<Probe>, ch: seq<Reply>, res: Answer, timeout: int): seq<Reply> {
    var reply := ReplyOf(probes, res, timeout);
    if reply == None then ch else Offer(ch, reply.value)
  }

  /** Every probe handed to handle goes exactly one way. */
  lemma {:induction false} HandlePartitions(probes: seq<Probe>, res: Answer, timeout: int)
    ensures multiset(probes) == multiset(Kept(probes, res, timeout))
                                + multiset(Hit(probes, res, timeout))
                                + multiset(Dropped(probes, res, timeout))
  {
    if probes != [] {
      var front, last := probes[..|probes|-1], probes[|probes|-1];
      HandlePartitions(front, res, timeout);
      assert probes == front + [last];
    }
  }

  /** The three groups, as sets: a probe expires when more than the timeout has passed; one that has not is matched
      by an answer with its id, or by any IPv6 answer, and otherwise kept. */
  lemma HandleGroups(probes: seq<Probe>, res: Answer, timeout: int)
    ensures forall p :: p in Kept(probes, res, timeout) <==>
              p in probes && res.time - p.time <= timeout && p.id != res.id && !res.ip.V6?
    ensures forall p :: p in Hit(probes, res, timeout) <==>
              p in probes && res.time - p.time <= timeout && (p.id == res.id || res.ip.V6?)
    ensures forall p :: p in Dropped(probes, res, timeout) <==> p in probes && res.time - p.time > timeout
  {
    FilterMembers(probes, p => !Expired(p, res, timeout) && !Matches(p, res));
    FilterMembers(probes, p => !Expired(p, res, timeout) && Matches(p, res));
    FilterMembers(probes, p => Expired(p, res, timeout));
  }

  /** The groups keep the order of the list. */
  lemma GroupsInOrder(probes: seq<Probe>, more: seq<Probe>, res: Answer, timeout: int)
    ensures Kept(probes + more, res, timeout) == Kept(probes, res, timeout) + Kept(more, res, timeout)
    ensures Hit(probes + more, res, timeout) == Hit(probes, res, timeout) + Hit(more, res, timeout)
  {
    FilterConcat(probes, more, p => !Expired(p, res, timeout) && !Matches(p, res));
    FilterConcat(probes, more, p => !Expired(p, res, timeout) && Matches(p, res));
  }

  /** An IPv6 answer leaves no pending probe behind. */
  lemma IPv6AnswerEmpties(probes: seq<Probe>, res: Answer, timeout: int)
    requires res.ip.V6?
    ensures Kept(probes, res, timeout) == []
    ensures multiset(probes) == multiset(Hit(probes, res, timeout)) + multiset(Dropped(probes, res, timeout))
  {
    HandlePartitions(probes, res, timeout);
    HandleGroups(probes, res, timeout);
    FirstIsMember(Kept(probes, res, timeout));
  }

  /** Every probe ever appended is pending, expired or matched: once, and only one of these. */
  ghost predicate Conserved(appended: seq<Probe>, probes: seq<Probe>, expired: seq<Probe>, matched: seq<Probe>) {
    multiset(appended) == multiset(probes) + multiset(expired) + multiset(matched)
  }

  lemma HandleConserves(appended: seq<Probe>, probes: seq<Probe>, expired: seq<Probe>, matched: seq<Probe>,
                        res: Answer, timeout: int)
    requires Conserved(appended, probes, expired, matched)
    ensures Conserved(appended, Kept(probes, res, timeout),
                      expired + Dropped(probes, res, timeout), matched + Hit(probes, res, timeout))
  {
    HandlePartitions(probes, res, timeout);
  }

  predicate ReplyInRange(r: Reply, timeout: int) {
    r.rtt <= timeout && r.hops >= 1
  }

  lemma LastHitFresh(probes: seq<Probe>, res: Answer, timeout: int)
    ensures var hit := Hit(probes, res, timeout);
            hit != [] ==> ReplyInRange(MakeReply(hit[|hit|-1], res), timeout)
  {
    HandleGroups(probes, res, timeout);
    FirstIsMember(Hit(probes, res, timeout));
  }

  // ----- what a reply says -----

  /** The reply answers the probe: it names the answering node, the time from sending to answering, and how many hops
      the probe had gone, at least one: a probe of TTL t that is quoted with t - d + 1 left has gone d hops. */
  ghost predicate Answers(r: Reply, p: Probe, res: Answer) {
    && r.ip == res.ip && r.rtt == res.time - p.time
    && (res.ttl <= p.ttl ==> res.ttl == p.ttl - r.hops + 1)
    && (res.ttl > p.ttl ==> r.hops == 1)
  }

  /** The probe is the last of the list that is unexpired and matches. */
  ghost predicate LastMatch(probes: seq<Probe>, i: nat, res: Answer, timeout: int) {
    && i < |probes| && res.time - probes[i].time <= timeout && (probes[i].id == res.id || res.ip.V6?)
    && forall j :: i < j < |probes| ==>
         res.time - probes[j].time > timeout || (probes[j].id != res.id && !res.ip.V6?)
  }

  lemma {:induction false} LastHit(probes: seq<Probe>, res: Answer, timeout: int) returns (i: nat)
    requires Hit(probes, res, timeout) != []
    ensures LastMatch(probes, i, res, timeout)
    ensures var hit := Hit(probes, res, timeout); hit[|hit|-1] == probes[i]
  {
    var front, last := probes[..|probes|-1], probes[|probes|-1];
    if res.time - last.time <= timeout && (last.id == res.id || res.ip.V6?) {
      i := |probes| - 1;
    } else {
      i := LastHit(front, res, timeout);
    }
  }

  lemma ReplyAnswers(p: Probe, res: Answer)
    ensures Answers(MakeReply(p, res), p, res)
  {
  }

  ghost predicate AnswersLast(r: Reply, probes: seq<Probe>, res: Answer, timeout: int) {
    exists i: nat :: LastMatch(probes, i, res, timeout) && Answers(r, probes[i], res)
  }

  /** A handle call makes a reply exactly when some unexpired probe matches, and it answers the last of them. */
  lemma ReplyExactly(probes: seq<Probe>, res: Answer, timeout: int)
    ensures var reply := ReplyOf(probes, res, timeout);
            && (reply == None <==>
                  forall p :: p in probes ==> res.time - p.time > timeout || (p.id != res.id && !res.ip.V6?))
            && (reply.Some? ==> AnswersLast(reply.value, probes, res, timeout))
  {
    var hit := Hit(probes, res, timeout);
    if hit != [] {
      var i := LastHit(probes, res, timeout);
      ReplyAnswers(probes[i], res);
      assert probes[i] in probes;
      hide Hit, MakeReply, Answers;
    } else {
      HandleGroups(probes, res, timeout);
      hide Hit, Kept, Dropped;
      forall p | p in probes ensures res.time - p.time > timeout || (p.id != res.id && !res.ip.V6?) {
        assert p !in hit;
      }
    }
  }

  lemma ReplyFresh(probes: seq<Probe>, res: Answer, timeout: int)
    ensures var reply := ReplyOf(probes, res, timeout);
            reply.Some? ==> Hit(probes, res, timeout) != [] && ReplyInRange(reply.value, timeout)
  {
    LastHitFresh(probes, res, timeout);
  }

  class Session {
    const ip: IP
    const timeout: int
    var probes: seq<Probe>
    var ch: seq<Reply>

    /** Replies that matching handle calls have made and not yet sent: handle unlocks the session before its send. */
    var unsent: multiset<Reply>

    // The session's history: what was appended and where it went, and the replies received, in order.
    ghost var appended: seq<Probe>
    ghost var expired: seq<Probe>
    ghost var matched: seq<Probe>
    ghost var hits: nat
    ghost var delivered: seq<Reply>
    ghost var overflow: nat

    /** Conservation: probes are pending, expired or matched, and never two of
        these; the replies of matching handle calls are received, buffered, lost
        to a full channel, or still to be sent. */
    ghost predicate Valid()
      reads this
    {
      && Conserved(appended, probes, expired, matched)
      && ChannelValid()
      && hits <= |matched|
    }

    ghost predicate ChannelValid()
      reads `ch, `unsent, `hits, `delivered, `overflow
    {
      && hits == |delivered| + |ch| + overflow + |unsent|
      && |ch| <= CHANNEL_CAPACITY
      && (forall r :: r in ch ==> ReplyInRange(r, timeout))
      && (forall r :: r in unsent ==> ReplyInRange(r, timeout))
      && (forall r :: r in delivered ==> ReplyInRange(r, timeout))
    }

    constructor (ip: IP, timeout: int)
      ensures Valid() && this.ip == ip && this.timeout == timeout
      ensures probes == [] && ch == [] && unsent == multiset{} && appended == [] && delivered == []
    {
      this.ip, this.timeout := ip, timeout;
      probes, ch, unsent := [], [], multiset{};
      appended, expired, matched := [], [], [];
      hits, delivered, overflow := 0, [], 0;
    }

    /** The second half of Ping: record a probe that was sent. */
    method Append(req: Probe)
      requires Valid()
      modifies this
      ensures Valid()
      ensures probes == old(probes) + [req] && appended == old(appended) + [req]
      ensures unchanged(`ch, `unsent, `expired, `matched, `hits, `delivered, `overflow)
    {
      probes := probes + [req];
      appended := appended + [req];
    }

    method IsDone(ttl: int) returns (done: bool)
      ensures done <==> forall p :: p in probes ==> p.ttl > ttl
    {
      for i := 0 to |probes|
        invariant forall j :: 0 <= j < i ==> probes[j].ttl > ttl
      {
        if probes[i].ttl <= ttl {
          assert probes[i] in probes;
          return false;
        }
      }
      return true;
    }

    /** Take the oldest buffered reply, as a receive on the channel does. */
    method Receive() returns (r: Reply)
      requires Valid() && ch != []
      modifies this
      ensures Valid() && ReplyInRange(r, timeout)
      ensures old(ch) == [r] + ch && delivered == old(delivered) + [r]
      ensures unchanged(`probes, `unsent, `appended, `expired, `matched, `hits, `overflow)
    {
      r := ch[0];
      ch := ch[1..];
      delivered := delivered + [r];
    }

    /** The part of handle that holds the session lock: filter the pending
        probes in place and remember the last one that matched. */
    method TakeMatches(res: Answer) returns (req: Option<Probe>)
      modifies `probes
      ensures probes == Kept(old(probes), res, timeout)
      ensures var hit := Hit(old(probes), res, timeout);
              req == if hit == [] then None else Some(hit[|hit|-1])
    {
      var n := 0;
      req := None;
      ghost var was := probes;
      for i := 0 to |probes|
        invariant n <= i && |probes| == |was|
        invariant probes[..n] == Kept(was[..i], res, timeout)
        invariant forall j :: i <= j < |was| ==> probes[j] == was[j]
        invariant var hit := Hit(was[..i], res, timeout);
                  req == if hit == [] then None else Some(hit[|hit|-1])
      {
        var r := probes[i];
        FilterStep(was, i, p => !Expired(p, res, timeout) && !Matches(p, res));
        FilterStep(was, i, p => !Expired(p, res, timeout) && Matches(p, res));
        if res.time - r.time > timeout {
          continue;
        }
        if r.id == res.id || res.ip.V6? {
          req := Some(r);
          continue;
        }
        probes := probes[n := r];
        n := n + 1;
      }
      probes := probes[..n];
      assert was[..|was|] == was;
    }

    /** The locked part, with the reply it makes. */
    method MakeOneReply(res: Answer) returns (reply: Option<Reply>)
      modifies `probes
      ensures probes == Kept(old(probes), res, timeout) && reply == ReplyOf(old(probes), res, timeout)
      ensures reply.Some? ==> AnswersLast(reply.value, old(probes), res, timeout) && ReplyInRange(reply.value, timeout)
      ensures reply.Some? ==> Hit(old(probes), res, timeout) != []
    {
      hide Kept, Hit, MakeReply, ReplyInRange, AnswersLast;
      ghost var was := probes;
      var req := TakeMatches(res);
      reply := if req == None then None else Some(MakeReply(req.value, res));
      ReplyExactly(was, res, timeout);
      ReplyFresh(was, res, timeout);
    }

    /** The first half of handle, up to the unlock: probes go their ways, and a match makes one reply to be sent. */
    method BeginHandle(res: Answer) returns (reply: Option<Reply>)
      requires Valid()
      modifies this
      ensures Valid()
      ensures probes == Kept(old(probes), res, timeout)
      ensures matched == old(matched) + Hit(old(probes), res, timeout)
      ensures expired == old(expired) + Dropped(old(probes), res, timeout)
      ensures reply == ReplyOf(old(probes), res, timeout)
      ensures reply.Some? ==> AnswersLast(reply.value, old(probes), res, timeout)
      ensures unsent == old(unsent) + (if reply == None then multiset{} else multiset{reply.value})
      ensures hits == old(hits) + (if reply == None then 0 else 1)
      ensures unchanged(`ch, `appended, `delivered, `overflow)
    {
      hide Conserved, Kept, Hit, Dropped, ReplyOf, ReplyInRange, AnswersLast;
      ghost var was := probes;
      reply := MakeOneReply(res);
      HandleConserves(appended, was, expired, matched, res, timeout);
      expired := expired + Dropped(was, res, timeout);
      matched := matched + Hit(was, res, timeout);
      if reply != None {
        hits := hits + 1;
        unsent := unsent + multiset{reply.value};
      }
    }

    /** The second half of a matching handle call: the non-blocking send. */
    method SendReply(reply: Reply)
      requires Valid() && reply in unsent
      modifies this
      ensures Valid() && unsent == old(unsent) - multiset{reply}
      ensures ch == if |old(ch)| < 64 then old(ch) + [reply] else old(ch)
      ensures overflow == old(overflow) + (if |old(ch)| < CHANNEL_CAPACITY then 0 else 1)
      ensures unchanged(`probes, `appended, `expired, `matched, `hits, `delivered)
    {
      unsent := unsent - multiset{reply};
      if |ch| < CHANNEL_CAPACITY {
        ch := ch + [reply];
      } else {
        overflow := overflow + 1;
      }
    }

    /** A handle call that nothing interrupts. */
    method Handle(res: Answer)
      requires Valid()
      modifies this
      ensures Valid()
      ensures probes == Kept(old(probes), res, timeout)
      ensures matched == old(matched) + Hit(old(probes), res, timeout)
      ensures expired == old(expired) + Dropped(old(probes), res, timeout)
      ensures ch == ChannelAfter(old(probes), old(ch), res, timeout)
      ensures hits == old(hits) + (if Hit(old(probes), res, timeout) == [] then 0 else 1)
      ensures unsent == old(unsent) && appended == old(appended) && delivered == old(delivered)
    {
      hide Kept, Hit, Dropped, MakeReply, AnswersLast;
      var reply := BeginHandle(res);
      if reply != None {
        SendReply(reply.value);
      }
    }
  }

  // ----- the shared tracer -----

  function RemoveFirst<T(==)>(s: seq<T>, x: T): (r: seq<T>) {
    if s == [] then [] else if s[0] == x then s[1..] else [s[0]] + RemoveFirst(s[1..], x)
  }

  lemma {:induction false} RemoveFirstAt<T>(s: seq<T>, x: T, i: nat)
    requires i < |s| && s[i] == x && forall j :: 0 <= j < i ==> s[j] != x
    ensures RemoveFirst(s, x) == s[..i] + s[i+1..]
  {
    if i > 0 {
      RemoveFirstAt(s[1..], x, i - 1);
      assert s[..i] == [s[0]] + s[1..][..i-1];
    }
  }

  lemma {:induction false} RemoveFirstAbsent<T>(s: seq<T>, x: T)
    requires x !in s
    ensures RemoveFirst(s, x) == s
  {
    if s != [] {
      RemoveFirstAbsent(s[1..], x);
    }
  }

  /** Removing an entry from a duplicate-free list removes it altogether and keeps the rest in order. */
  lemma {:induction false} RemoveFirstDistinct<T>(s: seq<T>, x: T)
    requires Distinct(s)
    ensures Distinct(RemoveFirst(s, x))
    ensures forall y :: y in RemoveFirst(s, x) <==> y in s && y != x
  {
    if x in s {
      var i :| 0 <= i < |s| && s[i] == x;
      RemoveFirstAt(s, x, i);
      forall y | y in s && y != x ensures y in s[..i] + s[i+1..] {
        var k :| 0 <= k < |s| && s[k] == y;
        assert k < i ==> s[..i][k] == y;
        assert k > i ==> s[i+1..][k-i-1] == y;
      }
    } else {
      RemoveFirstAbsent(s, x);
    }
  }

  /** Truncating the wrapped 32-bit counter is truncating the unwrapped one. */
  lemma WireId(issued: nat)
    ensures (issued % COUNTER_SPACE) % ID_SPACE == issued % ID_SPACE
  {
    var q := issued / COUNTER_SPACE;
    assert issued == COUNTER_SPACE * q + issued % COUNTER_SPACE;
    assert issued == ID_SPACE * (ID_SPACE * q) + issued % COUNTER_SPACE;
    var low := issued % COUNTER_SPACE;
    assert low == ID_SPACE * (low / ID_SPACE) + low % ID_SPACE;
    assert issued == ID_SPACE * (ID_SPACE * q + low / ID_SPACE) + low % ID_SPACE;
  }

  class Tracer {
    const timeout: int
    var seq32: nat
    var sess: map<IP, seq<Session>>
    var issued: nat  // history: the counter without wrap-around, only ever copied into serials

    ghost predicate Valid()
      reads this
    {
      && seq32 == issued % COUNTER_SPACE
      && forall ip :: ip in sess ==>
           Distinct(sess[ip]) && forall s :: s in sess[ip] ==> s.ip == ip && s.timeout == timeout
    }

    constructor (timeout: int)
      ensures Valid() && this.timeout == timeout && sess == map[] && issued == 0
    {
      this.timeout, seq32, sess, issued := timeout, 0, map[], 0;
    }

    function Registered(ip: IP): seq<Session>
      reads this
    {
      if ip in sess then sess[ip] else []
    }

    /** Issue an id and send; `sent` is whether the socket took the packet. */
    method SendRequest(ttl: int, now: int, sent: bool) returns (req: Option<Probe>)
      requires Valid()
      modifies `seq32, `issued
      ensures Valid() && issued == old(issued) + 1
      ensures req == if sent then Some(Probe(issued % ID_SPACE, ttl, now, issued)) else None
    {
      seq32 := (seq32 + 1) % COUNTER_SPACE;
      issued := issued + 1;
      WireId(issued);
      if sent {
        return Some(Probe(seq32 % ID_SPACE, ttl, now, issued));
      }
      return None;
    }

    method AddSession(s: Session)
      requires Valid() && s.timeout == timeout && s !in Registered(s.ip)
      modifies `sess
      ensures Valid()
      ensures sess == old(sess)[s.ip := old(Registered(s.ip)) + [s]]
    {
      sess := sess[s.ip := Registered(s.ip) + [s]];
    }

    method RemoveSession(s: Session)
      requires Valid()
      modifies `sess
      ensures Valid() && s !in Registered(s.ip)
      ensures Registered(s.ip) == RemoveFirst(old(Registered(s.ip)), s)
      ensures forall ip :: ip != s.ip ==> Registered(ip) == old(Registered(ip))
    {
      var a := Registered(s.ip);
      RemoveFirstDistinct(a, s);
      for i := 0 to |a|
        invariant forall j :: 0 <= j < i ==> a[j] != s
        invariant sess == old(sess)
      {
        if a[i] == s {
          RemoveFirstAt(a, s, i);
          sess := sess[s.ip := a[..i] + a[i+1..]];
          return;
        }
      }
      RemoveFirstAbsent(a, s);
    }

    /** Hand an answer to every session registered for its destination, in order. */
    method ServeReply(dst: IP, res: Answer)
      requires Valid()
      requires forall s :: s in Registered(dst) ==> s.Valid()
      modifies Registered(dst)
      ensures Valid()
      ensures forall s :: s in Registered(dst) ==>
                && s.Valid()
                && s.probes == Kept(old(s.probes), res, timeout)
                && s.matched == old(s.matched) + Hit(old(s.probes), res, timeout)
                && s.ch == ChannelAfter(old(s.probes), old(s.ch), res, timeout)
    {
      hide Kept, Hit, ChannelAfter, Session.Valid;
      var a := Registered(dst);
      for i := 0 to |a|
        invariant forall j :: i <= j < |a| ==> unchanged(a[j]) && a[j].Valid()
        invariant forall j :: 0 <= j < i ==>
                    && a[j].Valid()
                    && a[j].probes == Kept(old(a[j].probes), res, timeout)
                    && a[j].matched == old(a[j].matched) + Hit(old(a[j].probes), res, timeout)
                    && a[j].ch == ChannelAfter(old(a[j].probes), old(a[j].ch), res, timeout)
      {
        assert unchanged(a[i]);
        a[i].Handle(res);
      }
    }
  }
}
