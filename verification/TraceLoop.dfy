/** The loop that drives one trace: ping with growing TTL, lower the bound when
    the target answers, then drain until no probe below the bound is pending. */
module TraceLoop {
  import opened Contexts
  import opened Lists
  import opened Tracing

  datatype Outcome = Done | TimedOut | Canceled | SendFailed

  /** How far the bound has come down after these replies. */
  function Bound(maxHops: int, target: IP, calls: seq<Reply>): (m: int)
    ensures m <= maxHops
  {
    if calls == [] then maxHops
    else
      var m := Bound(maxHops, target, calls[..|calls|-1]);
      var r := calls[|calls|-1];
      if m > r.hops && r.ip == target then r.hops else m
  }

  /** The bound is the least distance at which the target answered, if any is
      below maxHops; it never rises and stays positive. */
  lemma {:induction false} BoundIsLeast(maxHops: int, target: IP, calls: seq<Reply>)
    ensures forall r :: r in calls && r.ip == target ==> Bound(maxHops, target, calls) <= r.hops
    ensures var m := Bound(maxHops, target, calls);
            m == maxHops || exists r :: r in calls && r.ip == target && r.hops == m
    ensures maxHops >= 1 && (forall r :: r in calls ==> r.hops >= 1) ==> Bound(maxHops, target, calls) >= 1
    ensures forall k :: 0 <= k <= |calls| ==> Bound(maxHops, target, calls) <= Bound(maxHops, target, calls[..k])
  {
    if calls != [] {
      var front, last := calls[..|calls|-1], calls[|calls|-1];
      BoundIsLeast(maxHops, target, front);
      assert calls == front + [last];
      forall k | 0 <= k <= |calls|
        ensures Bound(maxHops, target, calls) <= Bound(maxHops, target, calls[..k])
      {
        if k < |calls| {
          assert calls[..k] == front[..k];
        } else {
          assert calls[..k] == calls;
        }
      }
    }
  }

  function Product(a: int, b: int): nat {
    if a <= 0 || b <= 0 then 0 else a * b
  }

  /** The replies a session can still deliver: one for each pending probe at most, and those made already. */
  function Deliverable(s: Session): nat
    reads s
  {
    |s.probes| + |s.unsent| + |s.ch|
  }

  lemma HandleShrinks(probes: seq<Probe>, res: Answer, timeout: int)
    ensures |Kept(probes, res, timeout)| + (if ReplyOf(probes, res, timeout) == None then 0 else 1) <= |probes|
  {
    HandlePartitions(probes, res, timeout);
    var kept, hit, dropped := Kept(probes, res, timeout), Hit(probes, res, timeout), Dropped(probes, res, timeout);
    assert |multiset(probes)| == |multiset(kept)| + |multiset(hit)| + |multiset(dropped)|;
  }

  /** What a trace runs among: whether other sessions come and go, which sends the socket takes, by serial, the
      caller's context, and the timer that starts with the drain. */
  datatype Env = Env(quiet: bool, socket: nat -> bool, ctx: Context, timer: Context)

  /** The session is registered. */
  ghost predicate Listed(t: Tracer, s: Session)
    reads t
  {
    s in t.Registered(s.ip)
  }

  /** Other goroutines, any number of steps: other sessions issue ids, and for this session handle calls
      filter its probes or, at some later step, send what they made. Unless `quiet`, other sessions are
      opened and closed as well, of this address too. */
  method Interference(t: Tracer, s: Session, quiet: bool)
    requires t.Valid() && s.Valid()
    modifies t`seq32, t`issued, t`sess, s
    ensures t.Valid() && s.Valid()
    ensures s.appended == old(s.appended) && s.delivered == old(s.delivered)
    ensures Deliverable(s) <= old(Deliverable(s))
    ensures Listed(t, s) == old(Listed(t, s))
    ensures quiet ==> t.sess == old(t.sess)
  {
    var steps: int := *;
    while steps > 0
      invariant t.Valid() && s.Valid()
      invariant s.appended == old(s.appended) && s.delivered == old(s.delivered)
      invariant Deliverable(s) <= old(Deliverable(s))
      invariant Listed(t, s) == old(Listed(t, s))
      invariant quiet ==> t.sess == old(t.sess)
    {
      steps := steps - 1;
      var choice: int := *;
      if choice == 0 {
        var ttl: int, now: int, sent: bool := *, *, *;
        var _ := t.SendRequest(ttl, now, sent);
      } else if choice == 1 {
        var res: Answer := *;
        HandleShrinks(s.probes, res, s.timeout);
        var _ := s.BeginHandle(res);
      } else if choice == 2 && !quiet {
        OtherSession(t, s);
      } else if s.unsent != multiset{} {
        var reply :| reply in s.unsent;
        s.SendReply(reply);
      }
    }
  }

  /** Another goroutine opens a session of some address, or closes one that is not s. */
  method OtherSession(t: Tracer, s: Session)
    requires t.Valid()
    modifies t`sess
    ensures t.Valid() && Listed(t, s) == old(Listed(t, s))
  {
    var opens: bool := *;
    var ip: IP := *;
    if opens {
      var other := new Session(ip, t.timeout);
      t.AddSession(other);
    } else {
      var a := t.Registered(ip);
      var i: int := *;
      if 0 <= i < |a| && a[i] != s {
        var other := a[i];
        assert other.ip == ip;
        RemoveFirstDistinct(a, other);
        t.RemoveSession(other);
      }
    }
  }

  /** Ping sends with a TTL one above its argument; appending is a separate step. */
  method Ping(t: Tracer, s: Session, ttl: int, env: Env) returns (ok: bool)
    requires t.Valid() && s.Valid()
    modifies t`seq32, t`issued, t`sess, s
    ensures Listed(t, s) == old(Listed(t, s)) && (env.quiet ==> t.sess == old(t.sess))
    ensures t.Valid() && s.Valid()
    ensures s.delivered == old(s.delivered)
    ensures if ok then |s.appended| == old(|s.appended|) + 1 && s.appended[..|s.appended|-1] == old(s.appended)
                       && s.appended[|s.appended|-1].ttl == ttl + 1
            else s.appended == old(s.appended)
    ensures ok == env.socket(old(t.issued) + 1)
  {
    var now: int := *;
    var req := t.SendRequest(ttl + 1, now, env.socket(t.issued + 1));
    Interference(t, s, env.quiet);
    if req == None {
      return false;
    }
    s.Append(req.value);
    return true;
  }

  // ----- rounds -----

  /** Consecutive probes of one round: TTL 2, 3, and so on, without a gap. */
  ghost predicate Round(ps: seq<Probe>) {
    forall i :: 0 <= i < |ps| ==> ps[i].ttl == i + 2
  }

  /** The probes are those of n rounds, one after the other, each of at least `least` and at most `most` probes. */
  ghost predicate Rounds(ps: seq<Probe>, n: nat, least: int, most: int)
    decreases n
  {
    if n == 0 then ps == []
    else exists k: nat :: k <= |ps| && least <= k && (k == 0 || k <= most) && EndsInRound(ps, k)
           && Rounds(ps[..|ps|-k], n - 1, least, most)
  }

  ghost predicate EndsInRound(ps: seq<Probe>, k: nat)
    requires k <= |ps|
  {
    Round(ps[|ps|-k..])
  }

  function Min(a: int, b: int): int {
    if a <= b then a else b
  }

  lemma {:induction false} RoundsLower(ps: seq<Probe>, n: nat, least: int, less: int, most: int)
    requires Rounds(ps, n, least, most) && less <= least
    ensures Rounds(ps, n, less, most)
    decreases n
  {
    if n > 0 {
      var k: nat :| k <= |ps| && least <= k && (k == 0 || k <= most) && EndsInRound(ps, k)
        && Rounds(ps[..|ps|-k], n - 1, least, most);
      RoundsLower(ps[..|ps|-k], n - 1, least, less, most);
    }
  }

  lemma RoundsMore(ps: seq<Probe>, round: seq<Probe>, n: nat, least: int, most: int)
    requires Rounds(ps, n, least, most) && Round(round) && least <= |round| && (|round| == 0 || |round| <= most)
    ensures Rounds(ps + round, n + 1, least, most)
  {
    var all, k := ps + round, |round|;
    assert all[..|all|-k] == ps && all[|all|-k..] == round;
    assert EndsInRound(all, k);
  }

  ghost predicate SentUpTo(appended: seq<Probe>, limit: int) {
    forall p :: p in appended ==> 2 <= p.ttl <= limit + 1
  }

  /** What a running trace keeps: the callbacks are the replies received, each
      once and in order, in range, and every appended probe was pinged. */
  ghost predicate TraceInv(s: Session, calls: seq<Reply>, pings: nat, maxHops: int)
    reads s
  {
    && s.Valid()
    && calls == s.delivered
    && |s.appended| <= pings
    && SentUpTo(s.appended, maxHops)
    && forall r :: r in calls ==> ReplyInRange(r, s.timeout)
  }

  lemma MatchedWereAppended(appended: seq<Probe>, probes: seq<Probe>, expired: seq<Probe>, matched: seq<Probe>)
    requires Conserved(appended, probes, expired, matched)
    ensures |probes| + |expired| + |matched| == |appended|
  {
    assert |multiset(appended)| == |multiset(probes)| + |multiset(expired)| + |multiset(matched)|;
  }

  method TakeReply(s: Session, ip: IP, maxHops: int, max: int, calls: seq<Reply>, ghost pings: nat)
    returns (max': int, calls': seq<Reply>)
    requires TraceInv(s, calls, pings, maxHops) && max == Bound(maxHops, ip, calls) && s.ch != []
    modifies s
    ensures TraceInv(s, calls', pings, maxHops) && max' == Bound(maxHops, ip, calls') && max' <= max
    ensures calls' == calls + [old(s.ch[0])]
    ensures Deliverable(s) == old(Deliverable(s)) - 1 && s.appended == old(s.appended)
  {
    var r := s.Receive();
    max' := max;
    if max > r.hops && ip == r.ip {
      max' := r.hops;
    }
    calls' := calls + [r];
  }

  /** Why a trace may stop early. */
  ghost predicate StopsFor(stopped: Option<Outcome>, env: Env)
    reads env.ctx
  {
    && (stopped == Some(SendFailed) ==> exists n: nat :: !env.socket(n))
    && (stopped == Some(Canceled) ==> env.ctx.err != ContextErr.Open)
    && stopped != Some(Done) && stopped != Some(TimedOut)
  }

  /** One round of pings with growing TTL, taking replies in between. Unless it is stopped it goes up to the hop
      limit or the bound, without a gap. */
  method SendRound(t: Tracer, s: Session, ip: IP, maxHops: int, max0: int, calls0: seq<Reply>, pings0: nat,
                   env: Env)
    returns (stopped: Option<Outcome>, calls: seq<Reply>, pings: nat, max: int)
    requires t.Valid() && TraceInv(s, calls0, pings0, maxHops) && max0 == Bound(maxHops, ip, calls0)
    modifies t`seq32, t`issued, t`sess, s, env.ctx
    ensures Listed(t, s) == old(Listed(t, s)) && (env.quiet ==> t.sess == old(t.sess))
    ensures t.Valid() && TraceInv(s, calls, pings, maxHops) && max == Bound(maxHops, ip, calls)
    ensures calls0 <= calls && max <= max0 && StopsFor(stopped, env)
    ensures old(s.appended) <= s.appended
    ensures var round := s.appended[|old(s.appended)|..];
            && Round(round) && (|round| == 0 || |round| <= Min(maxHops, max0)) && pings >= pings0 + |round|
            && (stopped == None ==> |round| >= Min(maxHops, max) && pings == pings0 + |round|)
    ensures pings <= pings0 + (if maxHops <= 0 then 0 else maxHops)
  {
    hide Bound, Listed, ReplyInRange, Session.Valid, Tracer.Valid, Deliverable, SentUpTo, TraceInv, Round, StopsFor;
    stopped, calls, pings, max := None, calls0, pings0, max0;
    var ttl := 1;
    ghost var round: seq<Probe> := [];
    RoundGrows([], None);
    RunsOn(env);
    while ttl <= maxHops && ttl <= max
      invariant t.Valid() && TraceInv(s, calls, pings, maxHops) && StopsFor(stopped, env)
      invariant Listed(t, s) == old(Listed(t, s)) && (env.quiet ==> t.sess == old(t.sess))
      invariant max == Bound(maxHops, ip, calls) && calls0 <= calls && max <= max0
      invariant s.appended == old(s.appended) + round && Round(round) && |round| == ttl - 1
      invariant ttl >= 1 && (|round| == 0 || |round| <= Min(maxHops, max0))
      invariant pings == pings0 + |round| && stopped == None
      decreases maxHops - ttl
    {
      ghost var p;
      stopped, calls, pings, max, p := SendOne(t, s, ip, maxHops, max, calls, pings, ttl, env);
      RoundGrows(round, p);
      round := round + (if p == None then [] else [p.value]);
      assert s.appended[|old(s.appended)|..] == round;
      if stopped.Some? {
        return;
      }
      ttl := ttl + 1;
    }
  }

  /** One turn of the round: a ping, and then a reply, the delay, or the end of the context. */
  method SendOne(t: Tracer, s: Session, ip: IP, maxHops: int, max0: int, calls0: seq<Reply>, pings0: nat, ttl: int,
                 env: Env)
    returns (stopped: Option<Outcome>, calls: seq<Reply>, pings: nat, max: int, ghost p: Option<Probe>)
    requires t.Valid() && TraceInv(s, calls0, pings0, maxHops) && max0 == Bound(maxHops, ip, calls0)
    requires 1 <= ttl <= maxHops
    modifies t`seq32, t`issued, t`sess, s, env.ctx
    ensures Listed(t, s) == old(Listed(t, s)) && (env.quiet ==> t.sess == old(t.sess))
    ensures t.Valid() && TraceInv(s, calls, pings, maxHops) && max == Bound(maxHops, ip, calls)
    ensures calls0 <= calls && max <= max0 && StopsFor(stopped, env) && pings == pings0 + 1
    ensures s.appended == old(s.appended) + (if p == None then [] else [p.value])
    ensures p.Some? ==> p.value.ttl == ttl + 1
    ensures stopped == None ==> p.Some?
  {
    hide Bound, Listed, ReplyInRange, Session.Valid, Tracer.Valid, Deliverable, SentUpTo;
    stopped, calls, pings, max, p := None, calls0, pings0 + 1, max0, None;
    ghost var was, serial := s.appended, t.issued + 1;
    var ok := Ping(t, s, ttl, env);
    if !ok {
      assert !env.socket(serial);
      stopped := Some(SendFailed);
      return;
    }
    p := Some(s.appended[|s.appended|-1]);
    assert s.appended == was + [p.value];
    MoreSent(was, p.value, maxHops);
    env.ctx.Elapse();
    Interference(t, s, env.quiet);
    var choice: int := *;
    if choice == 0 && env.ctx.err != ContextErr.Open {
      stopped := Some(Canceled);
    } else if choice == 1 && s.ch != [] {
      max, calls := TakeReply(s, ip, maxHops, max, calls, pings);
    }
  }

  lemma RoundGrows(round: seq<Probe>, p: Option<Probe>)
    ensures Round([])
    ensures Round(round) && (p.Some? ==> p.value.ttl == |round| + 2) ==>
              Round(round + (if p == None then [] else [p.value]))
  {
  }

  lemma RunsOn(env: Env)
    ensures StopsFor(None, env)
  {
  }

  lemma MoreSent(appended: seq<Probe>, p: Probe, limit: int)
    requires SentUpTo(appended, limit) && 2 <= p.ttl <= limit + 1
    ensures SentUpTo(appended + [p], limit)
  {
  }

  /** The sending half: count rounds. */
  method SendRounds(t: Tracer, s: Session, ip: IP, maxHops: int, count: int, env: Env)
    returns (stopped: Option<Outcome>, calls: seq<Reply>, pings: nat, max: int)
    requires t.Valid() && s.Valid() && s.appended == [] && s.delivered == []
    modifies t`seq32, t`issued, t`sess, s, env.ctx
    ensures Listed(t, s) == old(Listed(t, s)) && (env.quiet ==> t.sess == old(t.sess))
    ensures t.Valid() && TraceInv(s, calls, pings, maxHops) && max == Bound(maxHops, ip, calls)
    ensures pings <= Product(count, maxHops) && StopsFor(stopped, env)
    ensures stopped == None ==> Rounds(s.appended, Times(count), Min(maxHops, max), maxHops)
    ensures stopped == None ==> pings == |s.appended|
  {
    hide Bound, Listed, ReplyInRange, Session.Valid, Tracer.Valid, Deliverable, SentUpTo, Round, Rounds, TraceInv,
         StopsFor, Product;
    max, calls, pings, stopped := maxHops, [], 0, None;
    var n := 0;
    NoRounds(maxHops, max);
    assert TraceInv(s, calls, pings, maxHops) && max == Bound(maxHops, ip, calls) by { StartsTrace(s, ip, maxHops); }
    while n < count
      invariant t.Valid() && TraceInv(s, calls, pings, maxHops) && max == Bound(maxHops, ip, calls)
      invariant Listed(t, s) == old(Listed(t, s)) && (env.quiet ==> t.sess == old(t.sess))
      invariant 0 <= n && (n <= count || n == 0) && stopped == None
      invariant pings <= Product(n, maxHops) && pings == |s.appended|
      invariant Rounds(s.appended, n, Min(maxHops, max), maxHops)
    {
      ProductStep(n, count, maxHops);
      ghost var was, bound := s.appended, max;
      stopped, calls, pings, max := SendRound(t, s, ip, maxHops, max, calls, pings, env);
      if stopped.Some? {
        return;
      }
      ghost var round := s.appended[|was|..];
      assert s.appended == was + round;
      RoundsLower(was, n, Min(maxHops, bound), Min(maxHops, max), maxHops);
      RoundsMore(was, round, n, Min(maxHops, max), maxHops);
      n := n + 1;
    }
    RunsOn(env);
    ProductEnds(n, count, maxHops);
  }

  function Times(count: int): nat {
    if count < 0 then 0 else count
  }

  lemma NoRounds(maxHops: int, max: int)
    ensures Rounds([], 0, Min(maxHops, max), maxHops)
  {
  }

  lemma StartsTrace(s: Session, ip: IP, maxHops: int)
    requires s.Valid() && s.appended == [] && s.delivered == []
    ensures TraceInv(s, [], 0, maxHops) && Bound(maxHops, ip, []) == maxHops
  {
  }

  /** The draining half. Each turn takes a reply or leaves; no pings are sent, so it
      can take at most as many replies as are pending, being sent, or buffered. With
      nothing to take it waits, at the latest until the timer fires. */
  method Drain(t: Tracer, s: Session, ip: IP, maxHops: int, max0: int, calls0: seq<Reply>, ghost pings: nat,
               env: Env)
    returns (outcome: Outcome, calls: seq<Reply>, max: int)
    requires t.Valid() && TraceInv(s, calls0, pings, maxHops) && max0 == Bound(maxHops, ip, calls0)
    modifies t`seq32, t`issued, t`sess, s, env.ctx, env.timer
    ensures Listed(t, s) == old(Listed(t, s)) && (env.quiet ==> t.sess == old(t.sess))
    ensures t.Valid() && TraceInv(s, calls, pings, maxHops) && max == Bound(maxHops, ip, calls) && max <= max0
    ensures s.appended == old(s.appended)
    ensures calls0 <= calls && |calls| - |calls0| + Deliverable(s) <= old(Deliverable(s))
    ensures outcome == Done ==> forall p :: p in s.probes ==> p.ttl > max
    ensures outcome == TimedOut ==> env.timer.err != ContextErr.Open
    ensures outcome == Canceled ==> env.ctx.err != ContextErr.Open
    ensures outcome != SendFailed
  {
    hide Bound, Listed, ReplyInRange, Session.Valid, Tracer.Valid, SentUpTo;
    calls, max := calls0, max0;
    Interference(t, s, env.quiet);
    var done := s.IsDone(max);
    while !done
      invariant t.Valid() && TraceInv(s, calls, pings, maxHops) && max == Bound(maxHops, ip, calls) && max <= max0
      invariant Listed(t, s) == old(Listed(t, s)) && (env.quiet ==> t.sess == old(t.sess))
      invariant s.appended == old(s.appended)
      invariant calls0 <= calls && |calls| - |calls0| + Deliverable(s) <= old(Deliverable(s))
      invariant done ==> forall p :: p in s.probes ==> p.ttl > max
      decreases Deliverable(s), !done
    {
      Interference(t, s, env.quiet);
      env.ctx.Elapse();
      env.timer.Elapse();
      if s.ch == [] && env.ctx.err == ContextErr.Open {
        env.timer.Expire();
      }
      var choice: int := *;
      if choice == 0 && env.timer.err != ContextErr.Open {
        return TimedOut, calls, max;
      } else if choice == 1 && env.ctx.err != ContextErr.Open {
        return Canceled, calls, max;
      } else if s.ch != [] {
        max, calls := TakeReply(s, ip, maxHops, max, calls, pings);
        Interference(t, s, env.quiet);
        done := s.IsDone(max);
      } else if env.ctx.err != ContextErr.Open {
        return Canceled, calls, max;
      } else {
        return TimedOut, calls, max;
      }
    }
    outcome := Done;
  }

  /** A whole trace: open a session, send, drain, close. `calls` are the replies
      handed to the callback, in order. Other sessions come and go meanwhile,
      unless the environment is quiet. */
  method Trace(t: Tracer, ip: IP, maxHops: int, count: int, env: Env)
    returns (outcome: Outcome, calls: seq<Reply>, pings: nat, max: int, s: Session)
    requires t.Valid()
    modifies t, env.ctx, env.timer
    ensures t.Valid() && fresh(s) && TraceInv(s, calls, pings, maxHops)
    ensures s !in t.Registered(ip) && (env.quiet ==> t.Registered(ip) == old(t.Registered(ip)))
    ensures pings <= Product(count, maxHops)
    ensures |calls| + |s.ch| + |s.unsent| <= |s.appended| <= pings
    ensures max == Bound(maxHops, ip, calls)
    ensures outcome == Done ==> forall p :: p in s.probes ==> p.ttl > max
    ensures outcome == Done || outcome == TimedOut ==>
      Rounds(s.appended, Times(count), Min(maxHops, max), maxHops) && pings == |s.appended|
    ensures outcome == TimedOut ==> env.timer.err != ContextErr.Open
    ensures outcome == Canceled ==> env.ctx.err != ContextErr.Open
    ensures outcome == SendFailed ==> exists n: nat :: !env.socket(n)
  {
    hide Rounds, Bound, Round;
    s := new Session(ip, t.timeout);
    ghost var before := t.Registered(ip);
    t.AddSession(s);
    var stopped;
    stopped, calls, pings, max := SendRounds(t, s, ip, maxHops, count, env);
    if stopped.Some? {
      outcome := stopped.value;
    } else {
      ghost var bound := max;
      outcome, calls, max := Drain(t, s, ip, maxHops, max, calls, pings, env);
      RoundsLower(s.appended, Times(count), Min(maxHops, bound), Min(maxHops, max), maxHops);
    }
    MatchedWereAppended(s.appended, s.probes, s.expired, s.matched);
    assert s.ip == ip && Listed(t, s);
    RemoveLast(before, s);
    t.RemoveSession(s);
  }

  lemma {:induction false} RemoveLast<T>(l: seq<T>, x: T)
    requires x !in l
    ensures RemoveFirst(l + [x], x) == l
  {
    RemoveFirstAt(l + [x], x, |l|);
  }

  lemma ProductStep(n: int, count: int, maxHops: int)
    requires 0 <= n < count
    ensures Product(n + 1, maxHops) == Product(n, maxHops) + (if maxHops <= 0 then 0 else maxHops)
    ensures Product(n, maxHops) <= Product(count, maxHops) && Product(n + 1, maxHops) <= Product(count, maxHops)
  {
    if maxHops > 0 {
      assert (n + 1) * maxHops == n * maxHops + maxHops;
      assert (n + 1) * maxHops <= count * maxHops by { MulMonotone(n + 1, count, maxHops); }
    }
  }

  lemma ProductEnds(n: int, count: int, maxHops: int)
    requires count <= n && (n <= count || n == 0)
    ensures Product(n, maxHops) <= Product(count, maxHops)
  {
  }

  lemma MulMonotone(a: int, b: int, c: int)
    requires a <= b && c >= 0
    ensures a * c <= b * c
  {
    assert (b - a) * c >= 0;
    assert b * c == a * c + (b - a) * c;
  }
}
