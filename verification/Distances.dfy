/** What replies say, over whole runs: every reply that is received, buffered or to be sent answers a probe its session
    sent, with the distance that probe went and the time it took. */
module Distances {
  import opened Lists
  import opened Tracing
  import opened Interleaving
  import opened Demultiplexing

  /** A ping as it was asked for. */
  datatype Sent = Sent(ttl: int, now: int)

  /** The pings of a run by serial: the k-th issue event has serial k. */
  ghost function LogOf(w: World, log: map<nat, Sent>, es: seq<Event>): map<nat, Sent>
    requires Inv(w) && Legal(w, es)
    decreases |es|
  {
    if es == [] then log else StepKeepsInv(w, es[0]); LogOf(Next(w, es[0]), Note(w, log, es[0]), es[1..])
  }

  ghost function Note(w: World, log: map<nat, Sent>, e: Event): map<nat, Sent> {
    if e.Issue? then log[w.issued + 1 := Sent(e.ttl, e.now)] else log
  }

  /** The packet of a ping has a TTL one above what was asked for. */
  ghost predicate Carries(p: Probe, log: map<nat, Sent>) {
    p.serial in log && p.ttl == log[p.serial].ttl + 1 && p.time == log[p.serial].now
  }

  /** The reply names the answering node, the time since the ping, and the hops gone: the k-th ping answered with one
      hop to live has gone k + 1. */
  ghost predicate Tells(r: Reply, s: Sent, res: Answer) {
    && r.ip == res.ip && r.rtt == res.time - s.now
    && (res.ttl <= s.ttl + 1 ==> r.hops == s.ttl + 1 + (1 - res.ttl))
    && (res.ttl > s.ttl + 1 ==> r.hops == 1)
  }

  /** The reply answers a probe that the session sent and the answer took. */
  ghost predicate From(w: World, log: map<nat, Sent>, sid: nat, r: Reply, n: nat, svc: nat) {
    && n in w.fate && w.fate[n] == Taken(sid, svc) && n in log && svc < |w.arrivals|
    && Tells(r, log[n], w.arrivals[svc].res)
  }

  ghost predicate Explained(w: World, log: map<nat, Sent>, sid: nat, r: Reply) {
    exists n: nat, svc: nat :: From(w, log, sid, r, n, svc)
  }

  ghost predicate ProbesCarry(w: World, log: map<nat, Sent>) {
    && (forall n :: n in w.fate ==> n in log)
    && (forall n :: n in w.tickets ==> Carries(w.tickets[n].probe, log))
    && (forall sid, p :: 0 <= sid < |w.sessions| && p in w.sessions[sid].probes ==> Carries(p, log))
  }

  ghost predicate RepliesExplained(w: World, log: map<nat, Sent>) {
    && (forall sid, r :: 0 <= sid < |w.sessions| && r in w.sessions[sid].ch ==> Explained(w, log, sid, r))
    && (forall sid, r :: 0 <= sid < |w.sessions| && r in w.sessions[sid].got ==> Explained(w, log, sid, r))
    && (forall svc :: svc in w.active && w.active[svc].emit.Some? ==>
          exists n: nat :: From(w, log, w.active[svc].emit.value.sid, w.active[svc].emit.value.reply, n, svc))
  }

  // ----- probes -----

  lemma KeptAreProbes(probes: seq<Probe>, res: Answer, timeout: int)
    ensures forall p :: p in Kept(probes, res, timeout) ==> p in probes
  {
    HandleGroups(probes, res, timeout);
  }

  lemma StepCarries(w: World, e: Event, log: map<nat, Sent>)
    requires Inv(w) && Enabled(w, e) && ProbesCarry(w, log)
    ensures ProbesCarry(Next(w, e), Note(w, log, e))
  {
    if e.Visit? {
      VisitCarries(w, e.svc, log);
    } else if e.Issue? {
      IssueCarries(w, e, log);
    } else if e.Append? {
      AppendCarries(w, e, log);
    } else {
      hide FatesInv, SessionInv, RegistryInv, Carries;
      var v := Next(w, e);
      forall sid, p | 0 <= sid < |v.sessions| && p in v.sessions[sid].probes ensures Carries(p, log) {
        assert sid < |w.sessions| ==> v.sessions[sid].probes == w.sessions[sid].probes;
      }
    }
  }

  lemma VisitCarries(w: World, svc: nat, log: map<nat, Sent>)
    requires Inv(w) && Enabled(w, Visit(svc)) && ProbesCarry(w, log)
    ensures ProbesCarry(Next(w, Visit(svc)), log)
  {
    var at := w.active[svc].todo[0];
    assert at in w.active[svc].todo;
    KeptAreProbes(w.sessions[at].probes, w.arrivals[svc].res, w.timeout);
    hide Kept, Hit, Tracing.Dropped, MakeReply, FatesInv, SessionInv, TicketsInv, Carries;
    var v := Next(w, Visit(svc));
    forall sid, p | 0 <= sid < |v.sessions| && p in v.sessions[sid].probes ensures Carries(p, log) {
      assert p in w.sessions[sid].probes;
    }
  }

  lemma IssueCarries(w: World, e: Event, log: map<nat, Sent>)
    requires Inv(w) && Enabled(w, e) && e.Issue? && ProbesCarry(w, log)
    ensures ProbesCarry(Next(w, e), Note(w, log, e))
  {
    var v, m, n := Next(w, e), Note(w, log, e), w.issued + 1;
    assert n !in w.fate;
    forall sid, p | 0 <= sid < |v.sessions| && p in v.sessions[sid].probes ensures Carries(p, m) {
      assert SessionInv(w, sid) && p.serial in Serials(w.sessions[sid].probes);
      assert p.serial in w.fate && Carries(p, log);
    }
    hide SessionInv, RegistryInv;
    forall k | k in v.tickets ensures Carries(v.tickets[k].probe, m) {
      if k != n {
        assert k in w.tickets && w.tickets[k].probe.serial == k && k in w.fate;
      }
    }
  }

  lemma AppendCarries(w: World, e: Event, log: map<nat, Sent>)
    requires Inv(w) && Enabled(w, e) && e.Append? && ProbesCarry(w, log)
    ensures ProbesCarry(Next(w, e), log)
  {
    var v, t := Next(w, e), w.tickets[e.serial];
    hide FatesInv, SessionInv, RegistryInv, Carries;
    forall sid, p | 0 <= sid < |v.sessions| && p in v.sessions[sid].probes ensures Carries(p, log) {
      assert p in w.sessions[sid].probes || p == t.probe;
    }
  }

  // ----- replies -----

  lemma StillFrom(w: World, e: Event, log: map<nat, Sent>, sid: nat, r: Reply, n: nat, svc: nat)
    requires Inv(w) && Enabled(w, e) && From(w, log, sid, r, n, svc)
    ensures From(Next(w, e), Note(w, log, e), sid, r, n, svc)
  {
    FateStep(w, e, n);
    ArrivalsKept(w, e);
    assert n <= w.issued;
    hide Inv, Next, Enabled, Tells;
  }

  lemma ArrivalsKept(w: World, e: Event)
    requires Inv(w) && Enabled(w, e)
    ensures w.arrivals <= Next(w, e).arrivals
  {
    hide FatesInv, TicketsInv, SessionInv, FateAfterVisit;
    if e.Visit? {
      assert w.active[e.svc].todo[0] in w.active[e.svc].todo;
    }
  }

  lemma StillExplained(w: World, e: Event, log: map<nat, Sent>, sid: nat, r: Reply)
    requires Inv(w) && Enabled(w, e) && Explained(w, log, sid, r)
    ensures Explained(Next(w, e), Note(w, log, e), sid, r)
  {
    var n: nat, svc: nat :| From(w, log, sid, r, n, svc);
    StillFrom(w, e, log, sid, r, n, svc);
  }

  /** The reply a visit makes answers a probe it takes. */
  lemma VisitFrom(w: World, svc: nat, log: map<nat, Sent>) returns (n: nat)
    requires Inv(w) && Enabled(w, Visit(svc)) && ProbesCarry(w, log) && Next(w, Visit(svc)).active[svc].emit.Some?
    ensures var v := Next(w, Visit(svc));
            From(v, log, v.active[svc].emit.value.sid, v.active[svc].emit.value.reply, n, svc)
  {
    var sid := w.active[svc].todo[0];
    assert sid in w.active[svc].todo;
    var ps, res := w.sessions[sid].probes, w.arrivals[svc].res;
    assert SessionInv(w, sid);
    var hit := Hit(ps, res, w.timeout);
    HandleGroups(ps, res, w.timeout);
    var p := hit[|hit|-1];
    assert p in hit && p in ps;
    n := p.serial;
    assert n in Serials(ps) && n in Serials(hit) && n in w.fate;
    var v := Next(w, Visit(svc));
    assert v.active[svc].emit == Some(Emission(sid, MakeReply(p, res)));
    assert v.fate[n] == Taken(sid, svc) && v.arrivals == w.arrivals;
    assert Carries(p, log);
    CarriedTells(MakeReply(p, res), p, log, res);
  }

  lemma CarriedTells(r: Reply, p: Probe, log: map<nat, Sent>, res: Answer)
    requires Carries(p, log) && r == MakeReply(p, res)
    ensures Tells(r, log[p.serial], res)
  {
    ReplyAnswers(p, res);
    hide MakeReply;
  }

  /** What the three places of a session hold after a step was in one of them, or in the emission just sent. */
  lemma QueueStep(w: World, e: Event, sid: nat, r: Reply)
    requires Inv(w) && Enabled(w, e) && sid < |Next(w, e).sessions|
    requires r in Next(w, e).sessions[sid].ch || r in Next(w, e).sessions[sid].got
    ensures sid < |w.sessions|
    ensures || r in w.sessions[sid].ch || r in w.sessions[sid].got
            || (e.Emit? && w.active[e.svc].emit.value.sid == sid && w.active[e.svc].emit.value.reply == r)
  {
    if e.Visit? {
      assert w.active[e.svc].todo[0] in w.active[e.svc].todo;
      hide Kept, Hit, MakeReply, FatesInv, TicketsInv, SessionInv, FateAfterVisit;
    } else {
      hide FatesInv, TicketsInv, SessionInv;
    }
  }

  lemma EmissionStep(w: World, e: Event, svc: nat)
    requires Inv(w) && Enabled(w, e) && svc in Next(w, e).active && Next(w, e).active[svc].emit.Some?
    ensures e == Visit(svc) || (svc in w.active && w.active[svc].emit == Next(w, e).active[svc].emit)
  {
    if e.Visit? {
      assert w.active[e.svc].todo[0] in w.active[e.svc].todo;
      hide Kept, Hit, MakeReply, FatesInv, TicketsInv, SessionInv, FateAfterVisit;
    } else {
      hide FatesInv, TicketsInv, SessionInv;
    }
  }

  lemma QueuedExplained(w: World, e: Event, log: map<nat, Sent>, sid: nat, r: Reply)
    requires Inv(w) && Enabled(w, e) && ProbesCarry(w, log) && RepliesExplained(w, log)
    requires sid < |Next(w, e).sessions|
    requires r in Next(w, e).sessions[sid].ch || r in Next(w, e).sessions[sid].got
    ensures Explained(Next(w, e), Note(w, log, e), sid, r)
  {
    QueueStep(w, e, sid, r);
    hide Inv, Next, ProbesCarry, From;
    if e.Emit? && w.active[e.svc].emit.value.sid == sid && w.active[e.svc].emit.value.reply == r {
      var n: nat :| From(w, log, sid, r, n, e.svc);
      assert Explained(w, log, sid, r);
    }
    StillExplained(w, e, log, sid, r);
  }

  lemma StepExplains(w: World, e: Event, log: map<nat, Sent>)
    requires Inv(w) && Enabled(w, e) && ProbesCarry(w, log) && RepliesExplained(w, log)
    ensures RepliesExplained(Next(w, e), Note(w, log, e))
  {
    var v, m := Next(w, e), Note(w, log, e);
    hide Inv, Next, Enabled, ProbesCarry, From, Explained, Note;
    forall sid, r | 0 <= sid < |v.sessions| && (r in v.sessions[sid].ch || r in v.sessions[sid].got)
      ensures Explained(v, m, sid, r)
    {
      QueuedExplained(w, e, log, sid, r);
    }
    forall svc | svc in v.active && v.active[svc].emit.Some?
      ensures exists n: nat :: From(v, m, v.active[svc].emit.value.sid, v.active[svc].emit.value.reply, n, svc)
    {
      EmissionStep(w, e, svc);
      if e == Visit(svc) {
        assert m == log by { NoteOnlyIssues(w, log, e); }
        var n := VisitFrom(w, svc, log);
      } else {
        var r, sid := w.active[svc].emit.value.reply, w.active[svc].emit.value.sid;
        var n: nat :| From(w, log, sid, r, n, svc);
        StillFrom(w, e, log, sid, r, n, svc);
      }
    }
  }

  lemma NoteOnlyIssues(w: World, log: map<nat, Sent>, e: Event)
    requires !e.Issue?
    ensures Note(w, log, e) == log
  {
  }

  lemma {:induction false} RunExplains(w: World, log: map<nat, Sent>, es: seq<Event>)
    requires Inv(w) && Legal(w, es) && ProbesCarry(w, log) && RepliesExplained(w, log)
    ensures ProbesCarry(Exec(w, es), LogOf(w, log, es)) && RepliesExplained(Exec(w, es), LogOf(w, log, es))
    decreases |es|
  {
    hide Inv, Next, Enabled, ProbesCarry, RepliesExplained, Note;
    if es != [] {
      StepKeepsInv(w, es[0]);
      StepCarries(w, es[0], log);
      StepExplains(w, es[0], log);
      RunExplains(Next(w, es[0]), Note(w, log, es[0]), es[1..]);
    }
  }

  /** Over every run: each reply received or buffered by a session answers a ping of that session which some answer
      took, with that answer's node, the time from the ping to the answer, and the hops the packet had gone. */
  lemma RepliesTellTheTruth(timeout: int, es: seq<Event>, sid: nat, r: Reply)
    requires Legal(Init(timeout), es) && sid < |Exec(Init(timeout), es).sessions|
    requires r in Exec(Init(timeout), es).sessions[sid].ch || r in Exec(Init(timeout), es).sessions[sid].got
    ensures Explained(Exec(Init(timeout), es), LogOf(Init(timeout), map[], es), sid, r)
  {
    RunExplains(Init(timeout), map[], es);
    hide Explained, ProbesCarry, Exec, LogOf;
  }

  /** So does each reply still to be sent, for the answer that made it. */
  lemma EmissionsTellTheTruth(timeout: int, es: seq<Event>, svc: nat) returns (n: nat)
    requires Legal(Init(timeout), es) && svc in Exec(Init(timeout), es).active
    requires Exec(Init(timeout), es).active[svc].emit.Some?
    ensures var w := Exec(Init(timeout), es);
            From(w, LogOf(Init(timeout), map[], es), w.active[svc].emit.value.sid, w.active[svc].emit.value.reply, n, svc)
  {
    RunExplains(Init(timeout), map[], es);
    var w, log := Exec(Init(timeout), es), LogOf(Init(timeout), map[], es);
    hide From, Explained, ProbesCarry, Exec, LogOf;
    n :| From(w, log, w.active[svc].emit.value.sid, w.active[svc].emit.value.reply, n, svc);
  }

  /** The ping asked for with k, answered with one hop to live, tells a distance of k + 1. */
  lemma PingDistance(r: Reply, k: int, now: int, res: Answer)
    requires Tells(r, Sent(k, now), res) && res.ttl == 1 && k >= 0
    ensures r.hops == k + 1
  {
  }

  // ----- first in, first out -----

  /** The replies a session has received and those it has buffered, in the order in which they were sent. */
  ghost function Queue(w: World, sid: nat): seq<Reply>
    requires sid < |w.sessions|
  {
    w.sessions[sid].got + w.sessions[sid].ch
  }

  /** Only a send adds to the queue, at its end, and only below 64 buffered replies; nothing is taken out of turn. */
  lemma QueueGrowsAtTheEnd(w: World, e: Event, sid: nat)
    requires Inv(w) && Enabled(w, e) && sid < |w.sessions|
    ensures sid < |Next(w, e).sessions|
    ensures Queue(Next(w, e), sid) ==
            Queue(w, sid) + (if e.Emit? && w.active[e.svc].emit.value.sid == sid && |w.sessions[sid].ch| < 64
                             then [w.active[e.svc].emit.value.reply] else [])
  {
    StepGrows(w, e);
    var v := Next(w, e);
    if e.Visit? {
      assert w.active[e.svc].todo[0] in w.active[e.svc].todo;
      hide Kept, Hit, MakeReply, FatesInv, TicketsInv, SessionInv, FateAfterVisit;
      assert Queue(v, sid) == Queue(w, sid);
    } else {
      hide FatesInv, TicketsInv, SessionInv;
      if e.Receive? && e.sid == sid {
        var s := w.sessions[sid];
        assert s.got + [s.ch[0]] + s.ch[1..] == s.got + s.ch;
      }
    }
  }

  /** In every step a session's pending probes stay as they are, or gain the appended probe at the end, or lose what an
      answer visiting it matched or found expired; that visit makes a reply exactly if one matched, answering the last. */
  lemma ProbesStep(w: World, e: Event, sid: nat)
    requires Inv(w) && Enabled(w, e) && sid < |w.sessions|
    ensures sid < |Next(w, e).sessions|
    ensures var ps, qs := w.sessions[sid].probes, Next(w, e).sessions[sid].probes;
            if e.Append? && w.tickets[e.serial].sid == sid then qs == ps + [w.tickets[e.serial].probe]
            else if e.Visit? && w.active[e.svc].todo[0] == sid then
              var res, emit := w.arrivals[e.svc].res, Next(w, e).active[e.svc].emit;
              && qs == Kept(ps, res, w.timeout)
              && (emit == None <==> Hit(ps, res, w.timeout) == [])
              && (emit.Some? ==> emit.value.sid == sid && AnswersLast(emit.value.reply, ps, res, w.timeout))
            else qs == ps
  {
    StepGrows(w, e);
    if e.Visit? {
      assert w.active[e.svc].todo[0] in w.active[e.svc].todo;
      ReplyExactly(w.sessions[w.active[e.svc].todo[0]].probes, w.arrivals[e.svc].res, w.timeout);
      hide Kept, Hit, MakeReply, FatesInv, TicketsInv, SessionInv, FateAfterVisit, AnswersLast;
    } else {
      hide FatesInv, SessionInv, RegistryInv;
    }
  }
}
