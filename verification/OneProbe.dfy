/** Which probes an answer consumes, told from the pending lists and the appends, and when that is at most one. */
module OneProbe {
  import opened Lists
  import opened Tracing
  import opened Interleaving
  import opened Demultiplexing

  /** The probe is unexpired and matches the answer. */
  predicate Fits(p: Probe, res: Answer, timeout: int) {
    !Expired(p, res, timeout) && Matches(p, res)
  }

  /** The serials of the fitting probes in the session an answer visits next. */
  ghost function Matching(w: World, svc: nat): set<nat>
    requires Inv(w) && Enabled(w, Visit(svc))
  {
    var sid := w.active[svc].todo[0];
    assert sid in w.active[svc].todo;
    Serials(Hit(w.sessions[sid].probes, w.arrivals[svc].res, w.timeout))
  }

  /** A visit adds to what its answer has taken exactly the matching probes of the session visited. */
  lemma VisitTakes(w: World, svc: nat, n: nat)
    requires Inv(w) && Enabled(w, Visit(svc))
    ensures TakenBy(Next(w, Visit(svc)), n, svc) <==> TakenBy(w, n, svc) || n in Matching(w, svc)
  {
    var sid := w.active[svc].todo[0];
    assert sid in w.active[svc].todo;
    var ps, res := w.sessions[sid].probes, w.arrivals[svc].res;
    assert SessionInv(w, sid);
    VisitSerials(ps, res, w.timeout);
    hide Kept, Hit, Tracing.Dropped, MakeReply, FatesInv, TicketsInv, RegistryInv, DistinctSerials;
  }

  /** An answer takes probes on its own visits only. */
  lemma TakenOnVisit(w: World, e: Event, n: nat, svc: nat)
    requires Inv(w) && Enabled(w, e) && e != Visit(svc)
    ensures TakenBy(Next(w, e), n, svc) <==> TakenBy(w, n, svc)
  {
    if e.Visit? {
      var sid := w.active[e.svc].todo[0];
      assert sid in w.active[e.svc].todo;
      VisitMoves(w, e.svc);
      hide FatesInv, TicketsInv, SessionInv, RegistryInv, TakenRight, FateAfterVisit;
    } else {
      hide SessionInv, RegistryInv, TakenRight;
    }
  }

  lemma ArrivalsStep(w: World, e: Event)
    requires Inv(w) && Enabled(w, e)
    ensures w.arrivals <= Next(w, e).arrivals
  {
    hide FatesInv, TicketsInv, SessionInv, FateAfterVisit;
    if e.Visit? {
      assert w.active[e.svc].todo[0] in w.active[e.svc].todo;
    }
  }

  lemma {:induction false} ArrivalsGrow(w: World, es: seq<Event>)
    requires Inv(w) && Legal(w, es)
    ensures w.arrivals <= Exec(w, es).arrivals
    decreases |es|
  {
    hide Inv, Next, Enabled;
    if es != [] {
      StepKeepsInv(w, es[0]);
      ArrivalsStep(w, es[0]);
      ArrivalsGrow(Next(w, es[0]), es[1..]);
    }
  }

  /** An answer that has taken a probe has arrived. */
  lemma TakenArrived(w: World, n: nat, svc: nat)
    requires Inv(w) && TakenBy(w, n, svc)
    ensures svc < |w.arrivals|
  {
    assert TakenRight(w, n);
  }

  // ----- the probes an answer consumes when no other answer for its destination is served meanwhile -----

  function Todo(w: World, svc: nat): seq<nat> {
    if svc in w.active then w.active[svc].todo else []
  }

  /** The session holds a fitting probe with this serial. */
  ghost predicate Holds(w: World, sid: nat, res: Answer, n: nat) {
    sid < |w.sessions| && exists p :: p in w.sessions[sid].probes && p.serial == n && Fits(p, res, w.timeout)
  }

  /** Some session the answer has yet to visit holds it. */
  ghost predicate Waiting(w: World, svc: nat, n: nat) {
    svc < |w.arrivals| && exists sid :: sid in Todo(w, svc) && Holds(w, sid, w.arrivals[svc].res, n)
  }

  /** The event appends a fitting probe with this serial to a session the answer has yet to visit. */
  ghost predicate Joins(w: World, e: Event, svc: nat, n: nat) {
    && svc < |w.arrivals| && e == Append(n) && n in w.tickets
    && w.tickets[n].sid in Todo(w, svc) && Fits(w.tickets[n].probe, w.arrivals[svc].res, w.timeout)
  }

  ghost predicate JoinsIn(w: World, es: seq<Event>, svc: nat, n: nat)
    requires Inv(w) && Legal(w, es)
    decreases |es|
  {
    es != [] && (Joins(w, es[0], svc, n) || (StepKeepsInv(w, es[0]); JoinsIn(Next(w, es[0]), es[1..], svc, n)))
  }

  /** The event is no visit of another answer for the same destination. */
  ghost predicate Sole(w: World, e: Event, svc: nat)
    requires Inv(w) && Enabled(w, e) && svc < |w.arrivals|
  {
    e.Visit? && e.svc != svc ==> w.arrivals[e.svc].dst != w.arrivals[svc].dst
  }

  /** Each socket has one reader, which serves an answer to its end before it reads the next. */
  ghost predicate Alone(w: World, es: seq<Event>, svc: nat)
    requires Inv(w) && Legal(w, es) && svc < |w.arrivals|
    decreases |es|
  {
    es == [] || (Sole(w, es[0], svc)
                 && (StepKeepsInv(w, es[0]); ArrivalsStep(w, es[0]); Alone(Next(w, es[0]), es[1..], svc)))
  }

  lemma MatchingHolds(w: World, svc: nat, n: nat)
    requires Inv(w) && Enabled(w, Visit(svc))
    ensures svc < |w.arrivals|
    ensures n in Matching(w, svc) <==> Holds(w, w.active[svc].todo[0], w.arrivals[svc].res, n)
  {
    var sid := w.active[svc].todo[0];
    assert sid in w.active[svc].todo;
    var ps, res := w.sessions[sid].probes, w.arrivals[svc].res;
    HandleGroups(ps, res, w.timeout);
    hide Hit, Expired, Matches, FatesInv, TicketsInv, SessionInv;
    assert forall p :: p in Hit(ps, res, w.timeout) <==> p in ps && Fits(p, res, w.timeout);
  }

  lemma TailMembers(todo: seq<nat>)
    requires todo != [] && Distinct(todo)
    ensures forall sid :: sid in todo[1..] <==> sid in todo && sid != todo[0]
  {
    assert todo == [todo[0]] + todo[1..];
  }

  /** A visit leaves the sessions still to visit as they were. */
  lemma OwnVisitFrame(w: World, svc: nat)
    requires Inv(w) && Enabled(w, Visit(svc))
    ensures var v, todo := Next(w, Visit(svc)), w.active[svc].todo;
            && Todo(v, svc) == todo[1..] && v.arrivals == w.arrivals && v.timeout == w.timeout
            && |v.sessions| == |w.sessions| && Distinct(todo)
            && forall sid :: sid in todo[1..] ==> sid < |w.sessions| && v.sessions[sid] == w.sessions[sid]
  {
    var todo := w.active[svc].todo;
    assert todo[0] in todo;
    assert ListsSessionsOf(w, w.arrivals[svc].dst, todo);
    TailMembers(todo);
    hide FatesInv, TicketsInv, SessionInv, RegistryInv, FateAfterVisit, Kept, Hit, Distinct;
  }

  /** Visiting the first session moves what waits there to what is taken. */
  lemma OwnVisit(w: World, svc: nat, n: nat)
    requires Inv(w) && Enabled(w, Visit(svc))
    ensures var v := Next(w, Visit(svc));
            TakenBy(v, n, svc) || Waiting(v, svc, n) <==> TakenBy(w, n, svc) || Waiting(w, svc, n)
  {
    var v, todo := Next(w, Visit(svc)), w.active[svc].todo;
    assert Todo(w, svc) == todo;
    VisitTakes(w, svc, n);
    MatchingHolds(w, svc, n);
    OwnVisitFrame(w, svc);
    TailMembers(todo);
    var res := w.arrivals[svc].res;
    hide Inv, Next, Enabled, Fits, TakenBy, Matching, Todo, Distinct;
    forall sid | sid in todo[1..] ensures Holds(v, sid, res, n) <==> Holds(w, sid, res, n) {
    }
    hide Holds;
    if Waiting(v, svc, n) {
      var sid :| sid in todo[1..] && Holds(v, sid, res, n);
    }
    if Waiting(w, svc, n) {
      var sid :| sid in todo && Holds(w, sid, res, n);
    }
    assert todo[0] in todo;
  }

  /** A visit for another destination touches none of the answer's sessions. */
  lemma OtherVisit(w: World, e: Event, svc: nat, n: nat)
    requires Inv(w) && Enabled(w, e) && e.Visit? && e.svc != svc && svc < |w.arrivals| && Sole(w, e, svc)
    ensures Waiting(Next(w, e), svc, n) <==> Waiting(w, svc, n)
  {
    var v, sid := Next(w, e), w.active[e.svc].todo[0];
    assert sid in w.active[e.svc].todo;
    assert ListsSessionsOf(w, w.arrivals[e.svc].dst, w.active[e.svc].todo);
    assert svc in w.active ==> ListsSessionsOf(w, w.arrivals[svc].dst, w.active[svc].todo);
    assert sid !in Todo(w, svc) && Todo(v, svc) == Todo(w, svc);
    hide FatesInv, TicketsInv, SessionInv, RegistryInv, FateAfterVisit, Kept, Hit, Fits;
    forall k | k in Todo(w, svc) ensures Holds(v, k, w.arrivals[svc].res, n) <==> Holds(w, k, w.arrivals[svc].res, n) {
    }
  }

  /** An append adds its probe to its session and nothing else. */
  lemma AppendWaits(w: World, e: Event, svc: nat, n: nat)
    requires Inv(w) && Enabled(w, e) && e.Append? && svc < |w.arrivals|
    ensures Waiting(Next(w, e), svc, n) <==> Waiting(w, svc, n) || Joins(w, e, svc, n)
  {
    var v, t, res := Next(w, e), w.tickets[e.serial], w.arrivals[svc].res;
    assert t.sid < |w.sessions| && t.probe.serial == e.serial;
    hide FatesInv, TicketsInv, SessionInv, RegistryInv, Fits;
    assert v.sessions[t.sid].probes == w.sessions[t.sid].probes + [t.probe];
    forall sid | 0 <= sid < |w.sessions|
      ensures Holds(v, sid, res, n) <==>
              Holds(w, sid, res, n) || (sid == t.sid && e.serial == n && Fits(t.probe, res, w.timeout))
    {
      if sid == t.sid {
        assert t.probe in v.sessions[sid].probes;
      } else {
        assert v.sessions[sid] == w.sessions[sid];
      }
    }
  }

  /** No other event changes what waits for the answer. */
  lemma RestWaits(w: World, e: Event, svc: nat, n: nat)
    requires Inv(w) && Enabled(w, e) && !e.Visit? && !e.Append? && svc < |w.arrivals|
    ensures svc < |Next(w, e).arrivals| && (Waiting(Next(w, e), svc, n) <==> Waiting(w, svc, n))
  {
    var v, res := Next(w, e), w.arrivals[svc].res;
    hide FatesInv, TicketsInv, SessionInv, RegistryInv, Fits;
    assert Todo(v, svc) == Todo(w, svc) && v.arrivals[svc] == w.arrivals[svc];
    if Todo(w, svc) != [] {
      assert svc in w.active && !e.Open?;
      assert |v.sessions| == |w.sessions|;
      forall sid | 0 <= sid < |w.sessions| ensures Holds(v, sid, res, n) <==> Holds(w, sid, res, n) {
        assert v.sessions[sid].probes == w.sessions[sid].probes;
      }
    }
  }

  lemma StepServes(w: World, e: Event, svc: nat, n: nat)
    requires Inv(w) && Enabled(w, e) && svc < |w.arrivals| && Sole(w, e, svc)
    ensures var v := Next(w, e);
            TakenBy(v, n, svc) || Waiting(v, svc, n) <==>
            TakenBy(w, n, svc) || Waiting(w, svc, n) || Joins(w, e, svc, n)
  {
    if e == Visit(svc) {
      OwnVisit(w, svc, n);
    } else {
      TakenOnVisit(w, e, n, svc);
      hide Inv, Next, Enabled, TakenBy, Waiting, Sole;
      if e.Visit? {
        OtherVisit(w, e, svc, n);
      } else if e.Append? {
        AppendWaits(w, e, svc, n);
      } else {
        RestWaits(w, e, svc, n);
      }
    }
  }

  lemma {:induction false} RunServes(w: World, es: seq<Event>, svc: nat, n: nat)
    requires Inv(w) && Legal(w, es) && svc < |w.arrivals| && Alone(w, es, svc)
    requires Todo(Exec(w, es), svc) == []
    ensures TakenBy(Exec(w, es), n, svc) <==> TakenBy(w, n, svc) || Waiting(w, svc, n) || JoinsIn(w, es, svc, n)
    decreases |es|
  {
    if es == [] {
      hide Inv;
    } else {
      hide Inv, Next, Enabled, TakenBy, Waiting, Sole, Joins, Todo;
      StepKeepsInv(w, es[0]);
      ArrivalsStep(w, es[0]);
      StepServes(w, es[0], svc, n);
      RunServes(Next(w, es[0]), es[1..], svc, n);
    }
  }

  /** A fitting probe with this serial is pending in a session registered for the destination. */
  ghost predicate PendingFor(w: World, dst: IP, res: Answer, n: nat) {
    exists sid :: sid in RegisteredAt(w, dst) && Holds(w, sid, res, n)
  }

  /** It is pending there now, or some event appends it to such a session before the answer visits that. */
  ghost predicate Offered(w: World, dst: IP, res: Answer, es: seq<Event>, n: nat)
    requires Inv(w) && Inv(Next(w, Arrive(dst, res))) && Legal(Next(w, Arrive(dst, res)), es)
  {
    PendingFor(w, dst, res, n) || JoinsIn(Next(w, Arrive(dst, res)), es, |w.arrivals|, n)
  }

  /**
   * From the arrival of an answer to the end of its service, with no other answer for its destination served in
   * between: it consumes exactly the fitting probes that are pending in the destination's sessions when it arrives,
   * and those appended to one of them before its visit.
   */
  lemma AnswerConsumes(w: World, dst: IP, res: Answer, es: seq<Event>, n: nat)
    requires Inv(w) && Inv(Next(w, Arrive(dst, res))) && Legal(Next(w, Arrive(dst, res)), es)
    requires Alone(Next(w, Arrive(dst, res)), es, |w.arrivals|)
    requires Todo(Exec(Next(w, Arrive(dst, res)), es), |w.arrivals|) == []
    ensures var svc, u := |w.arrivals|, Next(w, Arrive(dst, res));
            TakenBy(Exec(u, es), n, svc) <==> Offered(w, dst, res, es, n)
  {
    var svc, u := |w.arrivals|, Next(w, Arrive(dst, res));
    RunServes(u, es, svc, n);
    TakenOnVisit(w, Arrive(dst, res), n, svc);
    if TakenBy(w, n, svc) {
      TakenArrived(w, n, svc);
    }
    hide Inv, Enabled, TakenBy, Fits, JoinsIn;
    assert Todo(u, svc) == RegisteredAt(w, dst) && u.arrivals[svc].res == res;
    forall sid ensures Holds(u, sid, res, n) <==> Holds(w, sid, res, n) {
    }
  }

  /** So it consumes at most one if and only if there is at most one such probe. */
  lemma OneProbeExactly(w: World, dst: IP, res: Answer, es: seq<Event>)
    requires Inv(w) && Inv(Next(w, Arrive(dst, res))) && Legal(Next(w, Arrive(dst, res)), es)
    requires Alone(Next(w, Arrive(dst, res)), es, |w.arrivals|)
    requires Todo(Exec(Next(w, Arrive(dst, res)), es), |w.arrivals|) == []
    ensures var svc, u := |w.arrivals|, Next(w, Arrive(dst, res));
            (forall n: nat, m: nat :: TakenBy(Exec(u, es), n, svc) && TakenBy(Exec(u, es), m, svc) ==> n == m) <==>
            (forall n: nat, m: nat :: Offered(w, dst, res, es, n) && Offered(w, dst, res, es, m) ==> n == m)
  {
    var svc, u := |w.arrivals|, Next(w, Arrive(dst, res));
    hide *;
    forall n: nat ensures TakenBy(Exec(u, es), n, svc) <==> Offered(w, dst, res, es, n) {
      AnswerConsumes(w, dst, res, es, n);
    }
  }

  /** And it consumes nothing, as a duplicate should, if and only if there is no such probe. */
  lemma NothingTakenExactly(w: World, dst: IP, res: Answer, es: seq<Event>)
    requires Inv(w) && Inv(Next(w, Arrive(dst, res))) && Legal(Next(w, Arrive(dst, res)), es)
    requires Alone(Next(w, Arrive(dst, res)), es, |w.arrivals|)
    requires Todo(Exec(Next(w, Arrive(dst, res)), es), |w.arrivals|) == []
    ensures var svc, u := |w.arrivals|, Next(w, Arrive(dst, res));
            (forall n: nat :: !TakenBy(Exec(u, es), n, svc)) <==> (forall n: nat :: !Offered(w, dst, res, es, n))
  {
    var svc, u := |w.arrivals|, Next(w, Arrive(dst, res));
    hide *;
    forall n: nat ensures TakenBy(Exec(u, es), n, svc) <==> Offered(w, dst, res, es, n) {
      AnswerConsumes(w, dst, res, es, n);
    }
  }

  // ----- what the window over the pending probes is enough for -----

  /** A fitting probe of a session is pending there; an IPv4 answer carries the id of its serial. */
  lemma MatchingPending(w: World, svc: nat, n: nat)
    requires Inv(w) && Enabled(w, Visit(svc)) && n in Matching(w, svc)
    ensures svc < |w.arrivals| && PendingAt(w, w.arrivals[svc].dst, n)
    ensures w.arrivals[svc].res.ip.V4? ==> w.arrivals[svc].res.id == n % ID_SPACE
  {
    var sid := w.active[svc].todo[0];
    assert sid in w.active[svc].todo;
    assert ListsSessionsOf(w, w.arrivals[svc].dst, w.active[svc].todo) && SessionInv(w, sid);
    MatchingHolds(w, svc, n);
    hide FatesInv, TicketsInv, RegistryInv, Matching;
    var p :| p in w.sessions[sid].probes && p.serial == n && Fits(p, w.arrivals[svc].res, w.timeout);
    assert n in Serials(w.sessions[sid].probes);
  }

  /** While the pending probes of a destination span fewer than 65536 numbers, a visit takes at most one probe. */
  lemma VisitTakesOne(w: World, svc: nat, n: nat, m: nat)
    requires Inv(w) && Enabled(w, Visit(svc)) && n in Matching(w, svc) && m in Matching(w, svc)
    requires svc < |w.arrivals| && w.arrivals[svc].res.ip.V4? && PendingWindowed(w, w.arrivals[svc].dst)
    ensures n == m
  {
    MatchingPending(w, svc, n);
    MatchingPending(w, svc, m);
    hide Inv, Matching, Enabled;
    if n < m { CongruentApart(n, m); }
    if m < n { CongruentApart(m, n); }
  }

  /** Answers for the destination arrive only while at most one session is registered for it. */
  ghost predicate SingleSession(w: World, es: seq<Event>, dst: IP)
    requires Inv(w) && Legal(w, es)
    decreases |es|
  {
    es == [] || ((es[0].Arrive? && es[0].dst == dst ==> |RegisteredAt(w, dst)| <= 1)
                 && (StepKeepsInv(w, es[0]); SingleSession(Next(w, es[0]), es[1..], dst)))
  }

  /** An answer for the destination has at most one session to visit, and has taken nothing before. */
  ghost predicate FirstVisit(w: World, svc: nat) {
    |Todo(w, svc)| <= 1 && (Todo(w, svc) != [] ==> forall n: nat :: !TakenBy(w, n, svc))
  }

  ghost predicate FirstVisits(w: World, dst: IP) {
    forall svc :: 0 <= svc < |w.arrivals| && w.arrivals[svc].dst == dst ==> FirstVisit(w, svc)
  }

  /** What an answer has yet to visit is fixed when it arrives and shrinks by its own visits only. */
  lemma TodoStep(w: World, e: Event, svc: nat)
    requires Inv(w) && Enabled(w, e) && svc < |w.arrivals|
    ensures Todo(Next(w, e), svc) == if e == Visit(svc) then Todo(w, svc)[1..] else Todo(w, svc)
  {
    hide FatesInv, TicketsInv, SessionInv, FateAfterVisit;
    if e.Visit? {
      assert w.active[e.svc].todo[0] in w.active[e.svc].todo;
    }
  }

  lemma ArriveTodo(w: World, dst: IP, res: Answer)
    requires Inv(w)
    ensures var v := Next(w, Arrive(dst, res));
            && Todo(v, |w.arrivals|) == RegisteredAt(w, dst)
            && v.arrivals == w.arrivals + [Arrival(dst, res)]
            && forall n: nat :: !TakenBy(v, n, |w.arrivals|)
  {
    forall n: nat ensures !TakenBy(Next(w, Arrive(dst, res)), n, |w.arrivals|) {
      if TakenBy(w, n, |w.arrivals|) {
        TakenArrived(w, n, |w.arrivals|);
      }
    }
  }

  lemma OnlyArriveGrows(w: World, e: Event)
    requires Inv(w) && Enabled(w, e) && !e.Arrive?
    ensures Next(w, e).arrivals == w.arrivals
  {
    hide FatesInv, TicketsInv, SessionInv, FateAfterVisit;
    if e.Visit? {
      assert w.active[e.svc].todo[0] in w.active[e.svc].todo;
    }
  }

  lemma FirstVisitStep(w: World, e: Event, svc: nat)
    requires Inv(w) && Enabled(w, e) && svc < |w.arrivals| && FirstVisit(w, svc)
    ensures FirstVisit(Next(w, e), svc)
  {
    TodoStep(w, e, svc);
    if e == Visit(svc) {
      assert Todo(w, svc)[1..] == [];
    } else {
      forall n: nat ensures TakenBy(Next(w, e), n, svc) <==> TakenBy(w, n, svc) {
        TakenOnVisit(w, e, n, svc);
      }
    }
    hide Inv, Next, Enabled, Todo, TakenBy;
  }

  lemma FirstVisitsStep(w: World, e: Event, dst: IP)
    requires Inv(w) && Enabled(w, e) && FirstVisits(w, dst)
    requires e.Arrive? && e.dst == dst ==> |RegisteredAt(w, dst)| <= 1
    ensures FirstVisits(Next(w, e), dst)
  {
    var v := Next(w, e);
    ArrivalsStep(w, e);
    if e.Arrive? {
      ArriveTodo(w, e.dst, e.res);
    } else {
      OnlyArriveGrows(w, e);
    }
    hide Inv, Next, Enabled, TakenBy, Todo;
    forall svc | 0 <= svc < |v.arrivals| && v.arrivals[svc].dst == dst ensures FirstVisit(v, svc) {
      if svc < |w.arrivals| {
        FirstVisitStep(w, e, svc);
      }
    }
  }

  lemma ActiveArrived(w: World, svc: nat)
    requires Inv(w) && svc in w.active
    ensures svc < |w.arrivals|
  {
  }

  lemma SingleStep(w: World, e: Event, dst: IP)
    requires Inv(w) && Enabled(w, e) && OneProbeEach(w, dst) && FirstVisits(w, dst) && PendingWindowed(w, dst)
    ensures OneProbeEach(Next(w, e), dst)
  {
    var v := Next(w, e);
    ArrivalsStep(w, e);
    forall svc: nat, n: nat, m: nat | svc < |v.arrivals| && v.arrivals[svc].dst == dst && v.arrivals[svc].res.ip.V4?
                            && TakenBy(v, n, svc) && TakenBy(v, m, svc)
      ensures n == m
    {
      if e == Visit(svc) {
        ActiveArrived(w, svc);
        VisitTakes(w, svc, n);
        VisitTakes(w, svc, m);
        assert !TakenBy(w, n, svc) && !TakenBy(w, m, svc);
        VisitTakesOne(w, svc, n, m);
      } else {
        TakenOnVisit(w, e, n, svc);
        TakenOnVisit(w, e, m, svc);
        TakenArrived(w, n, svc);
      }
      hide Inv, Next, Enabled, TakenBy;
    }
  }

  lemma {:induction false} SingleRun(w: World, es: seq<Event>, dst: IP)
    requires Inv(w) && Legal(w, es) && OneProbeEach(w, dst) && FirstVisits(w, dst)
    requires PendingWindowedRun(w, es, dst) && SingleSession(w, es, dst)
    ensures OneProbeEach(Exec(w, es), dst)
    decreases |es|
  {
    hide Inv, Next, Enabled, OneProbeEach, FirstVisits, PendingWindowed;
    if es != [] {
      StepKeepsInv(w, es[0]);
      SingleStep(w, es[0], dst);
      FirstVisitsStep(w, es[0], dst);
      SingleRun(Next(w, es[0]), es[1..], dst);
    }
  }

  /** With one session registered at a time, the window over the pending probes alone is enough, over any run. */
  lemma OneSessionOneProbe(timeout: int, es: seq<Event>, dst: IP)
    requires Legal(Init(timeout), es) && PendingWindowedRun(Init(timeout), es, dst)
    requires SingleSession(Init(timeout), es, dst)
    ensures OneProbeEach(Exec(Init(timeout), es), dst)
  {
    SingleRun(Init(timeout), es, dst);
  }

  // ----- duplicates -----

  /** Every pending probe of the destination has a serial within 65535 of n. */
  ghost predicate Near(w: World, dst: IP, n: nat) {
    forall m: nat :: PendingAt(w, dst, m) ==> m - n < ID_SPACE && n - m < ID_SPACE
  }

  ghost predicate NearRun(w: World, es: seq<Event>, dst: IP, n: nat)
    requires Inv(w) && Legal(w, es)
    decreases |es|
  {
    Near(w, dst, n) && (es != [] ==> (StepKeepsInv(w, es[0]); NearRun(Next(w, es[0]), es[1..], dst, n)))
  }

  lemma DuplicateStep(w: World, e: Event, n: nat, svc: nat, m: nat, dup: nat)
    requires Inv(w) && Enabled(w, e) && TakenBy(w, n, svc) && TakenBy(Next(w, e), m, dup)
    requires dup < |w.arrivals| ==> w.arrivals[dup].res.ip.V4? && w.arrivals[dup].res.id == n % ID_SPACE
                                    && Near(w, w.arrivals[dup].dst, n)
    ensures TakenBy(w, m, dup)
  {
    if e == Visit(dup) {
      VisitTakes(w, dup, m);
      if m in Matching(w, dup) {
        MatchingPending(w, dup, m);
        hide Inv, Matching, Enabled, Next;
        if n < m { CongruentApart(n, m); }
        if m < n { CongruentApart(m, n); }
      }
    } else {
      TakenOnVisit(w, e, m, dup);
    }
  }

  /**
   * Once n is taken, and for as long as the probes pending at the destination stay within 65535 of it, no IPv4 answer
   * with its id takes anything more there: a later answer takes nothing at all, whatever the sessions.
   */
  lemma {:induction false} DuplicateTakesNothing(w: World, es: seq<Event>, dst: IP, n: nat, svc: nat, m: nat, dup: nat)
    requires Inv(w) && Legal(w, es) && TakenBy(w, n, svc) && NearRun(w, es, dst, n)
    requires var v := Exec(w, es);
             && TakenBy(v, m, dup) && dup < |v.arrivals| && v.arrivals[dup].dst == dst
             && v.arrivals[dup].res.ip.V4? && v.arrivals[dup].res.id == n % ID_SPACE
    ensures TakenBy(w, m, dup) && dup < |w.arrivals|
    decreases |es|
  {
    if es != [] {
      hide Inv, Next, Enabled, Near, PendingAt;
      var u := Next(w, es[0]);
      StepKeepsInv(w, es[0]);
      FateStep(w, es[0], n);
      ArrivalsGrow(w, es);
      DuplicateTakesNothing(u, es[1..], dst, n, svc, m, dup);
      DuplicateStep(w, es[0], n, svc, m, dup);
      TakenArrived(w, m, dup);
    }
  }
}
