/** The traceroute engine as a state machine: every interleaving of probe
    issue, probe append, session open and close, answer service and receive.
    serveReply visits the sessions of a destination one by one; between two
    visits other goroutines may issue and append probes, but no session can be
    opened or closed, because the registry lock is held for reading. */
module Interleaving {
  import opened Lists
  import opened Tracing

  /** `hits`, `got` and `lost` are history: the number of matching handle calls, the replies received, in order, and
      the number of replies lost to a full channel. */
  datatype SessionState = SessionState(ip: IP, probes: seq<Probe>, ch: seq<Reply>, hits: nat, got: seq<Reply>, lost: nat)

  function NewSession(ip: IP): SessionState {
    SessionState(ip, [], [], 0, [], 0)
  }

  /** A probe whose id is issued but which is not yet in its session's list. */
  datatype Ticket = Ticket(sid: nat, probe: Probe)

  datatype Emission = Emission(sid: nat, reply: Reply)

  datatype Arrival = Arrival(dst: IP, res: Answer)

  /** An answer being served: sessions still to visit, and a reply not yet sent. */
  datatype Service = Service(todo: seq<nat>, emit: Option<Emission>)

  /** What has become of an issued probe, by its serial. */
  datatype Fate =
    | InFlight(sid: nat)
    | Unsent
    | Pending(sid: nat)
    | Dropped(sid: nat)
    | Taken(sid: nat, svc: nat)

  /** `arrivals` and `fate` are history: no step depends on `fate` except to record it. */
  datatype World = World(
    seq32: nat, issued: nat, tickets: map<nat, Ticket>, sessions: seq<SessionState>,
    registry: map<IP, seq<nat>>, active: map<nat, Service>,
    arrivals: seq<Arrival>, fate: map<nat, Fate>, timeout: int)

  datatype Event =
    | Open(ip: IP)
    | Close(sid: nat)
    | Issue(sid: nat, ttl: int, now: int)
    | SendFails(serial: nat)
    | Append(serial: nat)
    | Arrive(dst: IP, res: Answer)
    | Visit(svc: nat)
    | Emit(svc: nat)
    | Finish(svc: nat)
    | Receive(sid: nat)

  function Init(timeout: int): (w: World)
    ensures Inv(w)
  {
    World(0, 0, map[], [], map[], map[], [], map[], timeout)
  }

  function Serials(ps: seq<Probe>): set<nat> {
    set p | p in ps :: p.serial
  }

  function RegisteredAt(w: World, ip: IP): seq<nat> {
    if ip in w.registry then w.registry[ip] else []
  }

  // ----- invariant -----

  ghost predicate DistinctSerials(ps: seq<Probe>) {
    forall i, j :: 0 <= i < j < |ps| ==> ps[i].serial != ps[j].serial
  }

  /** A session's list holds exactly the probes whose fate is pending there, once each. */
  ghost predicate SessionInv(w: World, sid: nat)
    requires sid < |w.sessions|
  {
    var ps := w.sessions[sid].probes;
    && DistinctSerials(ps)
    && (forall n :: n in Serials(ps) <==> n in w.fate && w.fate[n] == Pending(sid))
    && (forall p :: p in ps ==> p.id == p.serial % ID_SPACE)
  }

  ghost predicate TicketsInv(w: World) {
    && (forall n :: n in w.tickets <==> n in w.fate && w.fate[n].InFlight?)
    && (forall n :: n in w.tickets ==>
          var t := w.tickets[n];
          t.probe.serial == n && t.probe.id == n % ID_SPACE && t.sid < |w.sessions| && w.fate[n] == InFlight(t.sid))
  }

  ghost predicate FatesInv(w: World) {
    && (forall n :: n in w.fate <==> 1 <= n <= w.issued)
    && (forall n :: n in w.fate && w.fate[n].Pending? ==> w.fate[n].sid < |w.sessions|)
    && (forall n :: n in w.fate && w.fate[n].Taken? ==> TakenRight(w, n))
  }

  /** A taken probe belongs to a session of the answer's destination, and an
      IPv4 answer carries the id its request was sent with. */
  ghost predicate TakenRight(w: World, n: nat)
    requires n in w.fate && w.fate[n].Taken?
  {
    var f := w.fate[n];
    && f.svc < |w.arrivals| && f.sid < |w.sessions|
    && w.sessions[f.sid].ip == w.arrivals[f.svc].dst
    && (w.arrivals[f.svc].res.ip.V4? ==> w.arrivals[f.svc].res.id == n % ID_SPACE)
  }

  ghost predicate ListsSessionsOf(w: World, ip: IP, sids: seq<nat>) {
    Distinct(sids) && forall sid :: sid in sids ==> sid < |w.sessions| && w.sessions[sid].ip == ip
  }

  ghost predicate RegistryInv(w: World) {
    && (forall ip :: ip in w.registry ==> ListsSessionsOf(w, ip, w.registry[ip]))
    && (forall svc :: svc in w.active ==>
          && svc < |w.arrivals|
          && ListsSessionsOf(w, w.arrivals[svc].dst, w.active[svc].todo)
          && (w.active[svc].emit.Some? ==> w.active[svc].emit.value.sid < |w.sessions|))
  }

  ghost predicate Inv(w: World) {
    && w.seq32 == w.issued % COUNTER_SPACE
    && FatesInv(w) && TicketsInv(w) && RegistryInv(w)
    && (forall sid :: 0 <= sid < |w.sessions| ==> SessionInv(w, sid))
    && (forall sid :: 0 <= sid < |w.sessions| ==> |w.sessions[sid].ch| <= CHANNEL_CAPACITY)
  }

  // ----- steps -----

  /** Opening and closing take the registry lock, so no answer is being served. */
  ghost predicate Enabled(w: World, e: Event) {
    match e
    case Open(_) => w.active == map[]
    case Close(sid) => sid < |w.sessions| && w.active == map[]
    case Issue(sid, _, _) => sid < |w.sessions|
    case SendFails(n) => n in w.tickets
    case Append(n) => n in w.tickets
    case Arrive(_, _) => true
    case Visit(svc) => svc in w.active && w.active[svc].emit == None && w.active[svc].todo != []
    case Emit(svc) => svc in w.active && w.active[svc].emit.Some?
    case Finish(svc) => svc in w.active && w.active[svc].emit == None && w.active[svc].todo == []
    case Receive(sid) => sid < |w.sessions| && w.sessions[sid].ch != []
  }

  ghost function Next(w: World, e: Event): World
    requires Inv(w) && Enabled(w, e)
  {
    match e
    case Open(ip) =>
      w.(sessions := w.sessions + [NewSession(ip)],
         registry := w.registry[ip := RegisteredAt(w, ip) + [|w.sessions|]])
    case Close(sid) =>
      var ip := w.sessions[sid].ip;
      w.(registry := w.registry[ip := RemoveFirst(RegisteredAt(w, ip), sid)])
    case Issue(sid, ttl, now) =>
      var seq32 := (w.seq32 + 1) % COUNTER_SPACE;
      var n := w.issued + 1;
      w.(seq32 := seq32, issued := n,
         tickets := w.tickets[n := Ticket(sid, Probe(seq32 % ID_SPACE, ttl + 1, now, n))],
         fate := w.fate[n := InFlight(sid)])
    case SendFails(n) =>
      w.(tickets := w.tickets - {n}, fate := w.fate[n := Unsent])
    case Append(n) =>
      var t := w.tickets[n];
      var s := w.sessions[t.sid];
      w.(tickets := w.tickets - {n}, fate := w.fate[n := Pending(t.sid)],
         sessions := w.sessions[t.sid := s.(probes := s.probes + [t.probe])])
    case Arrive(dst, res) =>
      w.(arrivals := w.arrivals + [Arrival(dst, res)],
         active := w.active[|w.arrivals| := Service(RegisteredAt(w, dst), None)])
    case Visit(svc) =>
      var sid := w.active[svc].todo[0];
      assert sid in w.active[svc].todo;
      var s := w.sessions[sid];
      var res := w.arrivals[svc].res;
      var hit := Hit(s.probes, res, w.timeout);
      var emit := if hit == [] then None else Some(Emission(sid, MakeReply(hit[|hit|-1], res)));
      var hits := s.hits + (if hit == [] then 0 else 1);
      w.(sessions := w.sessions[sid := s.(probes := Kept(s.probes, res, w.timeout), hits := hits)],
         active := w.active[svc := Service(w.active[svc].todo[1..], emit)],
         fate := FateAfterVisit(w, sid, svc))
    case Emit(svc) =>
      var m := w.active[svc].emit.value;
      var s := w.sessions[m.sid];
      var lost := s.lost + (if |s.ch| < CHANNEL_CAPACITY then 0 else 1);
      w.(sessions := w.sessions[m.sid := s.(ch := Offer(s.ch, m.reply), lost := lost)],
         active := w.active[svc := w.active[svc].(emit := None)])
    case Finish(svc) =>
      w.(active := w.active - {svc})
    case Receive(sid) =>
      var s := w.sessions[sid];
      w.(sessions := w.sessions[sid := s.(ch := s.ch[1..], got := s.got + [s.ch[0]])])
  }

  function FateAfterVisit(w: World, sid: nat, svc: nat): map<nat, Fate>
    requires sid < |w.sessions| && svc < |w.arrivals|
  {
    var ps := w.sessions[sid].probes;
    var hit := Serials(Hit(ps, w.arrivals[svc].res, w.timeout));
    var dropped := Serials(Tracing.Dropped(ps, w.arrivals[svc].res, w.timeout));
    map n | n in w.fate :: if n in hit then Taken(sid, svc) else if n in dropped then Dropped(sid) else w.fate[n]
  }

  // ----- the invariant is kept by every step -----

  lemma {:induction false} FilterDistinctSerials(ps: seq<Probe>, keep: Probe -> bool)
    requires DistinctSerials(ps)
    ensures DistinctSerials(Filter(ps, keep))
  {
    if ps != [] {
      var front := ps[..|ps|-1];
      FilterDistinctSerials(front, keep);
      FilterMembers(front, keep);
      var f := Filter(front, keep);
      forall i | 0 <= i < |f| ensures f[i].serial != ps[|ps|-1].serial {
        assert f[i] in front;
        var j :| 0 <= j < |front| && front[j] == f[i];
        assert ps[j] == f[i];
      }
    }
  }

  lemma SameSerialSameProbe(ps: seq<Probe>, p: Probe, q: Probe)
    requires DistinctSerials(ps) && p in ps && q in ps && p.serial == q.serial
    ensures p == q
  {
  }

  /** Where the probes of the visited session go, by serial. */
  lemma VisitSerials(ps: seq<Probe>, res: Answer, timeout: int)
    requires DistinctSerials(ps)
    ensures DistinctSerials(Kept(ps, res, timeout))
    ensures Serials(ps) == Serials(Kept(ps, res, timeout)) + Serials(Hit(ps, res, timeout))
                           + Serials(Tracing.Dropped(ps, res, timeout))
    ensures Serials(Kept(ps, res, timeout)) !! Serials(Hit(ps, res, timeout))
    ensures Serials(Kept(ps, res, timeout)) !! Serials(Tracing.Dropped(ps, res, timeout))
  {
    HandleGroups(ps, res, timeout);
    FilterDistinctSerials(ps, p => !Expired(p, res, timeout) && !Matches(p, res));
    var kept, hit, dropped := Kept(ps, res, timeout), Hit(ps, res, timeout), Tracing.Dropped(ps, res, timeout);
    forall n ensures n in Serials(ps) <==> n in Serials(kept) + Serials(hit) + Serials(dropped) {
      if n in Serials(ps) {
        var p :| p in ps && p.serial == n;
        assert p in kept || p in hit || p in dropped;
      }
    }
    forall n | n in Serials(kept) ensures n !in Serials(hit) && n !in Serials(dropped) {
      var p :| p in kept && p.serial == n;
      forall q | q in ps && q.serial == n ensures q == p { SameSerialSameProbe(ps, p, q); }
    }
  }

  /** The visit changes the fates of matched and expired probes, and of no others. */
  lemma VisitMoves(w: World, svc: nat)
    requires Inv(w) && Enabled(w, Visit(svc))
    ensures var v, sid := Next(w, Visit(svc)), w.active[svc].todo[0];
            && sid < |w.sessions| && v.fate.Keys == w.fate.Keys
            && (forall n :: n in w.fate && v.fate[n] != w.fate[n] ==>
                  && w.fate[n] == Pending(sid)
                  && (v.fate[n] == Dropped(sid)
                      || (v.fate[n] == Taken(sid, svc)
                          && (w.arrivals[svc].res.ip.V4? ==> w.arrivals[svc].res.id == n % ID_SPACE))))
  {
    var v := Next(w, Visit(svc));
    var sid := w.active[svc].todo[0];
    assert sid in w.active[svc].todo;
    var res := w.arrivals[svc].res;
    var ps := w.sessions[sid].probes;
    assert SessionInv(w, sid);
    VisitSerials(ps, res, w.timeout);
    HandleGroups(ps, res, w.timeout);
    hide Kept, Hit, Tracing.Dropped, MakeReply, DistinctSerials, FatesInv, TicketsInv;
    forall n | n in Serials(Hit(ps, res, w.timeout)) && res.ip.V4? ensures res.id == n % ID_SPACE {
      var p :| p in Hit(ps, res, w.timeout) && p.serial == n;
    }
  }

  /** A probe that is taken after the visit was rightly taken. */
  lemma VisitTaken(w: World, svc: nat, n: nat)
    requires Inv(w) && Enabled(w, Visit(svc)) && n in Next(w, Visit(svc)).fate && Next(w, Visit(svc)).fate[n].Taken?
    ensures TakenRight(Next(w, Visit(svc)), n)
  {
    VisitMoves(w, svc);
    var v := Next(w, Visit(svc));
    var sid := w.active[svc].todo[0];
    assert sid in w.active[svc].todo;
    hide Kept, Hit, FateAfterVisit, MakeReply, SessionInv, TicketsInv;
    if v.fate[n] == w.fate[n] {
      assert TakenRight(w, n);
    } else {
      assert v.fate[n] == Taken(sid, svc);
      assert ListsSessionsOf(w, w.arrivals[svc].dst, w.active[svc].todo);
    }
  }

  lemma VisitFates(w: World, svc: nat)
    requires Inv(w) && Enabled(w, Visit(svc))
    ensures FatesInv(Next(w, Visit(svc)))
  {
    VisitMoves(w, svc);
    var v := Next(w, Visit(svc));
    assert w.active[svc].todo[0] in w.active[svc].todo;
    hide Kept, Hit, FateAfterVisit, MakeReply, SessionInv, TicketsInv, TakenRight, RegistryInv;
    forall n | n in v.fate && v.fate[n].Taken? ensures TakenRight(v, n) {
      VisitTaken(w, svc, n);
    }
  }

  lemma VisitTickets(w: World, svc: nat)
    requires Inv(w) && Enabled(w, Visit(svc))
    ensures TicketsInv(Next(w, Visit(svc)))
  {
    VisitMoves(w, svc);
    assert w.active[svc].todo[0] in w.active[svc].todo;
    hide Kept, Hit, FateAfterVisit, MakeReply, SessionInv, FatesInv;
  }

  lemma VisitSessions(w: World, svc: nat, k: nat)
    requires Inv(w) && Enabled(w, Visit(svc)) && k < |w.sessions|
    ensures SessionInv(Next(w, Visit(svc)), k)
  {
    var v := Next(w, Visit(svc));
    var sid := w.active[svc].todo[0];
    assert sid in w.active[svc].todo;
    var res := w.arrivals[svc].res;
    var ps := w.sessions[sid].probes;
    assert SessionInv(w, sid) && SessionInv(w, k);
    VisitSerials(ps, res, w.timeout);
    HandleGroups(ps, res, w.timeout);
    hide Kept, Hit, Tracing.Dropped, MakeReply, TakenRight, TicketsInv;
    if k != sid {
      assert v.sessions[k] == w.sessions[k];
      forall n ensures n in w.fate && w.fate[n] == Pending(k) <==> n in v.fate && v.fate[n] == Pending(k) {
        assert n in w.fate && w.fate[n] == Pending(k) ==> n !in Serials(ps);
      }
    }
  }

  lemma VisitRegistry(w: World, svc: nat)
    requires Inv(w) && Enabled(w, Visit(svc))
    ensures RegistryInv(Next(w, Visit(svc)))
  {
    var v := Next(w, Visit(svc));
    SameListing(w, v);
    var todo := w.active[svc].todo;
    assert todo[0] in todo;
    forall k | k in todo[1..] ensures k in todo {}
    assert ListsSessionsOf(w, w.arrivals[svc].dst, todo);
    assert ListsSessionsOf(w, w.arrivals[svc].dst, todo[1..]);
  }

  /** Listings stay right while no session changes its address. */
  lemma SameListing(w: World, v: World)
    requires |v.sessions| >= |w.sessions|
    requires forall i :: 0 <= i < |w.sessions| ==> v.sessions[i].ip == w.sessions[i].ip
    ensures forall ip, l :: ListsSessionsOf(w, ip, l) ==> ListsSessionsOf(v, ip, l)
  {
  }

  lemma VisitKeepsInv(w: World, svc: nat)
    requires Inv(w) && Enabled(w, Visit(svc))
    ensures Inv(Next(w, Visit(svc)))
  {
    VisitFates(w, svc);
    VisitTickets(w, svc);
    VisitRegistry(w, svc);
    forall k | 0 <= k < |w.sessions| ensures SessionInv(Next(w, Visit(svc)), k) {
      VisitSessions(w, svc, k);
    }
    assert w.active[svc].todo[0] in w.active[svc].todo;
  }

  lemma OpenKeepsInv(w: World, ip: IP)
    requires Inv(w) && Enabled(w, Open(ip))
    ensures Inv(Next(w, Open(ip)))
  {
    var v := Next(w, Open(ip));
    SameListing(w, v);
    forall k | 0 <= k < |v.sessions| ensures SessionInv(v, k) {
      if k < |w.sessions| { assert SessionInv(w, k); }
    }
    assert FatesInv(v) by {
      forall n | n in v.fate && v.fate[n].Taken? ensures TakenRight(v, n) { assert TakenRight(w, n); }
    }
    var l := RegisteredAt(w, ip);
    assert ListsSessionsOf(w, ip, l);
    forall i | 0 <= i < |l| ensures l[i] < |w.sessions| { assert l[i] in l; }
    assert ListsSessionsOf(v, ip, l + [|w.sessions|]);
  }

  lemma CloseKeepsInv(w: World, sid: nat)
    requires Inv(w) && Enabled(w, Close(sid))
    ensures Inv(Next(w, Close(sid)))
  {
    var v := Next(w, Close(sid));
    SameListing(w, v);
    var ip := w.sessions[sid].ip;
    RemoveFirstDistinct(RegisteredAt(w, ip), sid);
    assert ListsSessionsOf(v, ip, v.registry[ip]);
    forall k | 0 <= k < |v.sessions| ensures SessionInv(v, k) { assert SessionInv(w, k); }
    forall n | n in v.fate && v.fate[n].Taken? ensures TakenRight(v, n) { assert TakenRight(w, n); }
  }

  /** Sessions and taken probes are as before if only new or unpending serials change fate. */
  lemma SessionsKept(w: World, v: World)
    requires Inv(w) && v.sessions == w.sessions && v.arrivals == w.arrivals
    requires forall n :: n in w.fate && (w.fate[n].Pending? || w.fate[n].Taken?) ==> n in v.fate && v.fate[n] == w.fate[n]
    requires forall n :: n in v.fate && (v.fate[n].Pending? || v.fate[n].Taken?) ==> n in w.fate && v.fate[n] == w.fate[n]
    ensures forall k :: 0 <= k < |v.sessions| ==> SessionInv(v, k)
    ensures forall n :: n in v.fate && v.fate[n].Taken? ==> TakenRight(v, n)
    ensures forall n :: n in v.fate && v.fate[n].Pending? ==> v.fate[n].sid < |v.sessions|
  {
    forall k | 0 <= k < |v.sessions| ensures SessionInv(v, k) { assert SessionInv(w, k); }
    forall m | m in v.fate && v.fate[m].Taken? ensures TakenRight(v, m) { assert TakenRight(w, m); }
  }

  lemma IssueKeepsInv(w: World, sid: nat, ttl: int, now: int)
    requires Inv(w) && Enabled(w, Issue(sid, ttl, now))
    ensures Inv(Next(w, Issue(sid, ttl, now)))
  {
    var v := Next(w, Issue(sid, ttl, now));
    var n := w.issued + 1;
    IssueTickets(w, sid, ttl, now);
    assert RegistryInv(v) by { SameListing(w, v); }
    SessionsKept(w, v);
    hide SessionInv, RegistryInv, TicketsInv, TakenRight;
    assert n !in w.fate;
    assert forall m :: m in v.fate <==> m in w.fate || m == n;
  }

  lemma NextCounter(seq32: nat, issued: nat)
    requires seq32 == issued % COUNTER_SPACE
    ensures (seq32 + 1) % COUNTER_SPACE == (issued + 1) % COUNTER_SPACE
    ensures (seq32 + 1) % COUNTER_SPACE % ID_SPACE == (issued + 1) % ID_SPACE
  {
    WireId(issued + 1);
  }

  lemma IssueTickets(w: World, sid: nat, ttl: int, now: int)
    requires Inv(w) && Enabled(w, Issue(sid, ttl, now))
    ensures var v := Next(w, Issue(sid, ttl, now));
            TicketsInv(v) && v.seq32 == v.issued % COUNTER_SPACE
  {
    var v := Next(w, Issue(sid, ttl, now));
    hide SessionInv, RegistryInv;
    NextCounter(w.seq32, w.issued);
    assert w.issued + 1 !in w.fate;
  }

  lemma SendFailsKeepsInv(w: World, n: nat)
    requires Inv(w) && Enabled(w, SendFails(n))
    ensures Inv(Next(w, SendFails(n)))
  {
    var v := Next(w, SendFails(n));
    SameListing(w, v);
    SessionsKept(w, v);
    hide SessionInv, ListsSessionsOf, TakenRight;
  }

  lemma AppendSession(w: World, n: nat, k: nat)
    requires Inv(w) && Enabled(w, Append(n)) && k < |w.sessions|
    ensures SessionInv(Next(w, Append(n)), k)
  {
    var v := Next(w, Append(n));
    var t := w.tickets[n];
    assert SessionInv(w, k);
    hide RegistryInv, TakenRight;
    if k == t.sid {
      var ps := w.sessions[k].probes;
      assert n !in Serials(ps);
      forall i | 0 <= i < |ps| ensures ps[i].serial != n { assert ps[i] in ps; }
      assert Serials(ps + [t.probe]) == Serials(ps) + {n};
    }
  }

  lemma AppendKeepsInv(w: World, n: nat)
    requires Inv(w) && Enabled(w, Append(n))
    ensures Inv(Next(w, Append(n)))
  {
    var v := Next(w, Append(n));
    SameListing(w, v);
    forall k | 0 <= k < |v.sessions| ensures SessionInv(v, k) { AppendSession(w, n, k); }
    forall m | m in v.fate && v.fate[m].Taken? ensures TakenRight(v, m) { assert TakenRight(w, m); }
    hide SessionInv, ListsSessionsOf, TakenRight;
  }

  /** What a step leaves alone when it touches no fate, ticket or pending list. */
  lemma FramedSessions(w: World, v: World)
    requires Inv(w) && w.fate == v.fate && |w.sessions| == |v.sessions| && w.tickets == v.tickets
    requires w.arrivals <= v.arrivals && w.issued == v.issued
    requires forall k :: 0 <= k < |w.sessions| ==>
               v.sessions[k].probes == w.sessions[k].probes && v.sessions[k].ip == w.sessions[k].ip
    ensures FatesInv(v) && TicketsInv(v) && forall k :: 0 <= k < |v.sessions| ==> SessionInv(v, k)
  {
    forall k | 0 <= k < |v.sessions| ensures SessionInv(v, k) { assert SessionInv(w, k); }
    forall n | n in v.fate && v.fate[n].Taken? ensures TakenRight(v, n) { assert TakenRight(w, n); }
  }

  lemma ArriveKeepsInv(w: World, e: Event)
    requires Inv(w) && Enabled(w, e) && e.Arrive?
    ensures Inv(Next(w, e))
  {
    var v := Next(w, e);
    SameListing(w, v);
    FramedSessions(w, v);
    hide FatesInv, TicketsInv, SessionInv;
    assert ListsSessionsOf(v, e.dst, RegisteredAt(w, e.dst));
  }

  lemma EmitKeepsInv(w: World, e: Event)
    requires Inv(w) && Enabled(w, e) && e.Emit?
    ensures Inv(Next(w, e))
  {
    var v := Next(w, e);
    SameListing(w, v);
    FramedSessions(w, v);
    hide FatesInv, TicketsInv, SessionInv, ListsSessionsOf;
  }

  lemma ReceiveKeepsInv(w: World, e: Event)
    requires Inv(w) && Enabled(w, e) && e.Receive?
    ensures Inv(Next(w, e))
  {
    var v := Next(w, e);
    SameListing(w, v);
    FramedSessions(w, v);
    hide FatesInv, TicketsInv, SessionInv, ListsSessionsOf;
  }

  lemma FinishKeepsInv(w: World, e: Event)
    requires Inv(w) && Enabled(w, e) && e.Finish?
    ensures Inv(Next(w, e))
  {
    var v := Next(w, e);
    SameListing(w, v);
    FramedSessions(w, v);
    hide FatesInv, TicketsInv, SessionInv, ListsSessionsOf;
  }

  lemma StepKeepsInv(w: World, e: Event)
    requires Inv(w) && Enabled(w, e)
    ensures Inv(Next(w, e))
  {
    match e
    case Open(ip) => OpenKeepsInv(w, ip);
    case Close(sid) => CloseKeepsInv(w, sid);
    case Issue(sid, ttl, now) => IssueKeepsInv(w, sid, ttl, now);
    case SendFails(n) => SendFailsKeepsInv(w, n);
    case Append(n) => AppendKeepsInv(w, n);
    case Visit(svc) => VisitKeepsInv(w, svc);
    case Arrive(_, _) => ArriveKeepsInv(w, e);
    case Emit(_) => EmitKeepsInv(w, e);
    case Finish(_) => FinishKeepsInv(w, e);
    case Receive(_) => ReceiveKeepsInv(w, e);
  }
}
