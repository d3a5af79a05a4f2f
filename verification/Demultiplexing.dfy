/** What holds over every run of the engine: probes are conserved, an answer
    consumes only probes sent with its id, and, while the serials around a
    destination stay within one id space, at most one of them. */
module Demultiplexing {
  import opened Lists
  import opened Tracing
  import opened Interleaving

  // ----- runs -----

  /** The events can happen one after the other, starting in w. */
  ghost predicate Legal(w: World, es: seq<Event>)
    requires Inv(w)
    decreases |es|
  {
    es == [] || (Enabled(w, es[0]) && (StepKeepsInv(w, es[0]); Legal(Next(w, es[0]), es[1..])))
  }

  ghost function Exec(w: World, es: seq<Event>): (v: World)
    requires Inv(w) && Legal(w, es)
    ensures Inv(v)
    decreases |es|
  {
    if es == [] then w else StepKeepsInv(w, es[0]); Exec(Next(w, es[0]), es[1..])
  }

  lemma {:induction false} ExecAppend(w: World, es: seq<Event>, fs: seq<Event>)
    requires Inv(w) && Legal(w, es) && Legal(Exec(w, es), fs)
    ensures Legal(w, es + fs) && Exec(w, es + fs) == Exec(Exec(w, es), fs)
    decreases |es|
  {
    hide Inv, Next, Enabled;
    if es == [] {
      assert es + fs == fs;
    } else {
      StepKeepsInv(w, es[0]);
      ExecAppend(Next(w, es[0]), es[1..], fs);
      assert (es + fs)[1..] == es[1..] + fs;
    }
  }

  // ----- conservation -----

  predicate Final(f: Fate) {
    f.Unsent? || f.Dropped? || f.Taken?
  }

  /** The only ways a probe's fate can move in one step. */
  predicate FateMoves(f: Fate, g: Fate) {
    || f == g
    || (f.InFlight? && (g == Unsent || g == Pending(f.sid)))
    || (f.Pending? && (g == Dropped(f.sid) || (g.Taken? && g.sid == f.sid)))
  }

  lemma FateStep(w: World, e: Event, n: nat)
    requires Inv(w) && Enabled(w, e) && n in w.fate
    ensures n in Next(w, e).fate && FateMoves(w.fate[n], Next(w, e).fate[n])
  {
    if e.Visit? {
      var sid := w.active[e.svc].todo[0];
      assert sid in w.active[e.svc].todo;
      assert SessionInv(w, sid);
      VisitSerials(w.sessions[sid].probes, w.arrivals[e.svc].res, w.timeout);
    }
  }

  /** A probe that was taken, dropped or never sent stays so for the rest of any
      run: no probe is consumed twice, not even by different answers. */
  lemma {:induction false} FateFinal(w: World, es: seq<Event>, n: nat)
    requires Inv(w) && Legal(w, es) && n in w.fate && Final(w.fate[n])
    ensures n in Exec(w, es).fate && Exec(w, es).fate[n] == w.fate[n]
    decreases |es|
  {
    if es != [] {
      StepKeepsInv(w, es[0]);
      FateStep(w, es[0], n);
      FateFinal(Next(w, es[0]), es[1..], n);
    }
  }

  /** Every probe appended to a session is, at any later point of any run, in
      that session's list exactly once, or dropped there, or taken there. */
  lemma {:induction false} AppendedAccounted(w: World, es: seq<Event>, n: nat, sid: nat)
    requires Inv(w) && Legal(w, es) && n in w.fate && w.fate[n] == Pending(sid)
    ensures var v := Exec(w, es);
            && n in v.fate && sid < |v.sessions|
            && (n in Serials(v.sessions[sid].probes) <==> v.fate[n] == Pending(sid))
            && (v.fate[n] == Pending(sid) || v.fate[n] == Dropped(sid) || (v.fate[n].Taken? && v.fate[n].sid == sid))
    decreases |es|
  {
    if es == [] {
      assert SessionInv(w, sid);
    } else {
      var u := Next(w, es[0]);
      StepKeepsInv(w, es[0]);
      FateStep(w, es[0], n);
      if Final(u.fate[n]) {
        FateFinal(u, es[1..], n);
        var v := Exec(u, es[1..]);
        SessionsGrow(w, es);
        assert SessionInv(v, sid);
      } else {
        AppendedAccounted(u, es[1..], n, sid);
      }
    }
  }

  lemma StepGrows(w: World, e: Event)
    requires Inv(w) && Enabled(w, e)
    ensures |Next(w, e).sessions| >= |w.sessions|
  {
    hide FatesInv, SessionInv, FateAfterVisit;
    if e.Visit? {
      assert w.active[e.svc].todo[0] in w.active[e.svc].todo;
    }
  }

  lemma {:induction false} SessionsGrow(w: World, es: seq<Event>)
    requires Inv(w) && Legal(w, es)
    ensures |Exec(w, es).sessions| >= |w.sessions|
    decreases |es|
  {
    hide Inv, Next, Enabled;
    if es != [] {
      StepKeepsInv(w, es[0]);
      StepGrows(w, es[0]);
      SessionsGrow(Next(w, es[0]), es[1..]);
    }
  }

  // ----- one probe per answer -----

  ghost predicate TakenBy(w: World, n: nat, svc: nat) {
    n in w.fate && w.fate[n].Taken? && w.fate[n].svc == svc
  }

  predicate Congruent(n: nat, m: nat) {
    n % ID_SPACE == m % ID_SPACE
  }

  lemma CongruentApart(n: nat, m: nat)
    requires Congruent(n, m) && n < m
    ensures m - n >= ID_SPACE
  {
  }

  /** Any two probes consumed by IPv4 answers with one id were sent with that id,
      so they are the same probe or their serials are at least a whole id space
      apart; and a probe is consumed by one answer only. */
  lemma AnswersMatchRequests(timeout: int, es: seq<Event>, svc: nat, dup: nat, n: nat, m: nat)
    requires Legal(Init(timeout), es)
    requires var w := Exec(Init(timeout), es);
             && TakenBy(w, n, svc) && TakenBy(w, m, dup)
             && svc < |w.arrivals| && dup < |w.arrivals|
             && w.arrivals[svc].res.ip.V4? && w.arrivals[dup].res.ip.V4?
             && w.arrivals[svc].res.id == w.arrivals[dup].res.id
    ensures var w := Exec(Init(timeout), es);
            && n % 65536 == w.arrivals[svc].res.id == m % 65536
            && w.sessions[w.fate[n].sid].ip == w.arrivals[svc].dst
            && (n == m ==> svc == dup)
            && (n != m ==> n - m >= 65536 || m - n >= 65536)
            && (w.issued <= 65536 ==> n == m)
  {
    var w := Exec(Init(timeout), es);
    assert TakenRight(w, n) && TakenRight(w, m);
    if n < m { CongruentApart(n, m); }
    if m < n { CongruentApart(m, n); }
  }

  /** Probes around a destination: pending in one of its sessions, or taken by
      an answer that is still being served. */
  ghost predicate Around(w: World, dst: IP, n: nat) {
    && n in w.fate
    && (|| (w.fate[n].Pending? && w.fate[n].sid < |w.sessions| && w.sessions[w.fate[n].sid].ip == dst)
        || (w.fate[n].Taken? && w.fate[n].svc in w.active && w.fate[n].svc < |w.arrivals|
            && w.arrivals[w.fate[n].svc].dst == dst))
  }

  ghost predicate Windowed(w: World, dst: IP) {
    forall n: nat, m: nat :: Around(w, dst, n) && Around(w, dst, m) ==> m - n < ID_SPACE
  }

  ghost predicate WindowedRun(w: World, es: seq<Event>, dst: IP)
    requires Inv(w) && Legal(w, es)
    decreases |es|
  {
    Windowed(w, dst) && (es != [] ==> (StepKeepsInv(w, es[0]); WindowedRun(Next(w, es[0]), es[1..], dst)))
  }

  /** Every IPv4 answer for dst, finished or not, has consumed at most one probe,
      over all sessions of dst. */
  ghost predicate OneProbeEach(w: World, dst: IP) {
    forall svc: nat, n: nat, m: nat ::
      (svc < |w.arrivals| && w.arrivals[svc].dst == dst && w.arrivals[svc].res.ip.V4?
       && TakenBy(w, n, svc) && TakenBy(w, m, svc)) ==> n == m
  }

  lemma OneProbeStep(w: World, e: Event, dst: IP)
    requires Inv(w) && Enabled(w, e) && OneProbeEach(w, dst) && Windowed(Next(w, e), dst)
    ensures OneProbeEach(Next(w, e), dst)
  {
    StepKeepsInv(w, e);
    var v := Next(w, e);
    forall svc: nat, n: nat, m: nat | svc < |v.arrivals| && v.arrivals[svc].dst == dst && v.arrivals[svc].res.ip.V4?
                            && TakenBy(v, n, svc) && TakenBy(v, m, svc)
      ensures n == m
    {
      assert TakenRight(v, n) && TakenRight(v, m);
      if svc in v.active {
        assert Around(v, dst, n) && Around(v, dst, m);
        if n < m { CongruentApart(n, m); }
        if m < n { CongruentApart(m, n); }
      } else {
        TakenEarlier(w, e, n, svc);
        TakenEarlier(w, e, m, svc);
      }
    }
  }

  /** Only an answer in service takes probes. */
  lemma TakenEarlier(w: World, e: Event, n: nat, svc: nat)
    requires Inv(w) && Enabled(w, e) && TakenBy(Next(w, e), n, svc) && svc !in Next(w, e).active
    ensures TakenBy(w, n, svc) && svc < |w.arrivals|
  {
    if e.Visit? {
      hide FatesInv, TicketsInv, SessionInv, TakenRight;
    } else {
      hide TicketsInv, SessionInv, RegistryInv;
      assert TakenRight(w, n);
    }
  }

  lemma {:induction false} OneProbeKept(w: World, es: seq<Event>, dst: IP)
    requires Inv(w) && Legal(w, es) && OneProbeEach(w, dst) && WindowedRun(w, es, dst)
    ensures OneProbeEach(Exec(w, es), dst)
    decreases |es|
  {
    if es != [] {
      StepKeepsInv(w, es[0]);
      assert Windowed(Next(w, es[0]), dst);
      OneProbeStep(w, es[0], dst);
      OneProbeKept(Next(w, es[0]), es[1..], dst);
    }
  }

  /** The main result: in every run in which the probes around a destination
      span fewer than 65536 serials, each of its IPv4 answers consumes at most
      one probe, whatever happens between its visits to the sessions; the probe
      was sent with the answer's id and belongs to a session of that destination. */
  lemma OneProbePerAnswer(timeout: int, es: seq<Event>, dst: IP)
    requires Legal(Init(timeout), es) && WindowedRun(Init(timeout), es, dst)
    ensures OneProbeEach(Exec(Init(timeout), es), dst)
    ensures var w := Exec(Init(timeout), es);
            forall n: nat :: n in w.fate && w.fate[n].Taken? ==> TakenRight(w, n)
  {
    OneProbeKept(Init(timeout), es, dst);
  }

  // ----- a window over the pending probes alone is not enough -----

  ghost predicate PendingAt(w: World, dst: IP, n: nat) {
    n in w.fate && w.fate[n].Pending? && w.fate[n].sid < |w.sessions| && w.sessions[w.fate[n].sid].ip == dst
  }

  ghost predicate PendingWindowed(w: World, dst: IP) {
    forall n: nat, m: nat :: PendingAt(w, dst, n) && PendingAt(w, dst, m) ==> m - n < ID_SPACE
  }

  ghost predicate PendingWindowedRun(w: World, es: seq<Event>, dst: IP)
    requires Inv(w) && Legal(w, es)
    decreases |es|
  {
    PendingWindowed(w, dst) && (es != [] ==> (StepKeepsInv(w, es[0]); PendingWindowedRun(Next(w, es[0]), es[1..], dst)))
  }

  lemma {:induction false} PendingWindowedAppend(w: World, es: seq<Event>, fs: seq<Event>, dst: IP)
    requires Inv(w) && Legal(w, es) && Legal(Exec(w, es), fs)
    requires PendingWindowedRun(w, es, dst) && PendingWindowedRun(Exec(w, es), fs, dst)
    ensures Legal(w, es + fs) && PendingWindowedRun(w, es + fs, dst)
    decreases |es|
  {
    hide Inv, Next, PendingWindowed, Enabled;
    ExecAppend(w, es, fs);
    if es == [] {
      assert es + fs == fs;
    } else {
      StepKeepsInv(w, es[0]);
      PendingWindowedAppend(Next(w, es[0]), es[1..], fs, dst);
      assert (es + fs)[1..] == es[1..] + fs;
    }
  }

  /** v is w after some probes were issued that could not be sent. */
  ghost predicate OnlyUnsentSince(w: World, v: World) {
    && v.sessions == w.sessions && v.registry == w.registry && v.active == w.active
    && v.arrivals == w.arrivals && v.timeout == w.timeout && v.tickets == map[]
    && (forall n :: n in w.fate ==> n in v.fate && v.fate[n] == w.fate[n])
    && (forall n :: n in v.fate ==> n in w.fate || v.fate[n] == Unsent)
  }

  lemma OneEvent(w: World, e: Event, dst: IP)
    requires Inv(w) && Enabled(w, e) && Inv(Next(w, e))
    requires PendingWindowed(w, dst) && PendingWindowed(Next(w, e), dst)
    ensures Legal(w, [e]) && Exec(w, [e]) == Next(w, e) && PendingWindowedRun(w, [e], dst)
  {
    hide Inv, Next, PendingWindowed, Enabled;
    var none: seq<Event> := [];
    assert [e][1..] == none;
    assert Legal(Next(w, e), none);
  }

  /** One run after another. */
  lemma Then(w: World, es: seq<Event>, fs: seq<Event>, dst: IP)
    requires Inv(w) && Legal(w, es) && Legal(Exec(w, es), fs)
    requires PendingWindowedRun(w, es, dst) && PendingWindowedRun(Exec(w, es), fs, dst)
    ensures Legal(w, es + fs) && PendingWindowedRun(w, es + fs, dst)
    ensures Exec(w, es + fs) == Exec(Exec(w, es), fs)
  {
    hide Inv, Next, PendingWindowed, Enabled;
    ExecAppend(w, es, fs);
    PendingWindowedAppend(w, es, fs, dst);
  }

  lemma FewIssuedWindowed(w: World, dst: IP)
    requires Inv(w) && w.issued <= ID_SPACE
    ensures PendingWindowed(w, dst)
  {
  }

  lemma SamePendingWindowed(w: World, v: World, dst: IP)
    requires PendingWindowed(w, dst) && w.sessions == v.sessions
    requires forall n :: n in v.fate && v.fate[n].Pending? ==> n in w.fate && w.fate[n] == v.fate[n]
    ensures PendingWindowed(v, dst)
  {
    forall n: nat, m: nat | PendingAt(v, dst, n) && PendingAt(v, dst, m) ensures m - n < ID_SPACE {
      assert PendingAt(w, dst, n) && PendingAt(w, dst, m);
    }
  }

  lemma IssueState(w: World, dst: IP)
    requires Inv(w) && w.sessions != [] && w.tickets == map[] && PendingWindowed(w, dst)
    ensures var e := Issue(0, 0, 0);
            && Enabled(w, e) && Inv(Next(w, e)) && PendingWindowed(Next(w, e), dst)
            && w.issued + 1 in Next(w, e).tickets
            && Next(w, e).(tickets := map[], fate := w.fate, issued := w.issued, seq32 := w.seq32) == w
            && Next(w, e).issued == w.issued + 1 && Next(w, e).tickets.Keys == {w.issued + 1}
            && (forall n :: n in w.fate ==> n in Next(w, e).fate && Next(w, e).fate[n] == w.fate[n])
            && (forall n :: n in Next(w, e).fate ==> n in w.fate || n == w.issued + 1)
  {
    var e := Issue(0, 0, 0);
    StepKeepsInv(w, e);
    hide TicketsInv, SessionInv, RegistryInv, PendingWindowed;
    SamePendingWindowed(w, Next(w, e), dst);
  }

  lemma FailState(u: World, n: nat, dst: IP)
    requires Inv(u) && u.tickets.Keys == {n} && PendingWindowed(u, dst)
    ensures var f := SendFails(n);
            && Enabled(u, f) && Inv(Next(u, f)) && PendingWindowed(Next(u, f), dst)
            && Next(u, f).tickets == map[] && Next(u, f).(tickets := u.tickets, fate := u.fate) == u
            && Next(u, f).fate == u.fate[n := Unsent]
  {
    var f := SendFails(n);
    StepKeepsInv(u, f);
    hide Inv, PendingWindowed;
    SamePendingWindowed(u, Next(u, f), dst);
    assert Next(u, f).tickets == map[];
  }

  lemma LostProbeState(w: World, dst: IP)
    requires Inv(w) && w.sessions != [] && w.tickets == map[] && PendingWindowed(w, dst)
    ensures var e, f := Issue(0, 0, 0), SendFails(w.issued + 1);
            && Enabled(w, e) && Inv(Next(w, e)) && PendingWindowed(Next(w, e), dst)
            && Enabled(Next(w, e), f) && Inv(Next(Next(w, e), f)) && PendingWindowed(Next(Next(w, e), f), dst)
            && OnlyUnsentSince(w, Next(Next(w, e), f)) && Next(Next(w, e), f).issued == w.issued + 1
  {
    IssueState(w, dst);
    FailState(Next(w, Issue(0, 0, 0)), w.issued + 1, dst);
    IssuedIsNew(w);
    hide Inv, Next, Enabled, PendingWindowed;
  }

  lemma IssuedIsNew(w: World)
    requires Inv(w)
    ensures w.issued + 1 !in w.fate
  {
  }

  lemma LostProbe(w: World, dst: IP) returns (es: seq<Event>)
    requires Inv(w) && w.sessions != [] && w.tickets == map[] && PendingWindowed(w, dst)
    ensures Legal(w, es) && PendingWindowedRun(w, es, dst) && PendingWindowed(Exec(w, es), dst)
    ensures OnlyUnsentSince(w, Exec(w, es)) && Exec(w, es).issued == w.issued + 1
  {
    hide Inv, Next, Enabled, PendingWindowed, OnlyUnsentSince;
    var e, f := Issue(0, 0, 0), SendFails(w.issued + 1);
    LostProbeState(w, dst);
    var u := Next(w, e);
    OneEvent(w, e, dst);
    OneEvent(u, f, dst);
    Then(w, [e], [f], dst);
    es := [e] + [f];
  }

  lemma OnlyUnsentTwice(w: World, u: World, v: World)
    requires OnlyUnsentSince(w, u) && OnlyUnsentSince(u, v)
    ensures OnlyUnsentSince(w, v)
  {
  }

  lemma {:induction false} Burn(w: World, k: nat, dst: IP) returns (es: seq<Event>)
    requires Inv(w) && w.sessions != [] && w.tickets == map[] && PendingWindowed(w, dst)
    ensures Legal(w, es) && PendingWindowedRun(w, es, dst) && PendingWindowed(Exec(w, es), dst)
    ensures OnlyUnsentSince(w, Exec(w, es)) && Exec(w, es).issued == w.issued + k
    decreases k
  {
    hide Inv, Next, Enabled, PendingWindowed;
    if k == 0 {
      es := [];
    } else {
      var first := LostProbe(w, dst);
      var v := Exec(w, first);
      var rest := Burn(v, k - 1, dst);
      Then(w, first, rest, dst);
      es := first + rest;
      OnlyUnsentTwice(w, v, Exec(w, es));
    }
  }

  /** The run that shows it: two sessions share a destination. The first has a
      probe pending, whose answer arrives and takes it. Before the second session
      is visited, 65535 sends fail, and then a probe with the same id is sent. */
  function FirstHalf(dst: IP, router: IP): (es: seq<Event>)
    ensures |es| == 7
  {
    [Open(dst), Open(dst), Issue(0, 0, 0), Append(1), Arrive(dst, Answer(router, 1, 1, 0)), Visit(0), Emit(0)]
  }

  function Stage(k: nat, dst: IP, router: IP, timeout: nat): World {
    var probe := Probe(1, 1, 0, 1);
    var arrived := [Arrival(dst, Answer(router, 1, 1, 0))];
    var idle := NewSession(dst);
    var reply := Reply(router, 0, 1);
    if k == 0 then Init(timeout)
    else if k == 1 then World(0, 0, map[], [idle], map[dst := [0]], map[], [], map[], timeout)
    else if k == 2 then World(0, 0, map[], [idle, idle], map[dst := [0, 1]], map[], [], map[], timeout)
    else if k == 3 then
      World(1, 1, map[1 := Ticket(0, probe)], [idle, idle], map[dst := [0, 1]], map[], [], map[1 := InFlight(0)], timeout)
    else if k == 4 then
      World(1, 1, map[], [idle.(probes := [probe]), idle], map[dst := [0, 1]], map[], [], map[1 := Pending(0)], timeout)
    else if k == 5 then World(1, 1, map[], [idle.(probes := [probe]), idle], map[dst := [0, 1]],
                              map[0 := Service([0, 1], None)], arrived, map[1 := Pending(0)], timeout)
    else if k == 6 then World(1, 1, map[], [idle.(hits := 1), idle], map[dst := [0, 1]],
                              map[0 := Service([1], Some(Emission(0, reply)))], arrived, map[1 := Taken(0, 0)], timeout)
    else World(1, 1, map[], [idle.(ch := [reply], hits := 1), idle], map[dst := [0, 1]],
               map[0 := Service([1], None)], arrived, map[1 := Taken(0, 0)], timeout)
  }

  lemma StageOpens(k: nat, dst: IP, router: IP, timeout: nat)
    requires k < 2 && router.V4? && Inv(Stage(k, dst, router, timeout))
    ensures var w, e := Stage(k, dst, router, timeout), FirstHalf(dst, router)[k];
            Enabled(w, e) && Next(w, e) == Stage(k + 1, dst, router, timeout)
  {
    hide Inv;
    var w, e, u := Stage(k, dst, router, timeout), Open(dst), Stage(k + 1, dst, router, timeout);
    assert FirstHalf(dst, router)[k] == e;
    hide FirstHalf;
    var none: seq<nat> := [];
    assert none + [0] == [0] && [0] + [1] == [0, 1];
    if k == 0 {
      assert Next(w, e).sessions == u.sessions && Next(w, e).registry == u.registry;
    } else {
      assert Next(w, e).sessions == u.sessions && Next(w, e).registry == u.registry;
    }
  }

  lemma StageIssues(k: nat, dst: IP, router: IP, timeout: nat)
    requires k == 2 && router.V4? && Inv(Stage(k, dst, router, timeout))
    ensures var w, e := Stage(k, dst, router, timeout), FirstHalf(dst, router)[k];
            Enabled(w, e) && Next(w, e) == Stage(k + 1, dst, router, timeout)
  {
    var v, u := Next(Stage(k, dst, router, timeout), FirstHalf(dst, router)[k]), Stage(k + 1, dst, router, timeout);
    assert v.tickets == u.tickets && v.fate == u.fate;
  }

  lemma StageAppends(k: nat, dst: IP, router: IP, timeout: nat)
    requires k == 3 && router.V4? && Inv(Stage(k, dst, router, timeout))
    ensures var w, e := Stage(k, dst, router, timeout), FirstHalf(dst, router)[k];
            Enabled(w, e) && Next(w, e) == Stage(k + 1, dst, router, timeout)
  {
    var v, u := Next(Stage(k, dst, router, timeout), FirstHalf(dst, router)[k]), Stage(k + 1, dst, router, timeout);
    var none: seq<Probe> := [];
    assert none + [Probe(1, 1, 0, 1)] == [Probe(1, 1, 0, 1)];
    assert v.tickets == u.tickets && v.fate == u.fate && v.sessions == u.sessions;
  }

  lemma StageArrives(k: nat, dst: IP, router: IP, timeout: nat)
    requires k == 4 && router.V4? && Inv(Stage(k, dst, router, timeout))
    ensures var w, e := Stage(k, dst, router, timeout), FirstHalf(dst, router)[k];
            Enabled(w, e) && Next(w, e) == Stage(k + 1, dst, router, timeout)
  {
    var v, u := Next(Stage(k, dst, router, timeout), FirstHalf(dst, router)[k]), Stage(k + 1, dst, router, timeout);
    assert v.active == u.active && v.arrivals == u.arrivals;
  }

  lemma OneProbeHit(probe: Probe, res: Answer, timeout: int)
    requires !Expired(probe, res, timeout) && Matches(probe, res)
    ensures Hit([probe], res, timeout) == [probe]
    ensures Kept([probe], res, timeout) == [] && Tracing.Dropped([probe], res, timeout) == []
    ensures Serials([probe]) == {probe.serial} && Serials([]) == {}
  {
    assert [probe][..0] == [];
  }

  lemma StageVisits(k: nat, dst: IP, router: IP, timeout: nat)
    requires k == 5 && router.V4? && Inv(Stage(k, dst, router, timeout))
    ensures var w, e := Stage(k, dst, router, timeout), FirstHalf(dst, router)[k];
            Enabled(w, e) && Next(w, e) == Stage(k + 1, dst, router, timeout)
  {
    OneProbeHit(Probe(1, 1, 0, 1), Answer(router, 1, 1, 0), timeout);
    hide Inv, Hit, Kept, Tracing.Dropped, Serials;
    var v, u := Next(Stage(k, dst, router, timeout), FirstHalf(dst, router)[k]), Stage(k + 1, dst, router, timeout);
    assert v.fate == u.fate && v.sessions == u.sessions;
  }

  lemma StageEmits(k: nat, dst: IP, router: IP, timeout: nat)
    requires k == 6 && router.V4? && Inv(Stage(k, dst, router, timeout))
    ensures var w, e := Stage(k, dst, router, timeout), FirstHalf(dst, router)[k];
            Enabled(w, e) && Next(w, e) == Stage(k + 1, dst, router, timeout)
  {
    var v, u := Next(Stage(k, dst, router, timeout), FirstHalf(dst, router)[k]), Stage(k + 1, dst, router, timeout);
    var none: seq<Reply> := [];
    assert none + [Reply(router, 0, 1)] == [Reply(router, 0, 1)];
    assert v.sessions == u.sessions && v.active == u.active;
  }

  lemma StageStep(k: nat, dst: IP, router: IP, timeout: nat)
    requires k < 7 && router.V4? && Inv(Stage(k, dst, router, timeout))
    ensures var w, e := Stage(k, dst, router, timeout), FirstHalf(dst, router)[k];
            Enabled(w, e) && Next(w, e) == Stage(k + 1, dst, router, timeout)
  {
    hide Next, Inv, Enabled, Stage;
    if k < 2 { StageOpens(k, dst, router, timeout); }
    else if k == 2 { StageIssues(k, dst, router, timeout); }
    else if k == 3 { StageAppends(k, dst, router, timeout); }
    else if k == 4 { StageArrives(k, dst, router, timeout); }
    else if k == 5 { StageVisits(k, dst, router, timeout); }
    else { StageEmits(k, dst, router, timeout); }
  }

  lemma StageAdvance(k: nat, dst: IP, router: IP, timeout: nat)
    requires k < 7 && router.V4? && Inv(Stage(k, dst, router, timeout))
    ensures var w, e := Stage(k, dst, router, timeout), FirstHalf(dst, router)[k];
            && Enabled(w, e) && Next(w, e) == Stage(k + 1, dst, router, timeout) && Inv(Next(w, e))
            && PendingWindowed(w, dst) && PendingWindowed(Next(w, e), dst)
  {
    var w, e := Stage(k, dst, router, timeout), FirstHalf(dst, router)[k];
    StageStep(k, dst, router, timeout);
    StepKeepsInv(w, e);
    StageFewIssued(k, dst, router, timeout);
    StageFewIssued(k + 1, dst, router, timeout);
    hide Next, Inv, Enabled, Stage, PendingWindowed, FirstHalf;
    FewIssuedWindowed(w, dst);
    FewIssuedWindowed(Next(w, e), dst);
  }

  lemma {:induction false} StagesRun(k: nat, dst: IP, router: IP, timeout: nat)
    requires k <= 7 && router.V4?
    ensures var es := FirstHalf(dst, router)[..k];
            && Legal(Init(timeout), es) && PendingWindowedRun(Init(timeout), es, dst)
            && Exec(Init(timeout), es) == Stage(k, dst, router, timeout)
  {
    hide *;
    if k == 0 {
      StageZero(dst, router, timeout);
    } else {
      StagesRun(k - 1, dst, router, timeout);
      var before, e := FirstHalf(dst, router)[..k-1], FirstHalf(dst, router)[k-1];
      StageAdvance(k - 1, dst, router, timeout);
      OneEvent(Stage(k - 1, dst, router, timeout), e, dst);
      Then(Init(timeout), before, [e], dst);
      assert FirstHalf(dst, router)[..k] == before + [e];
    }
  }

  lemma StageZero(dst: IP, router: IP, timeout: nat)
    ensures var es := FirstHalf(dst, router)[..0];
            && Legal(Init(timeout), es) && PendingWindowedRun(Init(timeout), es, dst)
            && Exec(Init(timeout), es) == Stage(0, dst, router, timeout)
  {
    FewIssuedWindowed(Init(timeout), dst);
    assert FirstHalf(dst, router)[..0] == [];
  }

  lemma AfterBurn(w: World, dst: IP, router: IP, timeout: nat)
    requires OnlyUnsentSince(Stage(7, dst, router, timeout), w)
    ensures HalfWay(w, dst, router, timeout, MidService(), [], map[])
  {
  }

  lemma LastStage(dst: IP, router: IP, timeout: nat)
    requires Inv(Stage(7, dst, router, timeout))
    ensures var w := Stage(7, dst, router, timeout);
            w.sessions != [] && w.tickets == map[] && w.issued == 1 && PendingWindowed(w, dst)
  {
    FewIssuedWindowed(Stage(7, dst, router, timeout), dst);
  }

  lemma StageFewIssued(k: nat, dst: IP, router: IP, timeout: nat)
    ensures Stage(k, dst, router, timeout).issued <= 1
  {
  }

  /** Answer 0 has yet to visit session 1. */
  function MidService(): map<nat, Service> {
    map[0 := Service([1], None)]
  }

  /** The second half of the runs: answer 0 has taken probe 1, `active` says what is
      served, and `pending` and `tickets` where the newest probe is. */
  ghost predicate HalfWay(w: World, dst: IP, router: IP, timeout: nat, active: map<nat, Service>,
                          pending: seq<Probe>, tickets: map<nat, Ticket>)
  {
    && w.timeout == timeout && w.tickets == tickets && |w.sessions| == 2
    && w.sessions[0].probes == [] && w.sessions[1].probes == pending
    && w.active == active && RegisteredAt(w, dst) == [0, 1]
    && w.arrivals == [Arrival(dst, Answer(router, 1, 1, 0))]
    && 1 in w.fate && w.fate[1] == Taken(0, 0)
  }

  lemma SecondIssued(w: World, dst: IP, router: IP, timeout: nat, active: map<nat, Service>)
    requires Inv(w) && HalfWay(w, dst, router, timeout, active, [], map[]) && w.issued == ID_SPACE
    requires PendingWindowed(w, dst)
    ensures var e, n := Issue(1, 0, 0), ID_SPACE + 1;
            && Enabled(w, e) && Inv(Next(w, e)) && PendingWindowed(Next(w, e), dst)
            && HalfWay(Next(w, e), dst, router, timeout, active, [], map[n := Ticket(1, Probe(1, 1, 0, n))])
  {
    var e := Issue(1, 0, 0);
    StepKeepsInv(w, e);
    SamePendingWindowed(w, Next(w, e), dst);
    WireId(ID_SPACE + 1);
  }

  lemma SecondAppended(w: World, dst: IP, router: IP, timeout: nat, active: map<nat, Service>)
    requires var n := ID_SPACE + 1;
             HalfWay(w, dst, router, timeout, active, [], map[n := Ticket(1, Probe(1, 1, 0, n))])
    requires Inv(w) && PendingWindowed(w, dst)
    ensures var e, n := Append(ID_SPACE + 1), ID_SPACE + 1;
            && Enabled(w, e) && Inv(Next(w, e)) && PendingWindowed(Next(w, e), dst)
            && HalfWay(Next(w, e), dst, router, timeout, active, [Probe(1, 1, 0, n)], map[])
  {
    var e, n := Append(ID_SPACE + 1), ID_SPACE + 1;
    StepKeepsInv(w, e);
    var v := Next(w, e);
    assert v.tickets == map[];
    NoneElsewherePending(v, [Probe(1, 1, 0, n)], n);
    OnlyOnePending(v, n, dst);
  }

  lemma SecondTaken(w: World, dst: IP, router: IP, timeout: nat)
    requires Inv(w) && HalfWay(w, dst, router, timeout, MidService(), [Probe(1, 1, 0, ID_SPACE + 1)], map[]) && router.V4?
    ensures var e, n := Visit(0), ID_SPACE + 1;
            && Enabled(w, e) && Inv(Next(w, e)) && PendingWindowed(Next(w, e), dst)
            && TakenBy(Next(w, e), 1, 0) && TakenBy(Next(w, e), n, 0)
            && Next(w, e).arrivals == [Arrival(dst, Answer(router, 1, 1, 0))]
  {
    var e, n := Visit(0), ID_SPACE + 1;
    StepKeepsInv(w, e);
    var v := Next(w, e);
    var probe, res := Probe(1, 1, 0, n), Answer(router, 1, 1, 0);
    OneProbeHit(probe, res, timeout);
    assert SessionInv(w, 1);
    hide Hit, Kept, Tracing.Dropped, Serials, SessionInv, TicketsInv, RegistryInv, PendingWindowed;
    assert n in w.fate;
    NoneElsewherePending(v, [], n);
    OnlyOnePending(v, n, dst);
  }

  lemma NoneElsewherePending(w: World, pending: seq<Probe>, n: nat)
    requires Inv(w) && |w.sessions| == 2 && w.sessions[0].probes == [] && w.sessions[1].probes == pending
    requires Serials(pending) <= {n}
    ensures forall m :: m in w.fate && w.fate[m].Pending? ==> m == n
  {
    forall m | m in w.fate && w.fate[m].Pending? ensures m == n {
      var sid := w.fate[m].sid;
      assert sid == 0 || sid == 1;
      assert SessionInv(w, sid);
      assert m in Serials(w.sessions[sid].probes);
    }
  }

  lemma OnlyOnePending(v: World, n: nat, dst: IP)
    requires forall m :: m in v.fate && v.fate[m].Pending? ==> m == n
    ensures PendingWindowed(v, dst)
  {
  }

  /** The run up to the last of the failed sends, and the state it leaves. */
  lemma UpToBurn(dst: IP, router: IP, timeout: nat) returns (es: seq<Event>)
    requires router.V4?
    ensures Legal(Init(timeout), es) && PendingWindowedRun(Init(timeout), es, dst)
    ensures var w := Exec(Init(timeout), es);
            PendingWindowed(w, dst) && w.issued == ID_SPACE && HalfWay(w, dst, router, timeout, MidService(), [], map[])
  {
    StagesRun(7, dst, router, timeout);
    assert FirstHalf(dst, router)[..7] == FirstHalf(dst, router);
    hide *;
    var w7 := Stage(7, dst, router, timeout);
    LastStage(dst, router, timeout);
    var idle := Burn(w7, ID_SPACE - 1, dst);
    AfterBurn(Exec(w7, idle), dst, router, timeout);
    es := FirstHalf(dst, router) + idle;
    Then(Init(timeout), FirstHalf(dst, router), idle, dst);
  }

  /** Issuing and appending the second probe with the id. */
  lemma SecondProbe(w: World, dst: IP, router: IP, timeout: nat, active: map<nat, Service>) returns (es: seq<Event>)
    requires Inv(w) && HalfWay(w, dst, router, timeout, active, [], map[]) && w.issued == ID_SPACE
    requires PendingWindowed(w, dst)
    ensures Legal(w, es) && PendingWindowedRun(w, es, dst) && PendingWindowed(Exec(w, es), dst)
    ensures HalfWay(Exec(w, es), dst, router, timeout, active, [Probe(1, 1, 0, ID_SPACE + 1)], map[])
  {
    hide *;
    var e, f := Issue(1, 0, 0), Append(ID_SPACE + 1);
    SecondIssued(w, dst, router, timeout, active);
    var u := Next(w, e);
    SecondAppended(u, dst, router, timeout, active);
    OneEvent(w, e, dst);
    OneEvent(u, f, dst);
    Then(w, [e], [f], dst);
    es := [e] + [f];
  }

  /** Keeping the pending probes within one id space is not enough: in this run
      they always are, and one IPv4 answer consumes two probes. */
  lemma PendingWindowNotEnough(dst: IP, router: IP, timeout: nat) returns (es: seq<Event>)
    requires router.V4?
    ensures Legal(Init(timeout), es) && PendingWindowedRun(Init(timeout), es, dst)
    ensures !OneProbeEach(Exec(Init(timeout), es), dst)
  {
    var before := UpToBurn(dst, router, timeout);
    hide *;
    var w := Exec(Init(timeout), before);
    var more := SecondProbe(w, dst, router, timeout, MidService());
    var v := Exec(w, more);
    SecondTaken(v, dst, router, timeout);
    OneEvent(v, Visit(0), dst);
    Then(w, more, [Visit(0)], dst);
    es := before + (more + [Visit(0)]);
    Then(Init(timeout), before, more + [Visit(0)], dst);
    TwoTaken(Exec(Init(timeout), es), dst, router, ID_SPACE + 1);
  }

  lemma TwoTaken(w: World, dst: IP, router: IP, n: nat)
    requires TakenBy(w, 1, 0) && TakenBy(w, n, 0) && n != 1 && router.V4?
    requires w.arrivals == [Arrival(dst, Answer(router, 1, 1, 0))]
    ensures !OneProbeEach(w, dst)
  {
  }

  // ----- and a duplicate can take a probe -----

  lemma NothingToHit(res: Answer, timeout: int)
    ensures Hit([], res, timeout) == [] && Kept([], res, timeout) == [] && Tracing.Dropped([], res, timeout) == []
    ensures Serials([]) == {}
  {
  }

  /** Answer 0 visits session 1 while it has no probe, and ends. */
  lemma ServiceEnds(w: World, dst: IP, router: IP, timeout: nat)
    requires Inv(w) && HalfWay(w, dst, router, timeout, MidService(), [], map[]) && PendingWindowed(w, dst)
    ensures var e := Visit(0);
            && Enabled(w, e) && Inv(Next(w, e)) && PendingWindowed(Next(w, e), dst) && Next(w, e).issued == w.issued
            && HalfWay(Next(w, e), dst, router, timeout, map[0 := Service([], None)], [], map[])
  {
    var e := Visit(0);
    StepKeepsInv(w, e);
    NothingToHit(Answer(router, 1, 1, 0), timeout);
    hide Hit, Kept, Tracing.Dropped, SessionInv, TicketsInv, RegistryInv, PendingWindowed;
    NoneElsewherePending(Next(w, e), [], 0);
    OnlyOnePending(Next(w, e), 0, dst);
  }

  lemma ServiceFinishes(w: World, dst: IP, router: IP, timeout: nat)
    requires Inv(w) && HalfWay(w, dst, router, timeout, map[0 := Service([], None)], [], map[])
    requires PendingWindowed(w, dst)
    ensures var e := Finish(0);
            && Enabled(w, e) && Inv(Next(w, e)) && PendingWindowed(Next(w, e), dst) && Next(w, e).issued == w.issued
            && HalfWay(Next(w, e), dst, router, timeout, map[], [], map[])
  {
    StepKeepsInv(w, Finish(0));
    SamePendingWindowed(w, Next(w, Finish(0)), dst);
    assert Next(w, Finish(0)).active == map[];
  }

  /** A second copy of the answer is being served. */
  ghost predicate DuplicateServed(w: World, dst: IP, router: IP, timeout: nat, todo: seq<nat>) {
    && w.timeout == timeout && |w.sessions| == 2
    && w.sessions[0].probes == [] && w.sessions[1].probes == [Probe(1, 1, 0, ID_SPACE + 1)]
    && w.active == map[1 := Service(todo, None)]
    && w.arrivals == [Arrival(dst, Answer(router, 1, 1, 0)), Arrival(dst, Answer(router, 1, 1, 0))]
    && TakenBy(w, 1, 0)
  }

  lemma DuplicateArrives(w: World, dst: IP, router: IP, timeout: nat)
    requires Inv(w) && HalfWay(w, dst, router, timeout, map[], [Probe(1, 1, 0, ID_SPACE + 1)], map[])
    ensures var e := Arrive(dst, Answer(router, 1, 1, 0));
            && Enabled(w, e) && Inv(Next(w, e)) && PendingWindowed(Next(w, e), dst)
            && DuplicateServed(Next(w, e), dst, router, timeout, [0, 1])
  {
    var e, n := Arrive(dst, Answer(router, 1, 1, 0)), ID_SPACE + 1;
    StepKeepsInv(w, e);
    NoneElsewherePending(Next(w, e), [Probe(1, 1, 0, n)], n);
    OnlyOnePending(Next(w, e), n, dst);
  }

  lemma DuplicatePasses(w: World, dst: IP, router: IP, timeout: nat)
    requires Inv(w) && DuplicateServed(w, dst, router, timeout, [0, 1])
    ensures var e := Visit(1);
            && Enabled(w, e) && Inv(Next(w, e)) && PendingWindowed(Next(w, e), dst)
            && DuplicateServed(Next(w, e), dst, router, timeout, [1])
  {
    var e, n := Visit(1), ID_SPACE + 1;
    StepKeepsInv(w, e);
    NothingToHit(Answer(router, 1, 1, 0), timeout);
    hide Hit, Kept, Tracing.Dropped, SessionInv, TicketsInv, RegistryInv, PendingWindowed;
    NoneElsewherePending(Next(w, e), [Probe(1, 1, 0, n)], n);
    OnlyOnePending(Next(w, e), n, dst);
  }

  lemma DuplicateHits(w: World, dst: IP, router: IP, timeout: nat)
    requires Inv(w) && DuplicateServed(w, dst, router, timeout, [1]) && router.V4?
    ensures var e := Visit(1);
            && Enabled(w, e) && Inv(Next(w, e)) && PendingWindowed(Next(w, e), dst)
            && TakenBy(Next(w, e), 1, 0) && TakenBy(Next(w, e), ID_SPACE + 1, 1) && Next(w, e).arrivals == w.arrivals
  {
    var e, n := Visit(1), ID_SPACE + 1;
    StepKeepsInv(w, e);
    OneProbeHit(Probe(1, 1, 0, n), Answer(router, 1, 1, 0), timeout);
    assert SessionInv(w, 1);
    hide Hit, Kept, Tracing.Dropped, Serials, SessionInv, TicketsInv, RegistryInv, PendingWindowed;
    assert n in w.fate;
    NoneElsewherePending(Next(w, e), [], n);
    OnlyOnePending(Next(w, e), n, dst);
  }

  /** Nor does that window keep duplicates harmless: in this run two equal IPv4
      answers, one served after the other, consume a probe each. */
  lemma DuplicateCanTake(dst: IP, router: IP, timeout: nat) returns (es: seq<Event>)
    requires router.V4?
    ensures Legal(Init(timeout), es) && PendingWindowedRun(Init(timeout), es, dst)
    ensures var w := Exec(Init(timeout), es);
            && |w.arrivals| == 2 && w.arrivals[0] == w.arrivals[1]
            && TakenBy(w, 1, 0) && TakenBy(w, ID_SPACE + 1, 1)
  {
    var before := UpToBurn(dst, router, timeout);
    hide *;
    var w := Exec(Init(timeout), before);
    ServiceEnds(w, dst, router, timeout);
    OneEvent(w, Visit(0), dst);
    var x := Next(w, Visit(0));
    ServiceFinishes(x, dst, router, timeout);
    OneEvent(x, Finish(0), dst);
    Then(w, [Visit(0)], [Finish(0)], dst);
    var y := Next(x, Finish(0));
    var more := SecondProbe(y, dst, router, timeout, map[]);
    var tail := DuplicateRun(Exec(y, more), dst, router, timeout);
    Then(y, more, tail, dst);
    var ended := [Visit(0)] + [Finish(0)];
    Then(w, ended, more + tail, dst);
    es := before + (ended + (more + tail));
    Then(Init(timeout), before, ended + (more + tail), dst);
  }

  /** The duplicate arrives, passes session 0 and takes the probe of session 1. */
  lemma DuplicateRun(w: World, dst: IP, router: IP, timeout: nat) returns (es: seq<Event>)
    requires Inv(w) && HalfWay(w, dst, router, timeout, map[], [Probe(1, 1, 0, ID_SPACE + 1)], map[]) && router.V4?
    requires PendingWindowed(w, dst)
    ensures Legal(w, es) && PendingWindowedRun(w, es, dst)
    ensures var v := Exec(w, es);
            && |v.arrivals| == 2 && v.arrivals[0] == v.arrivals[1]
            && TakenBy(v, 1, 0) && TakenBy(v, ID_SPACE + 1, 1)
  {
    hide *;
    var e, f := Arrive(dst, Answer(router, 1, 1, 0)), Visit(1);
    DuplicateArrives(w, dst, router, timeout);
    var u := Next(w, e);
    DuplicatePasses(u, dst, router, timeout);
    var v := Next(u, f);
    DuplicateHits(v, dst, router, timeout);
    ServedTwice(v, dst, router, timeout);
    OneEvent(w, e, dst);
    OneEvent(u, f, dst);
    OneEvent(v, f, dst);
    Then(u, [f], [f], dst);
    Then(w, [e], [f] + [f], dst);
    es := [e] + ([f] + [f]);
  }

  lemma ServedTwice(w: World, dst: IP, router: IP, timeout: nat)
    requires DuplicateServed(w, dst, router, timeout, [1])
    ensures |w.arrivals| == 2 && w.arrivals[0] == w.arrivals[1]
  {
  }
}
