/** Who is registered, and what that means for a closed session: nothing reaches it any more. */
module Closing {
  import opened Lists
  import opened Tracing
  import opened Interleaving
  import opened Demultiplexing
  import opened Distances

  /** Opening registers a new, empty session after those of its address; closing takes the session off the list of its
      address and keeps the rest in order; nothing else changes who is registered. */
  lemma RegistrySteps(w: World, e: Event, ip: IP)
    requires Inv(w) && Enabled(w, e)
    ensures var v := Next(w, e);
            && (e.Open? ==> v.sessions == w.sessions + [NewSession(e.ip)])
            && (if e.Open? && ip == e.ip then RegisteredAt(v, ip) == RegisteredAt(w, ip) + [|w.sessions|]
                else if e.Close? && ip == w.sessions[e.sid].ip then
                  RegisteredAt(v, ip) == Filter(RegisteredAt(w, ip), (sid: nat) => sid != e.sid)
                else RegisteredAt(v, ip) == RegisteredAt(w, ip))
  {
    hide FatesInv, TicketsInv, SessionInv, FateAfterVisit;
    if e.Visit? {
      assert w.active[e.svc].todo[0] in w.active[e.svc].todo;
    }
    if e.Close? {
      var at := w.sessions[e.sid].ip;
      assert Distinct(RegisteredAt(w, at));
      RemoveFirstFilters(RegisteredAt(w, at), e.sid);
    }
  }

  lemma {:induction false} RemoveFirstFilters(s: seq<nat>, x: nat)
    requires Distinct(s)
    ensures RemoveFirst(s, x) == Filter(s, (y: nat) => y != x)
  {
    var keep := (y: nat) => y != x;
    if s != [] {
      assert s == [s[0]] + s[1..];
      FilterConcat([s[0]], s[1..], keep);
      assert [s[0]][..0] == [];
      if s[0] == x {
        FilterAll(s[1..], keep);
      } else {
        RemoveFirstFilters(s[1..], x);
      }
    }
  }

  /** No list of sessions holds this one: it is not registered, no answer is on its way to it, and no reply is. */
  ghost predicate Out(w: World, sid: nat) {
    && sid < |w.sessions|
    && (forall ip :: sid !in RegisteredAt(w, ip))
    && (forall svc :: svc in w.active ==>
          sid !in w.active[svc].todo && (w.active[svc].emit.Some? ==> w.active[svc].emit.value.sid != sid))
  }

  /** Closing takes a session out. */
  lemma CloseTakesOut(w: World, sid: nat)
    requires Inv(w) && Enabled(w, Close(sid))
    ensures Out(Next(w, Close(sid)), sid)
  {
    var v := Next(w, Close(sid));
    forall ip ensures sid !in RegisteredAt(v, ip) {
      RegistrySteps(w, Close(sid), ip);
      FilterMembers(RegisteredAt(w, ip), (s: nat) => s != sid);
      assert ip in w.registry ==> ListsSessionsOf(w, ip, w.registry[ip]);
    }
  }

  lemma OutStep(w: World, e: Event, sid: nat)
    requires Inv(w) && Enabled(w, e) && Out(w, sid)
    ensures Out(Next(w, e), sid)
  {
    var v := Next(w, e);
    StepGrows(w, e);
    forall ip ensures sid !in RegisteredAt(v, ip) {
      RegistrySteps(w, e, ip);
      if e.Close? {
        FilterMembers(RegisteredAt(w, ip), (s: nat) => s != e.sid);
      }
    }
    hide FatesInv, TicketsInv, SessionInv, RegistryInv, FateAfterVisit, Kept, Hit, MakeReply;
    if e.Visit? {
      var todo := w.active[e.svc].todo;
      assert todo[0] in todo && forall s :: s in todo[1..] ==> s in todo;
    }
  }

  /** Nothing happens to what is out but that its owner takes what was buffered. */
  lemma OutUntouched(w: World, e: Event, sid: nat, n: nat)
    requires Inv(w) && Enabled(w, e) && Out(w, sid)
    ensures sid < |Next(w, e).sessions| && Queue(Next(w, e), sid) == Queue(w, sid)
    ensures n in w.fate && n in Next(w, e).fate && w.fate[n] == Pending(sid) ==> Next(w, e).fate[n] == Pending(sid)
  {
    QueueGrowsAtTheEnd(w, e, sid);
    hide Queue;
    if e.Visit? {
      assert w.active[e.svc].todo[0] in w.active[e.svc].todo;
      VisitMoves(w, e.svc);
    }
    hide Kept, Hit, MakeReply, FateAfterVisit, SessionInv;
  }

  /** Once a session is closed, and for the rest of any run: no reply is added to those it received or has buffered,
      and its pending probes stay as they are, neither taken nor dropped. */
  lemma {:induction false} ClosedStaysOut(w: World, es: seq<Event>, sid: nat, n: nat)
    requires Inv(w) && Legal(w, es) && Out(w, sid)
    ensures var v := Exec(w, es);
            && Out(v, sid) && Queue(v, sid) == Queue(w, sid)
            && (n in w.fate && w.fate[n] == Pending(sid) ==> n in v.fate && v.fate[n] == Pending(sid))
    decreases |es|
  {
    hide Inv, Next, Enabled, Queue;
    if es != [] {
      StepKeepsInv(w, es[0]);
      OutStep(w, es[0], sid);
      OutUntouched(w, es[0], sid, n);
      if n in w.fate { FateStep(w, es[0], n); }
      ClosedStaysOut(Next(w, es[0]), es[1..], sid, n);
    }
  }
}
