/** Replies over whole runs: the reply of every matching visit is received, buffered, lost to a full channel or
    still to be sent, and is in range. A visit and its send are separate steps here. */
module Replies {
  import opened Lists
  import opened Tracing
  import opened Interleaving
  import opened Demultiplexing

  /** The answers whose reply to the session is made and not yet sent. */
  ghost function Sending(w: World, sid: nat): set<nat> {
    set svc | svc in w.active && w.active[svc].emit.Some? && w.active[svc].emit.value.sid == sid
  }

  ghost predicate CountsAdd(w: World, sid: nat)
    requires sid < |w.sessions|
  {
    var s := w.sessions[sid];
    s.hits == |s.got| + |s.ch| + s.lost + |Sending(w, sid)|
  }

  ghost predicate InRange(w: World) {
    && (forall sid, r :: 0 <= sid < |w.sessions| && r in w.sessions[sid].ch ==> ReplyInRange(r, w.timeout))
    && (forall sid, r :: 0 <= sid < |w.sessions| && r in w.sessions[sid].got ==> ReplyInRange(r, w.timeout))
    && (forall svc :: svc in w.active && w.active[svc].emit.Some? ==>
          ReplyInRange(w.active[svc].emit.value.reply, w.timeout))
  }

  ghost predicate Accounted(w: World) {
    InRange(w) && forall sid :: 0 <= sid < |w.sessions| ==> CountsAdd(w, sid)
  }

  // ----- range -----

  lemma VisitInRange(w: World, svc: nat)
    requires Inv(w) && Enabled(w, Visit(svc)) && InRange(w)
    ensures InRange(Next(w, Visit(svc)))
  {
    var sid := w.active[svc].todo[0];
    assert sid in w.active[svc].todo;
    LastHitFresh(w.sessions[sid].probes, w.arrivals[svc].res, w.timeout);
    hide Kept, Hit, MakeReply, ReplyInRange, FateAfterVisit, FatesInv, TicketsInv, SessionInv;
  }

  lemma StepInRange(w: World, e: Event)
    requires Inv(w) && Enabled(w, e) && InRange(w)
    ensures InRange(Next(w, e))
  {
    if e.Visit? {
      VisitInRange(w, e.svc);
    } else {
      hide ReplyInRange, FatesInv, TicketsInv, SessionInv;
    }
  }

  // ----- counts -----

  lemma VisitCounts(w: World, svc: nat, sid: nat)
    requires Inv(w) && Enabled(w, Visit(svc)) && sid < |w.sessions| && CountsAdd(w, sid)
    ensures CountsAdd(Next(w, Visit(svc)), sid)
  {
    var v, at := Next(w, Visit(svc)), w.active[svc].todo[0];
    assert at in w.active[svc].todo;
    hide Kept, Hit, MakeReply, FateAfterVisit, FatesInv, TicketsInv, SessionInv;
    if v.active[svc].emit.Some? && at == sid {
      assert Sending(v, sid) == Sending(w, sid) + {svc};
    } else {
      assert Sending(v, sid) == Sending(w, sid);
    }
  }

  lemma EmitCounts(w: World, svc: nat, sid: nat)
    requires Inv(w) && Enabled(w, Emit(svc)) && sid < |w.sessions| && CountsAdd(w, sid)
    ensures CountsAdd(Next(w, Emit(svc)), sid)
  {
    var v := Next(w, Emit(svc));
    hide FatesInv, TicketsInv, SessionInv;
    if w.active[svc].emit.value.sid == sid {
      assert Sending(v, sid) == Sending(w, sid) - {svc} && svc in Sending(w, sid);
    } else {
      assert Sending(v, sid) == Sending(w, sid);
    }
  }

  lemma StepCounts(w: World, e: Event, sid: nat)
    requires Inv(w) && Enabled(w, e) && sid < |w.sessions| && CountsAdd(w, sid)
    ensures sid < |Next(w, e).sessions| && CountsAdd(Next(w, e), sid)
  {
    StepGrows(w, e);
    if e.Visit? {
      VisitCounts(w, e.svc, sid);
    } else if e.Emit? {
      EmitCounts(w, e.svc, sid);
    } else {
      hide FatesInv, TicketsInv, SessionInv;
      assert Sending(Next(w, e), sid) == Sending(w, sid);
    }
  }

  /** A session starts with nothing counted. */
  lemma OpenCounts(w: World, ip: IP)
    requires Inv(w) && Enabled(w, Open(ip))
    ensures CountsAdd(Next(w, Open(ip)), |w.sessions|)
  {
    hide FatesInv, TicketsInv, SessionInv;
    assert Sending(Next(w, Open(ip)), |w.sessions|) == {};
  }

  lemma OnlyOpenGrows(w: World, e: Event)
    requires Inv(w) && Enabled(w, e)
    ensures |Next(w, e).sessions| == |w.sessions| + (if e.Open? then 1 else 0)
  {
    hide FatesInv, SessionInv, FateAfterVisit;
    if e.Visit? {
      assert w.active[e.svc].todo[0] in w.active[e.svc].todo;
    }
  }

  lemma StepAccounted(w: World, e: Event)
    requires Inv(w) && Enabled(w, e) && Accounted(w)
    ensures Accounted(Next(w, e))
  {
    StepInRange(w, e);
    OnlyOpenGrows(w, e);
    if e.Open? {
      OpenCounts(w, e.ip);
    }
    hide Inv, Next, Enabled, CountsAdd, InRange;
    forall sid | 0 <= sid < |Next(w, e).sessions| ensures CountsAdd(Next(w, e), sid) {
      if sid < |w.sessions| {
        StepCounts(w, e, sid);
      }
    }
  }

  lemma {:induction false} RunAccounted(w: World, es: seq<Event>)
    requires Inv(w) && Legal(w, es) && Accounted(w)
    ensures Accounted(Exec(w, es))
    decreases |es|
  {
    hide Inv, Next, Enabled, Accounted;
    if es != [] {
      StepKeepsInv(w, es[0]);
      StepAccounted(w, es[0]);
      RunAccounted(Next(w, es[0]), es[1..]);
    }
  }

  /**
   * Over every run, in every session: matching visits == replies received + buffered (at most 64) + lost to a full
   * channel + made but not yet sent; and every reply received, buffered or to be sent has an RTT of at most the timeout and at
   * least one hop.
   */
  lemma RepliesAccounted(timeout: int, es: seq<Event>, sid: nat)
    requires Legal(Init(timeout), es) && sid < |Exec(Init(timeout), es).sessions|
    ensures var w := Exec(Init(timeout), es);
            var s := w.sessions[sid];
            && s.hits == |s.got| + |s.ch| + s.lost + |Sending(w, sid)| && |s.ch| <= 64
            && (forall r :: r in s.ch || r in s.got ==> r.rtt <= timeout && r.hops >= 1)
            && (forall svc :: svc in Sending(w, sid) ==>
                  var r := w.active[svc].emit.value.reply; r.rtt <= timeout && r.hops >= 1)
  {
    assert Accounted(Init(timeout));
    RunAccounted(Init(timeout), es);
    SameTimeout(Init(timeout), es);
    var w := Exec(Init(timeout), es);
    hide Exec;
    assert Init(timeout).timeout == timeout && w.timeout == timeout;
    assert Inv(w) && CountsAdd(w, sid);
    hide FatesInv, TicketsInv, SessionInv, RegistryInv;
    assert |w.sessions[sid].ch| <= CHANNEL_CAPACITY;
    var s := w.sessions[sid];
    assert s.hits == |s.got| + |s.ch| + s.lost + |Sending(w, sid)|;
    assert forall r :: r in s.ch || r in s.got ==> ReplyInRange(r, timeout);
    forall svc | svc in Sending(w, sid) ensures ReplyInRange(w.active[svc].emit.value.reply, timeout) {
    }
  }

  lemma {:induction false} SameTimeout(w: World, es: seq<Event>)
    requires Inv(w) && Legal(w, es)
    ensures Exec(w, es).timeout == w.timeout
    decreases |es|
  {
    hide Inv, Enabled;
    if es != [] {
      StepKeepsInv(w, es[0]);
      StepSameTimeout(w, es[0]);
      hide Next;
      SameTimeout(Next(w, es[0]), es[1..]);
    }
  }

  lemma StepSameTimeout(w: World, e: Event)
    requires Inv(w) && Enabled(w, e)
    ensures Next(w, e).timeout == w.timeout
  {
    hide FatesInv, SessionInv, FateAfterVisit;
    if e.Visit? {
      assert w.active[e.svc].todo[0] in w.active[e.svc].todo;
    }
  }
}
