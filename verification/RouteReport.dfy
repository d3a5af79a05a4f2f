/** Fan-out and collection: workers send one result each on a buffered channel,
    and a loop collects them until all are in or the context is done. */
module RouteReport {
  import opened Contexts
  import opened Lists

  /** The goroutines and their channel. `idle` are the workers that have not
      sent yet, `chan` holds the indexes of buffered results, in order. */
  class Workers {
    const n: nat
    var idle: set<nat>
    var chan: seq<nat>
    ghost var taken: seq<nat>

    /** Every worker is idle, buffered or collected, and only one of these. */
    ghost predicate Valid()
      reads this
    {
      && Distinct(taken + chan)
      && (forall i :: i in idle ==> i < n)
      && (forall i :: i in taken + chan ==> i < n)
      && (forall i: nat :: i < n ==> (i in idle <==> i !in taken + chan))
    }

    constructor (n: nat)
      ensures Valid() && this.n == n && chan == [] && taken == []
    {
      this.n, idle, chan, taken := n, Range(n), [], [];
    }

    /** A worker that has not sent always finds room in the channel. */
    lemma RoomToSend(i: nat)
      requires Valid() && i in idle
      ensures |chan| < n
    {
      var all := chan + [i];
      forall a, b | 0 <= a < b < |all| ensures all[a] != all[b] {
        var s := taken + chan;
        assert s[|taken| + a] == chan[a];
        if b < |chan| {
          assert s[|taken| + b] == chan[b];
        } else {
          assert chan[a] in s;
        }
      }
      forall x | x in all ensures x in Range(n) {
        if x in chan { assert x in taken + chan; }
      }
      DistinctFits(all, Range(n));
    }

    /** While something is uncollected, the collector or a worker can move. */
    lemma NoDeadlock()
      requires Valid() && |taken| < n
      ensures chan != [] || idle != {}
    {
      if chan == [] && idle == {} {
        assert taken + chan == taken;
        var all := Range(n);
        assert all <= set x | x in taken;
        ImageFits(taken);
        SubsetSize(all, set x | x in taken);
      }
    }

    /** The buffered send of one worker; the channel has capacity n. */
    method Send(i: nat)
      requires Valid() && i in idle && |chan| < n
      modifies this
      ensures Valid() && idle == old(idle) - {i} && chan == old(chan) + [i] && taken == old(taken)
    {
      idle := idle - {i};
      chan := chan + [i];
      assert taken + chan == (taken + old(chan)) + [i];
    }

    method Take() returns (i: nat)
      requires Valid() && chan != []
      modifies this
      ensures Valid() && old(chan) == [i] + chan && taken == old(taken) + [i] && idle == old(idle)
      ensures i < n && i !in old(taken)
    {
      i := chan[0];
      assert i in taken + chan;
      assert (taken + chan)[|taken|] == i;
      forall a | 0 <= a < |taken| ensures taken[a] != i {
        assert (taken + chan)[a] == taken[a];
      }
      taken := taken + [i];
      chan := chan[1..];
      assert taken + chan == old(taken + chan);
    }

    /** Nothing is lost: once n results are collected they are everyone's, once each. */
    lemma AllTaken()
      requires Valid() && |taken| >= n
      ensures |taken| == n && Distinct(taken) && forall i: nat :: i < n ==> i in taken
    {
      assert Distinct(taken) by {
        forall a, b | 0 <= a < b < |taken| ensures taken[a] != taken[b] {
          assert (taken + chan)[a] == taken[a] && (taken + chan)[b] == taken[b];
        }
      }
      var all := Range(n);
      forall x | x in taken ensures x in all {
        assert x in taken + chan;
      }
      DistinctFits(taken, all);
      forall i: nat | i < n ensures i in taken {
        if i !in taken {
          DistinctFits(taken, all - {i});
        }
      }
    }
  }

  lemma SubsetSize<T>(a: set<T>, b: set<T>)
    requires a <= b
    ensures |a| <= |b|
  {
    assert b == a + (b - a);
  }

  /** The collecting loop of RunRouteReport, under any schedule: at each turn the
      context may end, and any ready branch is chosen; with nothing buffered and
      the context open the loop waits for a worker. `own` are the results the
      workers send, `canceled` the reports written on cancellation. Every target
      gets one report, in target order: its worker's own exactly when that was
      taken from the channel. Unless the context ended, all are taken. */
  method CollectReports<T>(own: seq<T>, canceled: seq<T>, w: Workers, ctx: Context)
    returns (reports: seq<T>, wasCanceled: bool)
    requires w.Valid() && w.n == |own| == |canceled| && w.taken == []
    modifies w, ctx
    ensures w.Valid() && w.idle == {} && |reports| == |own|
    ensures forall i: nat :: i < |own| ==> reports[i] == if i in w.taken then own[i] else canceled[i]
    ensures !wasCanceled ==> reports == own && forall i: nat :: i < |own| ==> i in w.taken
    ensures wasCanceled ==> ctx.err != Open && |w.taken| < |own|
    ensures old(ctx.err) != Open ==> ctx.err == old(ctx.err)
  {
    hide Workers.Valid, Distinct;
    var n := |own|;
    var slots: seq<Option<T>> := seq(n, _ => None);
    var got: seq<bool> := seq(n, _ => false);
    var count := 0;
    wasCanceled := false;
    while count < n
      invariant w.Valid() && |slots| == n && |got| == n
      invariant old(ctx.err) != Open ==> ctx.err == old(ctx.err)
      invariant count == if wasCanceled then n else |w.taken|
      invariant wasCanceled ==> ctx.err != Open && |w.taken| < n
      invariant !wasCanceled ==> forall i: nat :: i < n ==> (got[i] <==> i in w.taken)
      invariant !wasCanceled ==> forall i: nat :: i < n && got[i] ==> slots[i] == Some(own[i])
      invariant wasCanceled ==>
        forall i: nat :: i < n ==> slots[i] == Some(if i in w.taken then own[i] else canceled[i])
      decreases n - count, w.idle
    {
      ctx.Elapse();
      w.NoDeadlock();
      var choice: int := *;
      if choice == 0 && ctx.err != Open {
        slots := FillCanceled(slots, got, canceled);
        wasCanceled := true;
        count := n;
      } else if w.idle != {} && (choice == 1 || w.chan == []) {
        var i :| i in w.idle;
        w.RoomToSend(i);
        w.Send(i);
      } else {
        var i := w.Take();
        slots := slots[i := Some(own[i])];
        if !got[i] {
          got := got[i := true];
          count := count + 1;
        }
      }
    }
    if !wasCanceled {
      w.AllTaken();
    }
    DrainWorkers(w);
    reports := seq(n, i requires 0 <= i < n && slots[i].Some? => slots[i].value);
  }

  method FillCanceled<T>(slots: seq<Option<T>>, got: seq<bool>, canceled: seq<T>) returns (filled: seq<Option<T>>)
    requires |slots| == |got| == |canceled|
    ensures |filled| == |slots|
    ensures forall i :: 0 <= i < |slots| ==> filled[i] == if got[i] then slots[i] else Some(canceled[i])
  {
    filled := slots;
    for i := 0 to |slots|
      invariant |filled| == |slots|
      invariant forall j :: 0 <= j < i ==> filled[j] == if got[j] then slots[j] else Some(canceled[j])
      invariant forall j :: i <= j < |slots| ==> filled[j] == slots[j]
    {
      if got[i] {
        continue;
      }
      filled := filled[i := Some(canceled[i])];
    }
  }

  /** After the collector has left, the remaining workers still send and end. */
  method DrainWorkers(w: Workers)
    requires w.Valid()
    modifies w
    ensures w.Valid() && w.idle == {} && w.taken == old(w.taken)
  {
    while w.idle != {}
      invariant w.Valid() && w.taken == old(w.taken)
      decreases w.idle
    {
      var i :| i in w.idle;
      w.RoomToSend(i);
      w.Send(i);
    }
  }
}
