/** When the schedule comes out in order (scripts/perf_loadgen.py): the queue always pops a least pending
    entry, and that gives due times that never decrease exactly when no stream can step back, and strictly
    ordered events exactly when every stream must step on. */
module ScheduleOrder {
  import opened Schedule
  import opened ScheduleLaws

  // ---------------------------------------------------------------- the queue, whatever the jitter

  ghost predicate InQueueOrder(heap: seq<Event>) {
    forall i, k :: 0 <= i < k < |heap| ==> !Before(heap[k], heap[i])
  }

  lemma {:induction false} PushKeepsQueue(heap: seq<Event>, e: Event)
    requires InQueueOrder(heap)
    ensures InQueueOrder(Push(heap, e))
  {
    if !(heap == [] || Before(e, heap[0])) {
      var tail := heap[1..];
      PushKeepsQueue(tail, e);
      PushElements(tail, e);
      forall x | x in Push(tail, e) ensures !Before(x, heap[0]) {
        if x != e {
          var k :| 0 <= k < |tail| && tail[k] == x;
          assert heap[k + 1] == x;
        }
      }
    }
  }

  lemma OfferKeepsQueue(heap: seq<Event>, e: Event, stop: real)
    requires InQueueOrder(heap)
    ensures InQueueOrder(Offer(heap, e, stop))
  {
    PushKeepsQueue(heap, e);
  }

  lemma PrimeOneQueue(p: Plan, st: State, k: nat)
    requires k < |p.windows| && InQueueOrder(st.heap)
    ensures InQueueOrder(PrimeOne(p, st, k).heap)
  {
    var w := p.windows[k];
    var metrics := Event(w.start + p.metricsEvery, k, Metrics);
    OfferKeepsQueue(st.heap, metrics, w.stop);
    OfferKeepsQueue(Offer(st.heap, metrics, w.stop), FirstLog(p, k, st.used), w.stop);
  }

  lemma PrimeNextQueue(p: Plan, n: nat)
    requires 0 < n <= |p.windows| && InQueueOrder(Primed(p, n - 1).heap)
    ensures InQueueOrder(Primed(p, n).heap)
  {
    PrimeOneQueue(p, Primed(p, n - 1), n - 1);
  }

  lemma NoneQueued(p: Plan)
    ensures InQueueOrder(Primed(p, 0).heap)
  {
  }

  lemma {:induction false} PrimedQueue(p: Plan, n: nat)
    requires n <= |p.windows|
    ensures InQueueOrder(Primed(p, n).heap)
  {
    if n == 0 {
      NoneQueued(p);
    } else {
      PrimedQueue(p, n - 1);
      PrimeNextQueue(p, n);
    }
  }

  /** Whatever the random source does, no pending entry is before the one that is popped next. */
  lemma {:induction false} PopsTheLeast(p: Plan, n: nat)
    ensures InQueueOrder(Pulled(p, n).heap)
  {
    if n == 0 {
      PrimedQueue(p, |p.windows|);
    } else {
      var st := Pulled(p, n - 1);
      PopsTheLeast(p, n - 1);
      if st.heap != [] {
        PushKeepsQueue(st.heap[1..], Successor(p, st));
      }
    }
  }

  // ---------------------------------------------------------------- a step back

  /** The jitter reaches the log interval, and every draw is the least one. */
  ghost predicate StepsBack(p: Plan) {
    p.Accepted() && p.logsEvery <= p.jitter && forall k :: p.draws(k) == -p.jitter
  }

  lemma {:induction false} PrimedBurst(p: Plan, n: nat, session: nat)
    requires StepsBack(p) && session < n <= |p.windows| && p.windows[session].start <= p.windows[session].stop
    ensures Event(p.windows[session].start, session, LogBurst) in Primed(p, n).heap
  {
    var st := Primed(p, n - 1);
    PrimeOneElements(p, st, n - 1);
    if session < n - 1 {
      PrimedBurst(p, n - 1, session);
    } else {
      assert p.draws(st.used) == -p.jitter;
      assert FirstLog(p, session, st.used) == Event(p.windows[session].start, session, LogBurst);
    }
  }

  lemma OfferOnly(heap: seq<Event>, e: Event, stop: real, x: Event)
    requires x in Offer(heap, e, stop)
    ensures x in heap || (x == e && e.due <= stop)
  {
    PushElements(heap, e);
  }

  /** Every primed entry is in its window, a metrics export strictly after the start. */
  lemma {:induction false} PrimedEntry(p: Plan, n: nat, x: Event)
    requires StepsBack(p) && n <= |p.windows| && x in Primed(p, n).heap
    ensures x.session < n && x.due <= p.windows[x.session].stop
    ensures x.due == p.windows[x.session].start + if x.kind.Metrics? then p.metricsEvery else 0.0
  {
    var st, w := Primed(p, n - 1), p.windows[n - 1];
    var metrics, log := Event(w.start + p.metricsEvery, n - 1, Metrics), FirstLog(p, n - 1, st.used);
    assert p.draws(st.used) == -p.jitter;
    OfferOnly(Offer(st.heap, metrics, w.stop), log, w.stop, x);
    if x in Offer(st.heap, metrics, w.stop) {
      OfferOnly(st.heap, metrics, w.stop, x);
      if x in st.heap {
        PrimedEntry(p, n - 1, x);
      }
    }
  }

  /** The first event is a log burst at its session's start. */
  lemma FirstIsABurst(p: Plan, session: nat)
    requires StepsBack(p) && session < |p.windows| && p.windows[session].start <= p.windows[session].stop
    ensures var heap := Pulled(p, 0).heap;
            heap != [] && heap[0].session < |p.windows| && heap[0].kind.LogBurst?
            && heap[0].due <= p.windows[heap[0].session].stop
  {
    var heap := Pulled(p, 0).heap;
    PrimedBurst(p, |p.windows|, session);
    PopsTheLeast(p, 0);
    var first := heap[0];
    assert first in heap;
    PrimedEntry(p, |p.windows|, first);
    if first.kind.Metrics? {
      PrimedBurst(p, |p.windows|, first.session);
    }
  }

  /** Two pulls already come out in no strict order; and with the second due before the first, if the jitter
      exceeds the interval. */
  lemma OutOfOrder(p: Plan, session: nat)
    requires StepsBack(p) && session < |p.windows| && p.windows[session].start <= p.windows[session].stop
    ensures |Pulled(p, 2).out| == 2 && !Before(Pulled(p, 2).out[0], Pulled(p, 2).out[1])
    ensures p.logsEvery < p.jitter ==> Pulled(p, 2).out[1].due < Pulled(p, 2).out[0].due
  {
    FirstIsABurst(p, session);
    PrimedInRange(p, |p.windows|);
    var st := Pulled(p, 0);
    var first, again := st.heap[0], Successor(p, st);
    assert p.draws(st.used) == -p.jitter;
    assert again.due <= first.due && !Before(first, again);
    PushElements(st.heap[1..], again);
    var next := Pulled(p, 1);
    assert again in next.heap && next.out == [first];
    PopsTheLeast(p, 1);
    var k :| 0 <= k < |next.heap| && next.heap[k] == again;
    assert !Before(first, next.heap[0]);
    assert Pulled(p, 2).out == [first, next.heap[0]];
  }

  // ---------------------------------------------------------------- due times that never decrease

  ghost predicate NeverDecreasing(out: seq<Event>) {
    forall i, k :: 0 <= i < k < |out| ==> out[i].due <= out[k].due
  }

  /** What was yielded was due no later than anything pending. */
  ghost predicate NothingOverdue(st: State) {
    NeverDecreasing(st.out) && forall e, x :: e in st.out && x in st.heap ==> e.due <= x.due
  }

  lemma HeadIsLeast(heap: seq<Event>)
    requires InQueueOrder(heap) && heap != []
    ensures forall x :: x in heap ==> heap[0].due <= x.due
  {
    forall x | x in heap ensures heap[0].due <= x.due {
      var k :| 0 <= k < |heap| && heap[k] == x;
      assert k > 0 ==> !Before(heap[k], heap[0]);
    }
  }

  lemma AdvanceKeepsTime(p: Plan, st: State)
    requires p.Accepted() && p.InRange() && p.jitter <= p.logsEvery
    requires st.heap != [] && st.heap[0].session < |p.windows| && InQueueOrder(st.heap) && NothingOverdue(st)
    ensures NothingOverdue(Advance(p, st))
  {
    var head, next := st.heap[0], Advance(p, st);
    HeadIsLeast(st.heap);
    assert -p.jitter <= p.draws(st.used);
    assert head.due <= Successor(p, st).due;
    PushElements(st.heap[1..], Successor(p, st));
    assert st.heap == [head] + st.heap[1..];
    forall x | x in next.heap ensures head.due <= x.due && (x == Successor(p, st) || x in st.heap) {
    }
    forall e, x | e in next.out && x in next.heap ensures e.due <= x.due {
      assert head in st.heap;
    }
    forall i, k | 0 <= i < k < |next.out| ensures next.out[i].due <= next.out[k].due {
      if k == |st.out| {
        assert st.out[i] in st.out && head in st.heap;
      }
    }
  }

  lemma {:induction false} PulledKeepsTime(p: Plan, n: nat)
    requires p.Accepted() && p.InRange() && p.jitter <= p.logsEvery
    ensures NothingOverdue(Pulled(p, n))
  {
    if n == 0 {
      PrimedInRange(p, |p.windows|);
    } else {
      PulledKeepsTime(p, n - 1);
      PullKeepsTime(p, n);
    }
  }

  lemma PullKeepsTime(p: Plan, n: nat)
    requires p.Accepted() && p.InRange() && p.jitter <= p.logsEvery && n > 0 && NothingOverdue(Pulled(p, n - 1))
    ensures NothingOverdue(Pulled(p, n))
  {
    PopsTheLeast(p, n - 1);
    if Pulled(p, n - 1).heap != [] {
      AdvanceKeepsTime(p, Pulled(p, n - 1));
    }
  }

  ghost predicate AlwaysInTime(p: Plan) {
    forall draws: nat -> real, n: nat :: With(p, draws).InRange() ==> NeverDecreasing(Pulled(With(p, draws), n).out)
  }

  // ---------------------------------------------------------------- the exact conditions

  /** The code promises due times that never decrease, up to local reordering. They never do, for every
      random source and however far the schedule is pulled, if and only if the jitter does not exceed the
      log interval or no session has a window. */
  lemma AlwaysInTimeIff(p: Plan)
    requires p.Accepted()
    ensures AlwaysInTime(p) <==>
            p.jitter <= p.logsEvery || forall i :: 0 <= i < |p.windows| ==> p.windows[i].start > p.windows[i].stop
  {
    if p.jitter <= p.logsEvery {
      forall draws: nat -> real, n: nat | With(p, draws).InRange()
        ensures NeverDecreasing(Pulled(With(p, draws), n).out)
      {
        PulledKeepsTime(With(p, draws), n);
      }
    } else if forall i :: 0 <= i < |p.windows| ==> p.windows[i].start > p.windows[i].stop {
      forall draws: nat -> real, n: nat ensures NeverDecreasing(Pulled(With(p, draws), n).out) {
        NothingPrimed(With(p, draws), |p.windows|);
        NothingPulled(With(p, draws), n);
      }
    } else {
      var session :| 0 <= session < |p.windows| && p.windows[session].start <= p.windows[session].stop;
      var q := With(p, (k: nat) => -p.jitter);
      assert q.InRange();
      OutOfOrder(q, session);
      assert !NeverDecreasing(Pulled(q, 2).out);
    }
  }

  ghost predicate AlwaysInOrder(p: Plan) {
    forall draws: nat -> real, n: nat :: With(p, draws).InRange() ==> Ordered(Pulled(With(p, draws), n).out)
  }

  lemma {:induction false} NothingPulled(p: Plan, n: nat)
    requires Pulled(p, 0).heap == []
    ensures Pulled(p, n).heap == [] && Pulled(p, n).out == []
  {
    if n == 0 {
      PrimedInRange(p, |p.windows|);
    } else {
      NothingPulled(p, n - 1);
    }
  }

  /** Strict order by due time, session and kind holds, for every random source and however far the schedule
      is pulled, if and only if the jitter is below the log interval or no session has a window. */
  lemma AlwaysOrderedIff(p: Plan)
    requires p.Accepted()
    ensures AlwaysInOrder(p) <==>
            p.jitter < p.logsEvery || forall i :: 0 <= i < |p.windows| ==> p.windows[i].start > p.windows[i].stop
  {
    if p.jitter < p.logsEvery {
      forall draws: nat -> real, n: nat | With(p, draws).InRange() ensures Ordered(Pulled(With(p, draws), n).out) {
        ScheduleIsOrdered(With(p, draws), n);
      }
    } else if forall i :: 0 <= i < |p.windows| ==> p.windows[i].start > p.windows[i].stop {
      forall draws: nat -> real, n: nat ensures Ordered(Pulled(With(p, draws), n).out) {
        NothingPrimed(With(p, draws), |p.windows|);
        NothingPulled(With(p, draws), n);
      }
    } else {
      var session :| 0 <= session < |p.windows| && p.windows[session].start <= p.windows[session].stop;
      var q := With(p, (k: nat) => -p.jitter);
      assert q.InRange();
      OutOfOrder(q, session);
      assert !Ordered(Pulled(q, 2).out);
    }
  }
}
