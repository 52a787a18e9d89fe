/** What the lazy schedule yields when the jitter is below the log interval: strictly ordered events,
    each stream on its cadence and complete, one pending entry per stream, and termination. */
module ScheduleLaws {
  import opened Schedule

  /** The code checks only that the jitter is not negative; its order and end need more. */
  ghost predicate Calm(p: Plan) {
    p.Accepted() && p.InRange() && p.jitter < p.logsEvery
  }

  /** cur is a proper successor of prev in its stream. */
  ghost predicate Follows(p: Plan, kind: Kind, prev: real, cur: real) {
    match kind
    case Metrics => cur == prev + p.metricsEvery
    case LogBurst => prev + p.logsEvery - p.jitter <= cur <= prev + p.logsEvery + p.jitter
  }

  /** When the stream's latest event was; its session's start if there was none. */
  ghost function Latest(p: Plan, out: seq<Event>, session: nat, kind: Kind): real
    requires session < |p.windows|
  {
    if out == [] then p.windows[session].start
    else
      var last := out[|out| - 1];
      if last.session == session && last.kind == kind then last.due
      else Latest(p, out[..|out| - 1], session, kind)
  }

  lemma LatestSnoc(p: Plan, out: seq<Event>, e: Event, session: nat, kind: Kind)
    requires session < |p.windows|
    ensures Latest(p, out + [e], session, kind) ==
            if e.session == session && e.kind == kind then e.due else Latest(p, out, session, kind)
  {
    assert (out + [e])[..|out|] == out;
  }

  /** An event that belongs where it is: in its window, one step after its stream's latest. */
  ghost predicate InPlace(p: Plan, out: seq<Event>, e: Event) {
    && e.session < |p.windows| && e.due <= p.windows[e.session].stop
    && Follows(p, e.kind, Latest(p, out, e.session, e.kind), e.due)
  }

  /** No further event of the stream was due: the next one overshot the window. */
  ghost predicate Over(p: Plan, kind: Kind, latest: real, stop: real) {
    latest + (if kind.Metrics? then p.metricsEvery else p.logsEvery + p.jitter) > stop
  }

  ghost predicate SameStream(a: Event, b: Event) {
    a.session == b.session && a.kind == b.kind
  }

  // ---------------------------------------------------------------- the queue stays in order

  ghost predicate Ordered(s: seq<Event>) {
    forall i, k :: 0 <= i < k < |s| ==> Before(s[i], s[k])
  }

  ghost predicate OnePerStream(heap: seq<Event>) {
    forall i, k :: 0 <= i < k < |heap| ==> !SameStream(heap[i], heap[k])
  }

  ghost predicate NotPending(heap: seq<Event>, e: Event) {
    forall x :: x in heap ==> !SameStream(x, e)
  }

  lemma {:induction false} PushInOrder(heap: seq<Event>, e: Event)
    requires Ordered(heap) && OnePerStream(heap) && NotPending(heap, e)
    ensures Ordered(Push(heap, e)) && OnePerStream(Push(heap, e))
  {
    if heap == [] || Before(e, heap[0]) {
      assert forall i :: 0 <= i < |heap| ==> Before(e, heap[i]) && heap[i] in heap;
    } else {
      assert !SameStream(heap[0], e);
      assert Before(heap[0], e);
      var tail := heap[1..];
      PushInOrder(tail, e);
      PushElements(tail, e);
      var pushed := Push(tail, e);
      forall i | 0 <= i < |pushed| ensures Before(heap[0], pushed[i]) && !SameStream(heap[0], pushed[i]) {
        assert pushed[i] in tail || pushed[i] == e;
      }
    }
  }

  // ---------------------------------------------------------------- the invariant of every pull

  ghost predicate QueueOk(p: Plan, st: State) {
    && Ordered(st.heap) && OnePerStream(st.heap)
    && forall e :: e in st.heap ==> InPlace(p, st.out, e)
  }

  /** A stream of one of the first n sessions without a pending entry is over. */
  ghost predicate Complete(p: Plan, st: State, n: nat)
    requires n <= |p.windows|
  {
    forall session: nat, kind :: session < n ==>
      (exists e :: e in st.heap && e.session == session && e.kind == kind)
      || Over(p, kind, Latest(p, st.out, session, kind), p.windows[session].stop)
  }

  /** The events yielded are in order, before everything pending, and each was in place. */
  ghost predicate OutputOk(p: Plan, st: State) {
    && Ordered(st.out)
    && (forall o, e :: o in st.out && e in st.heap ==> Before(o, e))
    && AllInPlace(p, st.out)
  }

  lemma OfferQueueOk(p: Plan, st: State, e: Event)
    requires QueueOk(p, st) && e.session < |p.windows| && NotPending(st.heap, e)
    requires Follows(p, e.kind, Latest(p, st.out, e.session, e.kind), e.due)
    ensures QueueOk(p, st.(heap := Offer(st.heap, e, p.windows[e.session].stop)))
  {
    PushInOrder(st.heap, e);
    PushElements(st.heap, e);
  }

  /** The first n sessions have their first entries pending, and nothing is yielded yet. */
  ghost predicate PrimedOk(p: Plan, st: State, n: nat)
    requires n <= |p.windows|
  {
    && QueueOk(p, st) && st.out == [] && Complete(p, st, n)
    && forall e :: e in st.heap ==> e.session < n
  }

  lemma {:induction false} PrimedIsSound(p: Plan, n: nat)
    requires Calm(p) && n <= |p.windows|
    ensures PrimedOk(p, Primed(p, n), n)
  {
    if n == 0 {
      NoneIsPrimed(p);
    } else {
      PrimedIsSound(p, n - 1);
      NextIsPrimed(p, n);
    }
  }

  lemma NoneIsPrimed(p: Plan)
    ensures PrimedOk(p, Primed(p, 0), 0)
  {
  }

  lemma NextIsPrimed(p: Plan, n: nat)
    requires Calm(p) && 0 < n <= |p.windows| && PrimedOk(p, Primed(p, n - 1), n - 1)
    ensures PrimedOk(p, Primed(p, n), n)
  {
    PrimeOneIsSound(p, Primed(p, n - 1), n - 1);
  }

  lemma PrimeOneIsSound(p: Plan, st: State, k: nat)
    requires Calm(p) && k < |p.windows| && PrimedOk(p, st, k)
    ensures PrimedOk(p, PrimeOne(p, st, k), k + 1)
  {
    var w := p.windows[k];
    var metrics, log := Event(w.start + p.metricsEvery, k, Metrics), FirstLog(p, k, st.used);
    assert -p.jitter <= p.draws(st.used) <= p.jitter;
    OfferQueueOk(p, st, metrics);
    var mid := st.(heap := Offer(st.heap, metrics, w.stop));
    PushElements(st.heap, metrics);
    OfferQueueOk(p, mid, log);
    PushElements(mid.heap, log);
  }

  /** The entry pushed after e. */
  ghost function Successor(p: Plan, st: State): Event
    requires st.heap != []
  {
    var e := st.heap[0];
    Event(NextDue(p, e, st.used), e.session, e.kind)
  }

  lemma SuccessorFollows(p: Plan, st: State)
    requires Calm(p) && st.heap != []
    ensures Follows(p, st.heap[0].kind, st.heap[0].due, Successor(p, st).due)
    ensures Before(st.heap[0], Successor(p, st))
  {
    assert -p.jitter <= p.draws(st.used) <= p.jitter;
  }

  lemma AdvanceQueue(p: Plan, st: State)
    requires Calm(p) && QueueOk(p, st) && st.heap != [] && st.heap[0].session < |p.windows|
    ensures QueueOk(p, Advance(p, st))
  {
    var e, tail := st.heap[0], st.heap[1..];
    assert st.heap == [e] + tail && InPlace(p, st.out, e);
    SuccessorFollows(p, st);
    var mid := State(tail, st.used, st.out + [e]);
    forall x | x in tail ensures InPlace(p, mid.out, x) && !SameStream(x, e) {
      var i :| 0 <= i < |tail| && tail[i] == x;
      assert st.heap[i + 1] == x && !SameStream(st.heap[0], st.heap[i + 1]);
      assert x in st.heap && InPlace(p, st.out, x);
      LatestSnoc(p, st.out, e, x.session, x.kind);
    }
    assert Ordered(tail) && OnePerStream(tail);
    LatestSnoc(p, st.out, e, e.session, e.kind);
    OfferQueueOk(p, mid, Successor(p, st));
  }

  lemma AdvanceComplete(p: Plan, st: State)
    requires Calm(p) && QueueOk(p, st) && st.heap != [] && st.heap[0].session < |p.windows| &&
             Complete(p, st, |p.windows|)
    ensures Complete(p, Advance(p, st), |p.windows|)
  {
    var e, tail, next := st.heap[0], st.heap[1..], Successor(p, st);
    assert st.heap == [e] + tail && InPlace(p, st.out, e);
    SuccessorFollows(p, st);
    PushElements(tail, next);
    var after := Advance(p, st);
    forall session: nat, kind | session < |p.windows|
      ensures (exists x :: x in after.heap && x.session == session && x.kind == kind)
              || Over(p, kind, Latest(p, after.out, session, kind), p.windows[session].stop)
    {
      LatestSnoc(p, st.out, e, session, kind);
      if session == e.session && kind == e.kind {
        assert next.due <= p.windows[session].stop ==> next in after.heap;
      } else if exists x :: x in st.heap && x.session == session && x.kind == kind {
        var x :| x in st.heap && x.session == session && x.kind == kind;
        assert x in after.heap;
      }
    }
  }

  lemma AdvanceOutput(p: Plan, st: State)
    requires Calm(p) && QueueOk(p, st) && st.heap != [] && st.heap[0].session < |p.windows| && OutputOk(p, st)
    ensures OutputOk(p, Advance(p, st))
  {
    var e, tail, next, after := st.heap[0], st.heap[1..], Successor(p, st), Advance(p, st);
    assert st.heap == [e] + tail && InPlace(p, st.out, e);
    SuccessorFollows(p, st);
    PushElements(tail, next);
    forall o, x | o in after.out && x in after.heap ensures Before(o, x) {
      assert o in st.out || o == e;
      if o in st.out {
        assert Before(o, e);
      }
      if x in tail {
        var i :| 0 <= i < |tail| && tail[i] == x;
        assert Before(st.heap[0], st.heap[i + 1]);
      }
    }
    forall i | 0 <= i < |after.out| ensures InPlace(p, after.out[..i], after.out[i]) {
      assert after.out[..i] == if i < |st.out| then st.out[..i] else st.out;
    }
  }

  lemma {:induction false} PulledIsSound(p: Plan, n: nat)
    requires Calm(p)
    ensures QueueOk(p, Pulled(p, n)) && Complete(p, Pulled(p, n), |p.windows|) && OutputOk(p, Pulled(p, n))
  {
    if n == 0 {
      PrimedIsSound(p, |p.windows|);
    } else {
      PulledIsSound(p, n - 1);
      var st := Pulled(p, n - 1);
      if st.heap != [] {
        AdvanceQueue(p, st);
        AdvanceComplete(p, st);
        AdvanceOutput(p, st);
      }
    }
  }

  // ---------------------------------------------------------------- the cadence

  ghost function CountOf(out: seq<Event>, session: nat, kind: Kind): nat {
    if out == [] then 0
    else
      var last := out[|out| - 1];
      CountOf(out[..|out| - 1], session, kind) + if last.session == session && last.kind == kind then 1 else 0
  }

  /** start + k * interval. */
  function GridPoint(p: Plan, session: nat, k: nat): real
    requires session < |p.windows|
  {
    p.windows[session].start + k as real * p.metricsEvery
  }

  lemma NextGridPoint(p: Plan, session: nat, k: nat)
    requires session < |p.windows|
    ensures GridPoint(p, session, k + 1) == GridPoint(p, session, k) + p.metricsEvery
    ensures GridPoint(p, session, 0) == p.windows[session].start
  {
    assert (k + 1) as real * p.metricsEvery == k as real * p.metricsEvery + p.metricsEvery;
  }

  /** Every event was in place when it was yielded. */
  ghost predicate AllInPlace(p: Plan, out: seq<Event>) {
    forall i :: 0 <= i < |out| ==> InPlace(p, out[..i], out[i])
  }

  lemma AllInPlaceFront(p: Plan, out: seq<Event>)
    requires AllInPlace(p, out) && out != []
    ensures AllInPlace(p, out[..|out| - 1]) && InPlace(p, out[..|out| - 1], out[|out| - 1])
  {
    var front := out[..|out| - 1];
    forall i | 0 <= i < |front| ensures InPlace(p, front[..i], front[i]) {
      assert front[..i] == out[..i];
    }
  }

  /** The k-th metrics export of a session is due k intervals after its start. */
  lemma {:induction false} MetricsOnTheGrid(p: Plan, out: seq<Event>, session: nat)
    requires session < |p.windows| && AllInPlace(p, out)
    ensures Latest(p, out, session, Metrics) == GridPoint(p, session, CountOf(out, session, Metrics))
  {
    NextGridPoint(p, session, 0);
    if out != [] {
      AllInPlaceFront(p, out);
      MetricsOnTheGrid(p, out[..|out| - 1], session);
      NextGridPoint(p, session, CountOf(out[..|out| - 1], session, Metrics));
    }
  }

  /** The lazy queue refines the naive schedule. With the jitter below the log interval, whatever the
      random source yields, after any number of pulls: the events are strictly ordered by (due, session,
      kind); the queue holds at most one entry per session and kind; each event is in its window, a
      metrics export exactly one interval and a log burst one interval give or take the jitter after its
      stream's previous event. */
  lemma ScheduleIsOrdered(p: Plan, n: nat)
    requires Calm(p)
    ensures var st := Pulled(p, n);
            Ordered(st.out) && OnePerStream(st.heap) && AllInPlace(p, st.out)
  {
    PulledIsSound(p, n);
  }

  /** Once exhausted, nothing is missing: a session's k metrics exports are all the grid points in its
      window, and its last log burst is within one interval plus jitter of the window's end. */
  lemma ScheduleIsComplete(p: Plan, n: nat, session: nat)
    requires Calm(p) && Pulled(p, n).heap == [] && session < |p.windows|
    ensures var out, w := Pulled(p, n).out, p.windows[session];
            var k := CountOf(out, session, Metrics);
            && GridPoint(p, session, k + 1) > w.stop
            && (k > 0 ==> GridPoint(p, session, k) <= w.stop)
            && Latest(p, out, session, LogBurst) + p.logsEvery + p.jitter > w.stop
  {
    PulledIsSound(p, n);
    StreamIsOver(p, Pulled(p, n), session, LogBurst);
    StreamIsOver(p, Pulled(p, n), session, Metrics);
    GridIsFull(p, Pulled(p, n).out, session);
  }

  lemma StreamIsOver(p: Plan, st: State, session: nat, kind: Kind)
    requires session < |p.windows| && Complete(p, st, |p.windows|) && st.heap == []
    ensures Over(p, kind, Latest(p, st.out, session, kind), p.windows[session].stop)
  {
  }

  lemma GridIsFull(p: Plan, out: seq<Event>, session: nat)
    requires session < |p.windows| && AllInPlace(p, out)
    requires Over(p, Metrics, Latest(p, out, session, Metrics), p.windows[session].stop)
    ensures var k, w := CountOf(out, session, Metrics), p.windows[session];
            GridPoint(p, session, k + 1) > w.stop && (k > 0 ==> GridPoint(p, session, k) <= w.stop)
  {
    MetricsOnTheGrid(p, out, session);
    LatestFits(p, out, session, Metrics);
    NextGridPoint(p, session, CountOf(out, session, Metrics));
  }

  lemma {:induction false} LatestFits(p: Plan, out: seq<Event>, session: nat, kind: Kind)
    requires session < |p.windows| && AllInPlace(p, out)
    ensures CountOf(out, session, kind) > 0 ==> Latest(p, out, session, kind) <= p.windows[session].stop
  {
    if out != [] {
      AllInPlaceFront(p, out);
      LatestFits(p, out[..|out| - 1], session, kind);
    }
  }

  // ---------------------------------------------------------------- termination

  /** The shortest step any stream can take. */
  ghost function MinGap(p: Plan): real {
    if p.metricsEvery <= p.logsEvery - p.jitter then p.metricsEvery else p.logsEvery - p.jitter
  }

  ghost function Steps(gap: real, left: real): int
    requires gap > 0.0
  {
    (left / gap).Floor + 1
  }

  /** Room left shrinks by at least one step. */
  lemma OneStepLess(gap: real, left: real, less: real)
    requires gap > 0.0 && less <= left - gap
    ensures Steps(gap, less) <= Steps(gap, left) - 1
  {
    var a, b := left / gap, less / gap;
    assert a * gap == left && b * gap == less;
    assert (a - 1.0 - b) * gap >= 0.0;
    Sign(a - 1.0 - b, gap);
  }

  lemma Sign(x: real, gap: real)
    requires gap > 0.0 && x * gap >= 0.0
    ensures x >= 0.0
  {
  }

  lemma RoomForOne(gap: real, left: real)
    requires gap > 0.0 && left >= 0.0
    ensures Steps(gap, left) >= 1
  {
    assert left / gap >= 0.0;
  }

  /** How many more events an entry can stand for. */
  ghost function Weight(p: Plan, e: Event): int
    requires Calm(p) && e.session < |p.windows|
  {
    Steps(MinGap(p), p.windows[e.session].stop - e.due)
  }

  ghost function Budget(p: Plan, heap: seq<Event>): int
    requires Calm(p) && SessionsInRange(p, heap)
  {
    if heap == [] then 0 else Weight(p, heap[0]) + Budget(p, heap[1..])
  }

  lemma {:induction false} BudgetOfPush(p: Plan, heap: seq<Event>, e: Event)
    requires Calm(p) && SessionsInRange(p, heap) && e.session < |p.windows|
    ensures SessionsInRange(p, Push(heap, e)) && Budget(p, Push(heap, e)) == Budget(p, heap) + Weight(p, e)
  {
    if heap == [] || Before(e, heap[0]) {
      assert ([e] + heap)[1..] == heap;
    } else {
      BudgetOfPush(p, heap[1..], e);
      assert ([heap[0]] + Push(heap[1..], e))[1..] == Push(heap[1..], e);
    }
  }

  lemma {:induction false} BudgetIsPositive(p: Plan, heap: seq<Event>)
    requires Calm(p) && SessionsInRange(p, heap)
    requires forall i :: 0 <= i < |heap| ==> heap[i].due <= p.windows[heap[i].session].stop
    ensures |heap| <= Budget(p, heap)
  {
    if heap != [] {
      RoomForOne(MinGap(p), p.windows[heap[0].session].stop - heap[0].due);
      BudgetIsPositive(p, heap[1..]);
    }
  }

  /** Every pull that yields an event uses up budget. */
  lemma PullSpends(p: Plan, st: State)
    requires Calm(p) && SessionsInRange(p, st.heap) && st.heap != []
    requires st.heap[0].due <= p.windows[st.heap[0].session].stop
    ensures var next := Advance(p, st);
            SessionsInRange(p, next.heap) && Budget(p, next.heap) <= Budget(p, st.heap) - 1
  {
    var e, next := st.heap[0], Successor(p, st);
    var stop := p.windows[e.session].stop;
    SuccessorFollows(p, st);
    assert forall i :: 0 <= i < |st.heap[1..]| ==> st.heap[1..][i] == st.heap[i + 1];
    if next.due <= stop {
      OneStepLess(MinGap(p), stop - e.due, stop - next.due);
      BudgetOfPush(p, st.heap[1..], next);
    } else {
      RoomForOne(MinGap(p), stop - e.due);
    }
  }

  lemma HeapFits(p: Plan, n: nat)
    requires Calm(p)
    ensures forall i :: 0 <= i < |Pulled(p, n).heap| ==>
              Pulled(p, n).heap[i].due <= p.windows[Pulled(p, n).heap[i].session].stop
  {
    PulledIsSound(p, n);
    var st := Pulled(p, n);
    forall i | 0 <= i < |st.heap| ensures st.heap[i].due <= p.windows[st.heap[i].session].stop {
      assert st.heap[i] in st.heap;
    }
  }

  lemma {:induction false} BudgetAfter(p: Plan, n: nat)
    requires Calm(p)
    ensures Pulled(p, n).heap != [] ==> Budget(p, Pulled(p, n).heap) <= Budget(p, Pulled(p, 0).heap) - n
    ensures |Pulled(p, n).out| <= Budget(p, Pulled(p, 0).heap) - Budget(p, Pulled(p, n).heap)
  {
    if n == 0 {
      PrimedInRange(p, |p.windows|);
    } else {
      BudgetAfter(p, n - 1);
      var st := Pulled(p, n - 1);
      if st.heap != [] {
        HeapFits(p, n - 1);
        PullSpends(p, st);
      }
    }
  }

  /** Termination: with the jitter below the log interval, the schedule is exhausted after at most the
      initial budget of pulls - for each first event, one plus the number of shortest steps left in its
      window - and never yields more events than that. */
  lemma ScheduleEnds(p: Plan, n: nat)
    requires Calm(p)
    ensures |Pulled(p, n).out| <= Budget(p, Pulled(p, 0).heap)
    ensures n >= Budget(p, Pulled(p, 0).heap) ==> Pulled(p, n).heap == []
  {
    BudgetAfter(p, n);
    HeapFits(p, n);
    BudgetIsPositive(p, Pulled(p, n).heap);
  }

  // ---------------------------------------------------------------- and without the margin

  ghost predicate Ends(p: Plan) {
    exists n: nat :: Pulled(p, n).heap == []
  }

  /** The same run with another random source. */
  ghost function With(p: Plan, draws: nat -> real): Plan {
    p.(draws := draws)
  }

  ghost predicate HasLog(heap: seq<Event>, session: nat, stop: real) {
    exists e :: e in heap && e.session == session && e.kind == LogBurst && e.due <= stop
  }

  lemma {:induction false} LogIsPrimed(p: Plan, n: nat, session: nat)
    requires session < n <= |p.windows| && p.windows[session].start <= p.windows[session].stop
    requires p.logsEvery <= p.jitter && forall k :: p.draws(k) == -p.jitter
    ensures HasLog(Primed(p, n).heap, session, p.windows[session].stop)
  {
    var st := Primed(p, n - 1);
    PrimeOneElements(p, st, n - 1);
    if session == n - 1 {
      assert p.draws(st.used) == -p.jitter;
      assert FirstLog(p, session, st.used).due == p.windows[session].start;
      assert FirstLog(p, session, st.used) in Primed(p, n).heap;
    } else {
      LogIsPrimed(p, n - 1, session);
    }
  }

  lemma PrimeOneElements(p: Plan, st: State, k: nat)
    requires k < |p.windows|
    ensures forall e :: e in st.heap ==> e in PrimeOne(p, st, k).heap
    ensures FirstLog(p, k, st.used).due <= p.windows[k].stop ==> FirstLog(p, k, st.used) in PrimeOne(p, st, k).heap
  {
    var w := p.windows[k];
    var metrics := Event(w.start + p.metricsEvery, k, Metrics);
    OfferElements(st.heap, metrics, w.stop);
    OfferElements(Offer(st.heap, metrics, w.stop), FirstLog(p, k, st.used), w.stop);
  }

  lemma OfferElements(heap: seq<Event>, e: Event, stop: real)
    ensures forall x :: x in heap ==> x in Offer(heap, e, stop)
    ensures e.due <= stop ==> e in Offer(heap, e, stop)
  {
    PushElements(heap, e);
  }

  /** Jitter that can cancel the interval keeps a burst pending for ever. */
  lemma {:induction false} LogStaysPending(p: Plan, n: nat, session: nat)
    requires session < |p.windows| && p.windows[session].start <= p.windows[session].stop
    requires p.logsEvery <= p.jitter && forall k :: p.draws(k) == -p.jitter
    ensures HasLog(Pulled(p, n).heap, session, p.windows[session].stop)
  {
    if n == 0 {
      LogIsPrimed(p, |p.windows|, session);
    } else {
      LogStaysPending(p, n - 1, session);
      var st := Pulled(p, n - 1);
      var stop := p.windows[session].stop;
      var e :| e in st.heap && e.session == session && e.kind == LogBurst && e.due <= stop;
      var next := Successor(p, st);
      assert st.heap == [st.heap[0]] + st.heap[1..];
      PushElements(st.heap[1..], next);
      if e == st.heap[0] {
        assert p.draws(st.used) == -p.jitter;
        assert next in Pulled(p, n).heap;
      } else {
        assert e in Pulled(p, n).heap;
      }
    }
  }

  /** The exact condition for a schedule that always ends: the jitter is below the log interval, or no
      session has a window at all. The code checks neither. */
  lemma AlwaysEndsIff(p: Plan)
    requires p.Accepted()
    ensures (forall draws: nat -> real :: With(p, draws).InRange() ==> Ends(With(p, draws)))
            <==> p.jitter < p.logsEvery || forall i :: 0 <= i < |p.windows| ==> p.windows[i].start > p.windows[i].stop
  {
    if p.jitter < p.logsEvery {
      forall draws: nat -> real | With(p, draws).InRange() ensures Ends(With(p, draws)) {
        CalmEnds(With(p, draws));
      }
    } else if forall i :: 0 <= i < |p.windows| ==> p.windows[i].start > p.windows[i].stop {
      forall draws: nat -> real ensures Ends(With(p, draws)) {
        NothingPrimed(With(p, draws), |p.windows|);
        assert Pulled(With(p, draws), 0).heap == [];
      }
    } else {
      var session :| 0 <= session < |p.windows| && p.windows[session].start <= p.windows[session].stop;
      var least := (k: nat) => -p.jitter;
      var q := With(p, least);
      assert q.InRange();
      forall n: nat ensures Pulled(q, n).heap != [] {
        LogStaysPending(q, n, session);
      }
      assert !Ends(q);
    }
  }

  lemma CalmEnds(p: Plan)
    requires Calm(p)
    ensures Ends(p)
  {
    var n: nat := if Budget(p, Pulled(p, 0).heap) < 0 then 0 else Budget(p, Pulled(p, 0).heap);
    ScheduleEnds(p, n);
  }

  lemma {:induction false} NothingPrimed(p: Plan, n: nat)
    requires p.Accepted() && n <= |p.windows|
    requires forall i :: 0 <= i < |p.windows| ==> p.windows[i].start > p.windows[i].stop
    ensures Primed(p, n).heap == []
  {
    if n > 0 {
      NothingPrimed(p, n - 1);
    }
  }
}
