/** The lazy load schedule: a priority queue of each session's next metrics export and next log burst
    (scripts/perf_loadgen.py). */
module Schedule {
  import opened Common

  /** In the order of the code's kind strings: "log_burst" before "metrics". */
  datatype Kind = LogBurst | Metrics

  datatype Event = Event(due: real, session: nat, kind: Kind)

  datatype Window = Window(start: real, stop: real)

  /** Heap order: by due time, then session, then kind. */
  predicate Before(a: Event, b: Event) {
    || a.due < b.due
    || (a.due == b.due && (a.session < b.session || (a.session == b.session && a.kind.LogBurst? && b.kind.Metrics?)))
  }

  /** The parameters of a run; draws(k) is the k-th value of uniform(-jitter, jitter). */
  datatype Plan = Plan(windows: seq<Window>, metricsEvery: real, logsEvery: real, jitter: real, draws: nat -> real)
  {
    /** The checks the code makes before it schedules anything. */
    predicate Accepted() {
      metricsEvery > 0.0 && logsEvery > 0.0 && jitter >= 0.0
    }

    /** The random source keeps its range. */
    ghost predicate InRange() {
      forall k :: -jitter <= draws(k) <= jitter
    }
  }

  // ---------------------------------------------------------------- session windows

  /** Each session's active window, or none for bad arguments. */
  method SessionWindows(sessions: int, ramp: real, hold: real, rampDown: real) returns (r: Option<seq<Window>>)
    ensures r.None? <==> sessions < 1 || ramp < 0.0 || hold < 0.0 || rampDown < 0.0
    ensures r.Some? ==> |r.value| == sessions
    ensures r.Some? ==> forall i :: 0 <= i < sessions ==>
              && 0.0 <= r.value[i].start <= ramp && r.value[i].start + hold <= r.value[i].stop
              && ramp + hold <= r.value[i].stop <= ramp + hold + rampDown
    ensures r.Some? ==> forall i, k :: 0 <= i < k < sessions ==>
              r.value[i].start <= r.value[k].start && r.value[i].stop <= r.value[k].stop
    ensures r.Some? ==> r.value[0] == Window(0.0, ramp + hold)
    ensures r.Some? ==> forall i :: 0 < i < sessions ==>
              && r.value[i].start == r.value[i - 1].start + ramp / sessions as real
              && r.value[i].stop == r.value[i - 1].stop + rampDown / sessions as real
  {
    if sessions < 1 || ramp < 0.0 || hold < 0.0 || rampDown < 0.0 {
      return None;
    }
    var windows: seq<Window> := [];
    for i := 0 to sessions
      invariant |windows| == i
      invariant forall k :: 0 <= k < i ==>
                  windows[k] == Window(Scaled(ramp, k, sessions), ramp + hold + Scaled(rampDown, k, sessions))
    {
      windows := windows + [Window(Scaled(ramp, i, sessions), ramp + hold + Scaled(rampDown, i, sessions))];
    }
    forall i, k | 0 <= i <= k < sessions
      ensures 0.0 <= Scaled(ramp, i, sessions) <= Scaled(ramp, k, sessions) <= ramp
      ensures 0.0 <= Scaled(rampDown, i, sessions) <= Scaled(rampDown, k, sessions) <= rampDown
    {
      ScaledGrows(ramp, i, k, sessions);
      ScaledGrows(rampDown, i, k, sessions);
    }
    ScaledAtZero(ramp, sessions);
    ScaledAtZero(rampDown, sessions);
    forall i | 0 < i < sessions
      ensures Scaled(ramp, i, sessions) == Scaled(ramp, i - 1, sessions) + ramp / sessions as real
      ensures Scaled(rampDown, i, sessions) == Scaled(rampDown, i - 1, sessions) + rampDown / sessions as real
    {
      ScaledStep(ramp, i, sessions);
      ScaledStep(rampDown, i, sessions);
    }
    r := Some(windows);
  }

  /** width * (i / n). */
  function Scaled(width: real, i: int, n: int): real
    requires n > 0
  {
    width * (i as real / n as real)
  }

  lemma ScaledAtZero(width: real, n: int)
    requires n > 0
    ensures Scaled(width, 0, n) == 0.0
  {
    assert 0.0 / n as real == 0.0;
  }

  lemma ScaledStep(width: real, i: int, n: int)
    requires n > 0
    ensures Scaled(width, i, n) == Scaled(width, i - 1, n) + width / n as real
  {
    var d := n as real;
    assert i as real / d == (i - 1) as real / d + 1.0 / d;
    assert width * (1.0 / d) == width / d;
  }

  lemma ScaledGrows(width: real, i: int, k: int, n: int)
    requires 0 <= i <= k < n && width >= 0.0
    ensures 0.0 <= Scaled(width, i, n) <= Scaled(width, k, n) <= width
  {
    var x, y, d := i as real / n as real, k as real / n as real, n as real;
    assert x * d == i as real && y * d == k as real;
    assert 0.0 <= x <= y <= 1.0;
    assert width * x <= width * y <= width * 1.0;
  }

  // ---------------------------------------------------------------- the queue

  /** heappush on a queue kept in order. */
  function Push(heap: seq<Event>, e: Event): seq<Event> {
    if heap == [] || Before(e, heap[0]) then [e] + heap
    else [heap[0]] + Push(heap[1..], e)
  }

  /** The generator: pending entries, random values consumed, events yielded. */
  datatype State = State(heap: seq<Event>, used: nat, out: seq<Event>)

  function Offer(heap: seq<Event>, e: Event, stop: real): seq<Event> {
    if e.due <= stop then Push(heap, e) else heap
  }

  function Max(x: real, y: real): real {
    if x >= y then x else y
  }

  /** One session's first metrics export and first log burst. */
  function PrimeOne(p: Plan, st: State, k: nat): State
    requires k < |p.windows|
  {
    var w := p.windows[k];
    State(Offer(Offer(st.heap, Event(w.start + p.metricsEvery, k, Metrics), w.stop), FirstLog(p, k, st.used), w.stop),
          st.used + 1, st.out)
  }

  function FirstLog(p: Plan, k: nat, used: nat): Event
    requires k < |p.windows|
  {
    var start := p.windows[k].start;
    Event(Max(start, start + p.logsEvery + p.draws(used)), k, LogBurst)
  }

  /** The entries of the first n sessions. */
  function Primed(p: Plan, n: nat): State
    requires n <= |p.windows|
  {
    if n == 0 then State([], 0, []) else PrimeOne(p, Primed(p, n - 1), n - 1)
  }

  /** The due time of the occurrence after e. */
  function NextDue(p: Plan, e: Event, used: nat): real {
    e.due + if e.kind.Metrics? then p.metricsEvery else p.logsEvery + p.draws(used)
  }

  /** One next(): pop, yield, and push that stream's next occurrence if it still fits. */
  function Advance(p: Plan, st: State): State
    requires st.heap != [] && st.heap[0].session < |p.windows|
  {
    var e := st.heap[0];
    var next := Event(NextDue(p, e, st.used), e.session, e.kind);
    State(Offer(st.heap[1..], next, p.windows[e.session].stop),
          if e.kind.Metrics? then st.used else st.used + 1,
          st.out + [e])
  }

  ghost predicate SessionsInRange(p: Plan, heap: seq<Event>) {
    forall i :: 0 <= i < |heap| ==> heap[i].session < |p.windows|
  }

  lemma {:induction false} PushElements(heap: seq<Event>, e: Event)
    ensures multiset(Push(heap, e)) == multiset(heap) + multiset{e}
    ensures |Push(heap, e)| == |heap| + 1
    ensures forall x :: x in Push(heap, e) <==> x in heap || x == e
  {
    if !(heap == [] || Before(e, heap[0])) {
      PushElements(heap[1..], e);
      assert heap == [heap[0]] + heap[1..];
    }
    assert forall x :: x in Push(heap, e) <==> x in multiset(Push(heap, e));
    assert forall x :: x in heap <==> x in multiset(heap);
  }

  lemma OfferKeepsRange(p: Plan, heap: seq<Event>, e: Event, stop: real)
    requires SessionsInRange(p, heap) && e.session < |p.windows|
    ensures SessionsInRange(p, Offer(heap, e, stop))
  {
    PushElements(heap, e);
    forall i | 0 <= i < |Offer(heap, e, stop)| ensures Offer(heap, e, stop)[i].session < |p.windows| {
      assert Offer(heap, e, stop)[i] in Offer(heap, e, stop);
    }
  }

  lemma PrimeOneInRange(p: Plan, st: State, k: nat)
    requires k < |p.windows| && SessionsInRange(p, st.heap)
    ensures SessionsInRange(p, PrimeOne(p, st, k).heap)
  {
    var w := p.windows[k];
    var metrics := Event(w.start + p.metricsEvery, k, Metrics);
    OfferKeepsRange(p, st.heap, metrics, w.stop);
    OfferKeepsRange(p, Offer(st.heap, metrics, w.stop), FirstLog(p, k, st.used), w.stop);
  }

  lemma {:induction false} PrimedInRange(p: Plan, n: nat)
    requires n <= |p.windows|
    ensures SessionsInRange(p, Primed(p, n).heap) && Primed(p, n).out == []
  {
    if n > 0 {
      PrimedInRange(p, n - 1);
      PrimeOneInRange(p, Primed(p, n - 1), n - 1);
    }
  }

  /** The generator after n calls of next(), which do nothing once it is exhausted. */
  ghost function Pulled(p: Plan, n: nat): (st: State)
    ensures SessionsInRange(p, st.heap)
  {
    if n == 0 then PrimedInRange(p, |p.windows|); Primed(p, |p.windows|)
    else
      var st := Pulled(p, n - 1);
      if st.heap == [] then st
      else
        var e := st.heap[0];
        OfferKeepsRange(p, st.heap[1..], Event(NextDue(p, e, st.used), e.session, e.kind), p.windows[e.session].stop);
        Advance(p, st)
  }

  /** The loop that fills the queue before the first event is yielded. */
  method Prime(p: Plan) returns (heap: seq<Event>, used: nat)
    ensures State(heap, used, []) == Primed(p, |p.windows|)
  {
    heap, used := [], 0;
    for n := 0 to |p.windows|
      invariant State(heap, used, []) == Primed(p, n)
    {
      heap, used := PrimeSession(p, n, heap, used);
    }
  }

  /** One round of it. */
  method PrimeSession(p: Plan, n: nat, heap: seq<Event>, used: nat) returns (more: seq<Event>, drawn: nat)
    requires n < |p.windows|
    ensures State(more, drawn, []) == PrimeOne(p, State(heap, used, []), n)
  {
    more := heap;
    var w := p.windows[n];
    var firstMetrics := w.start + p.metricsEvery;
    if firstMetrics <= w.stop {
      more := Push(more, Event(firstMetrics, n, Metrics));
    }
    var firstLog := Max(w.start, w.start + p.logsEvery + p.draws(used));
    drawn := used + 1;
    if firstLog <= w.stop {
      more := Push(more, Event(firstLog, n, LogBurst));
    }
  }

  /** One pop, yield and push. */
  method PopAndPush(p: Plan, heap: seq<Event>, used: nat) returns (e: Event, rest: seq<Event>, drawn: nat)
    requires heap != [] && heap[0].session < |p.windows|
    ensures forall out :: State(rest, drawn, out + [e]) == Advance(p, State(heap, used, out))
  {
    e := heap[0];
    rest, drawn := heap[1..], used;
    var stop := p.windows[e.session].stop;
    var nextDue;
    if e.kind.Metrics? {
      nextDue := e.due + p.metricsEvery;
    } else {
      nextDue := e.due + (p.logsEvery + p.draws(used));
      drawn := used + 1;
    }
    if nextDue <= stop {
      rest := Push(rest, Event(nextDue, e.session, e.kind));
    }
  }

  /** The first `pulls` events of the generator, and whether it is exhausted; none for bad arguments. */
  method IterSchedule(p: Plan, pulls: nat) returns (r: Option<(seq<Event>, bool)>)
    ensures r.None? <==> !p.Accepted()
    ensures r.Some? ==> r.value == (Pulled(p, pulls).out, Pulled(p, pulls).heap == [])
  {
    if p.metricsEvery <= 0.0 || p.logsEvery <= 0.0 || p.jitter < 0.0 {
      return None;
    }
    var heap, used := Prime(p);
    var out: seq<Event> := [];
    for i := 0 to pulls
      invariant State(heap, used, out) == Pulled(p, i)
    {
      if heap != [] {
        var e, rest, drawn := PopAndPush(p, heap, used);
        assert State(rest, drawn, out + [e]) == Advance(p, Pulled(p, i));
        heap, used, out := rest, drawn, out + [e];
      }
    }
    r := Some((out, heap == []));
  }
}
