/** Which events the schedule yields, told without its queue (scripts/perf_loadgen.py): what each stream has
    coming follows from the events so far and from a draw of its own for every log burst, and the schedule
    is the one list that always takes the first of these. */
module ScheduleDraws {
  import opened Schedule
  import opened ScheduleLaws
  import opened ScheduleOrder

  /** How many of the events are log bursts. */
  function Bursts(out: seq<Event>): nat {
    if out == [] then 0
    else Bursts(out[..|out| - 1]) + if out[|out| - 1].kind.LogBurst? then 1 else 0
  }

  /** The draw taken when the log burst at i was yielded: the sessions' first bursts took one each, and every
      burst yielded before it one more. */
  function DrawAfter(p: Plan, out: seq<Event>, i: nat): nat
    requires i <= |out|
  {
    |p.windows| + Bursts(out[..i])
  }

  /** A stream's first event, were its window long enough. */
  function First(p: Plan, session: nat, kind: Kind): Event
    requires session < |p.windows|
  {
    var start := p.windows[session].start;
    match kind
    case Metrics => Event(start + p.metricsEvery, session, Metrics)
    case LogBurst => Event(Max(start, start + p.logsEvery + p.draws(session)), session, LogBurst)
  }

  /** A stream's next event, were its window long enough: one step after its latest in `out`. */
  function Coming(p: Plan, out: seq<Event>, session: nat, kind: Kind): (e: Event)
    requires session < |p.windows|
    ensures e.session == session && e.kind == kind
  {
    if out == [] then First(p, session, kind)
    else
      var n := |out| - 1;
      if out[n].session != session || out[n].kind != kind then Coming(p, out[..n], session, kind)
      else if kind.Metrics? then Event(out[n].due + p.metricsEvery, session, kind)
      else Event(out[n].due + p.logsEvery + p.draws(DrawAfter(p, out, n)), session, kind)
  }

  /** It fits in the window. */
  ghost predicate Fits(p: Plan, e: Event) {
    e.session < |p.windows| && e.due <= p.windows[e.session].stop
  }

  /** e comes next after `out`: it is what its stream has coming, and no stream has anything before it. */
  ghost predicate NextUp(p: Plan, out: seq<Event>, e: Event) {
    && Fits(p, e) && e == Coming(p, out, e.session, e.kind)
    && forall session: nat, kind :: session < |p.windows| && Fits(p, Coming(p, out, session, kind)) ==>
         !Before(Coming(p, out, session, kind), e)
  }

  ghost predicate Exhausted(p: Plan, out: seq<Event>) {
    forall session: nat, kind :: session < |p.windows| ==> !Fits(p, Coming(p, out, session, kind))
  }

  ghost predicate AlwaysNextUp(p: Plan, out: seq<Event>) {
    forall i :: 0 <= i < |out| ==> NextUp(p, out[..i], out[i])
  }

  // ---------------------------------------------------------------- the queue holds what is coming

  ghost predicate Once(heap: seq<Event>) {
    forall x :: multiset(heap)[x] <= 1
  }

  /** The queue holds exactly what the first n sessions have coming and fits, each entry once. */
  ghost predicate Awaits(p: Plan, heap: seq<Event>, out: seq<Event>, n: nat)
    requires n <= |p.windows|
  {
    && Once(heap)
    && forall e :: e in heap <==> e.session < n && Fits(p, e) && e == Coming(p, out, e.session, e.kind)
  }

  lemma OfferOnce(heap: seq<Event>, e: Event, stop: real)
    requires Once(heap) && e !in heap
    ensures Once(Offer(heap, e, stop))
    ensures forall x :: x in Offer(heap, e, stop) <==> x in heap || (x == e && e.due <= stop)
  {
    PushElements(heap, e);
  }

  lemma PrimeOneAwaits(p: Plan, st: State, k: nat)
    requires k < |p.windows| && Awaits(p, st.heap, [], k) && st.used == k
    ensures Awaits(p, PrimeOne(p, st, k).heap, [], k + 1)
  {
    var w := p.windows[k];
    var metrics, log := Event(w.start + p.metricsEvery, k, Metrics), FirstLog(p, k, st.used);
    OfferOnce(st.heap, metrics, w.stop);
    OfferOnce(Offer(st.heap, metrics, w.stop), log, w.stop);
    forall e: Event | e.session == k
      ensures e == Coming(p, [], e.session, e.kind) <==> e == metrics || e == log
    {
    }
  }

  lemma {:induction false} PrimedAwaits(p: Plan, n: nat)
    requires n <= |p.windows|
    ensures Awaits(p, Primed(p, n).heap, [], n) && Primed(p, n).used == n && Primed(p, n).out == []
  {
    if n > 0 {
      PrimedAwaits(p, n - 1);
      PrimeOneAwaits(p, Primed(p, n - 1), n - 1);
    }
  }

  lemma ComingSnoc(p: Plan, out: seq<Event>, e: Event, session: nat, kind: Kind)
    requires session < |p.windows|
    ensures Coming(p, out + [e], session, kind) ==
            if e.session != session || e.kind != kind then Coming(p, out, session, kind)
            else Event(NextDue(p, e, DrawAfter(p, out, |out|)), session, kind)
  {
    assert (out + [e])[..|out|] == out == out[..|out|];
  }

  lemma AdvanceAwaits(p: Plan, st: State)
    requires st.heap != [] && Awaits(p, st.heap, st.out, |p.windows|) && st.used == DrawAfter(p, st.out, |st.out|)
    ensures st.heap[0].session < |p.windows|
    ensures Awaits(p, Advance(p, st).heap, Advance(p, st).out, |p.windows|)
    ensures Advance(p, st).used == DrawAfter(p, Advance(p, st).out, |st.out| + 1)
  {
    var head, tail := st.heap[0], st.heap[1..];
    assert st.heap == [head] + tail;
    assert head in st.heap;
    assert multiset(st.heap)[head] == 1 + multiset(tail)[head];
    var next := Event(NextDue(p, head, st.used), head.session, head.kind);
    forall x | x in tail ensures !SameStream(x, head) {
      assert x in st.heap;
    }
    assert Once(tail) by {
      forall x ensures multiset(tail)[x] <= 1 {
        assert multiset(st.heap)[x] <= 1;
      }
    }
    OfferOnce(tail, next, p.windows[head.session].stop);
    forall e: Event | e.session < |p.windows|
      ensures Coming(p, st.out + [head], e.session, e.kind) ==
              if SameStream(e, head) then next else Coming(p, st.out, e.session, e.kind)
    {
      ComingSnoc(p, st.out, head, e.session, e.kind);
    }
    assert (st.out + [head])[..|st.out|] == st.out == st.out[..|st.out|];
    assert (st.out + [head])[..|st.out| + 1] == st.out + [head];
  }

  /** One more pull, from any state. */
  ghost predicate PulledOnce(p: Plan, st: State, next: State) {
    if st.heap == [] then next == st
    else st.heap[0].session < |p.windows| && next == Advance(p, st)
  }

  lemma OnePull(p: Plan, n: nat)
    ensures PulledOnce(p, Pulled(p, n), Pulled(p, n + 1))
  {
  }

  /** The queue is as the events yielded tell, and as many draws are taken as they tell. */
  ghost predicate Told(p: Plan, st: State) {
    Awaits(p, st.heap, st.out, |p.windows|) && st.used == DrawAfter(p, st.out, |st.out|)
  }

  lemma NextIsTold(p: Plan, st: State, next: State)
    requires Told(p, st) && PulledOnce(p, st, next)
    ensures Told(p, next)
  {
    if st.heap != [] {
      AdvanceAwaits(p, st);
    }
  }

  lemma {:induction false} PulledIsTold(p: Plan, n: nat)
    ensures Told(p, Pulled(p, n))
  {
    if n == 0 {
      PrimedAwaits(p, |p.windows|);
    } else {
      PulledIsTold(p, n - 1);
      OnePull(p, n - 1);
      NextIsTold(p, Pulled(p, n - 1), Pulled(p, n));
    }
  }

  // ---------------------------------------------------------------- the schedule, told by its events alone

  lemma HeadIsNextUp(p: Plan, heap: seq<Event>, out: seq<Event>)
    requires heap != [] && Awaits(p, heap, out, |p.windows|) && InQueueOrder(heap)
    ensures NextUp(p, out, heap[0])
  {
    assert heap[0] in heap;
    forall session: nat, kind | session < |p.windows| && Fits(p, Coming(p, out, session, kind))
      ensures !Before(Coming(p, out, session, kind), heap[0])
    {
      var c := Coming(p, out, session, kind);
      assert c in heap;
      var k :| 0 <= k < |heap| && heap[k] == c;
    }
  }

  /** What is said of the generator: its events alone tell what comes next, and when it is exhausted. */
  ghost predicate Determined(p: Plan, st: State, n: nat) {
    && AlwaysNextUp(p, st.out)
    && (st.heap == [] <==> Exhausted(p, st.out))
    && (st.heap != [] ==> |st.out| == n)
  }

  lemma NextIsDetermined(p: Plan, st: State, next: State, n: nat)
    requires Told(p, st) && InQueueOrder(st.heap) && Determined(p, st, n) && PulledOnce(p, st, next)
    ensures Determined(p, next, n + 1)
  {
    if st.heap != [] {
      HeadIsNextUp(p, st.heap, st.out);
      NextUpSnoc(p, st.out, st.heap[0]);
      AdvanceAwaits(p, st);
      EmptyIsExhausted(p, next.heap, next.out);
    }
  }

  lemma NextPull(p: Plan, n: nat)
    requires Determined(p, Pulled(p, n), n)
    ensures Determined(p, Pulled(p, n + 1), n + 1)
  {
    PulledIsTold(p, n);
    PopsTheLeast(p, n);
    OnePull(p, n);
    NextIsDetermined(p, Pulled(p, n), Pulled(p, n + 1), n);
  }

  lemma NoPull(p: Plan)
    ensures Determined(p, Pulled(p, 0), 0)
  {
    PrimedAwaits(p, |p.windows|);
    EmptyIsExhausted(p, Pulled(p, 0).heap, []);
  }

  /** Whatever the random source does, and with or without order: every event yielded is the one that comes
      next after those before it, and the schedule is exhausted exactly when no stream has anything
      coming that fits. */
  lemma {:induction false} ScheduleIsDetermined(p: Plan, n: nat)
    ensures Determined(p, Pulled(p, n), n)
  {
    if n == 0 {
      NoPull(p);
    } else {
      ScheduleIsDetermined(p, n - 1);
      NextPull(p, n - 1);
    }
  }

  lemma EmptyIsExhausted(p: Plan, heap: seq<Event>, out: seq<Event>)
    requires Awaits(p, heap, out, |p.windows|)
    ensures heap == [] <==> Exhausted(p, out)
  {
    if heap == [] {
      forall session: nat, kind | session < |p.windows| ensures !Fits(p, Coming(p, out, session, kind)) {
        assert Coming(p, out, session, kind) !in heap;
      }
    } else {
      assert heap[0] in heap;
      assert Fits(p, Coming(p, out, heap[0].session, heap[0].kind));
    }
  }

  lemma NextUpSnoc(p: Plan, out: seq<Event>, e: Event)
    requires AlwaysNextUp(p, out) && NextUp(p, out, e)
    ensures AlwaysNextUp(p, out + [e])
  {
    var more := out + [e];
    forall i | 0 <= i < |more| ensures NextUp(p, more[..i], more[i]) {
      assert more[..i] == out[..i];
      assert out[..|out|] == out;
    }
  }

  /** There is only one such list of each length. */
  lemma {:induction false} OnlyOneSchedule(p: Plan, a: seq<Event>, b: seq<Event>)
    requires AlwaysNextUp(p, a) && AlwaysNextUp(p, b) && |a| == |b|
    ensures a == b
  {
    if a != [] {
      var n := |a| - 1;
      PrefixIsNextUp(p, a, n);
      PrefixIsNextUp(p, b, n);
      OnlyOneSchedule(p, a[..n], b[..n]);
      assert NextUp(p, a[..n], a[n]) && NextUp(p, b[..n], b[n]);
      assert a == a[..n] + [a[n]] && b == b[..n] + [b[n]];
    }
  }

  lemma PrefixIsNextUp(p: Plan, out: seq<Event>, n: nat)
    requires AlwaysNextUp(p, out) && n <= |out|
    ensures AlwaysNextUp(p, out[..n])
  {
    forall i | 0 <= i < n ensures NextUp(p, out[..n][..i], out[..n][i]) {
      assert out[..n][..i] == out[..i];
    }
  }

  // ---------------------------------------------------------------- a draw for every burst

  /** The stream has no event in out[from..to]. */
  ghost predicate Quiet(out: seq<Event>, from: nat, to: nat, e: Event) {
    forall j :: from <= j < to <= |out| ==> !SameStream(out[j], e)
  }

  lemma {:induction false} ComingStays(p: Plan, out: seq<Event>, from: nat, to: nat, e: Event)
    requires from <= to <= |out| && e.session < |p.windows| && Quiet(out, from, to, e)
    ensures Coming(p, out[..to], e.session, e.kind) == Coming(p, out[..from], e.session, e.kind)
  {
    if from < to {
      ComingStays(p, out, from, to - 1, e);
      assert out[..to] == out[..to - 1] + [out[to - 1]];
      ComingSnoc(p, out[..to - 1], out[to - 1], e.session, e.kind);
    }
  }

  lemma FirstBurst(p: Plan, out: seq<Event>, k: nat)
    requires AlwaysNextUp(p, out) && k < |out| && out[k].kind.LogBurst? && Quiet(out, 0, k, out[k])
    ensures var e := out[k];
            && e.session < |p.windows|
            && e.due == Max(p.windows[e.session].start, p.windows[e.session].start + p.logsEvery + p.draws(e.session))
  {
    assert NextUp(p, out[..k], out[k]);
    ComingStays(p, out, 0, k, out[k]);
    assert out[..0] == [];
  }

  lemma NextBurst(p: Plan, out: seq<Event>, i: nat, k: nat)
    requires i < k < |out| && out[i].kind.LogBurst? && out[k].session < |p.windows|
    requires SameStream(out[i], out[k]) && Quiet(out, i + 1, k, out[k])
    ensures Coming(p, out[..k], out[k].session, out[k].kind).due ==
            out[i].due + p.logsEvery + p.draws(|p.windows| + Bursts(out[..i]))
  {
    var before, e := out[..i], out[k];
    ComingStays(p, out, i + 1, k, e);
    assert out[..i + 1] == before + [out[i]];
    ComingSnoc(p, before, out[i], e.session, e.kind);
    assert before[..|before|] == before;
  }

  /** A session's first log burst takes the session's own draw, and is not before the session's start. */
  lemma FirstBurstIsDrawn(p: Plan, n: nat, out: seq<Event>, k: nat)
    requires out == Pulled(p, n).out && k < |out| && out[k].kind.LogBurst? && Quiet(out, 0, k, out[k])
    ensures var e := out[k];
            && e.session < |p.windows|
            && e.due == Max(p.windows[e.session].start, p.windows[e.session].start + p.logsEvery + p.draws(e.session))
  {
    ScheduleIsDetermined(p, n);
    FirstBurst(p, out, k);
  }

  /** The log burst after the one at i in its session is due one interval later plus the jitter drawn when
      the one at i was yielded. */
  lemma EveryBurstIsDrawn(p: Plan, n: nat, out: seq<Event>, i: nat, k: nat)
    requires out == Pulled(p, n).out && i < k < |out| && out[i].kind.LogBurst?
    requires SameStream(out[i], out[k]) && Quiet(out, i + 1, k, out[k])
    ensures out[k].due == out[i].due + p.logsEvery + p.draws(|p.windows| + Bursts(out[..i]))
  {
    ScheduleIsDetermined(p, n);
    assert NextUp(p, out[..k], out[k]);
    NextBurst(p, out, i, k);
  }

  /** No draw is taken twice: those of later bursts come after those of earlier ones, and all of them after
      the ones taken for the sessions' first bursts. */
  lemma {:induction false} DrawsAreFresh(p: Plan, out: seq<Event>, i: nat, k: nat)
    requires i < k <= |out| && out[i].kind.LogBurst?
    ensures |p.windows| <= DrawAfter(p, out, i) < DrawAfter(p, out, k)
  {
    assert out[..k][..k - 1] == out[..k - 1];
    if i < k - 1 {
      DrawsAreFresh(p, out, i, k - 1);
    }
  }
}
