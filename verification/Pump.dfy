/** The real-time pump: a semaphore-bounded dispatcher of scheduled events, as a step machine over
    every interleaving of the main loop and the workers (scripts/perf_loadgen.py). */
module Pump {
  import opened Common
  import opened Sums
  import opened LoadStats
  import opened Schedule

  /** What dispatching an event comes to: an answer, or an exception. */
  datatype Reply =
    | Answered(latency: real, status: int, records: int, error: Option<string>)
    | Raised(message: string)

  /** A submitted event; its permit is held until after its outcome is recorded. */
  datatype Task = Task(event: Event, recorded: bool)

  /** `done` lists the events whose outcomes are in `log`, in the order they were recorded. */
  datatype Runner = Runner(permits: nat, rest: seq<Event>, inFlight: seq<Task>, done: seq<Event>, log: seq<Observation>)

  datatype Move =
    | Submit                                            // acquire a permit, submit the next event
    | Record(task: nat, reply: Reply, elapsed: real)    // a worker finishes dispatch and records
    | Release(task: nat)                                // the worker gives its permit back

  function KindName(k: Kind): string {
    match k
    case LogBurst => "log_burst"
    case Metrics => "metrics"
  }

  /** A raised dispatch is recorded too, as a failed request without latency or records. */
  function OutcomeOf(e: Event, reply: Reply): Outcome {
    match reply
    case Answered(latency, status, records, error) =>
      Outcome(e.session, KindName(e.kind), latency, status, records, error)
    case Raised(message) => Outcome(e.session, KindName(e.kind), 0.0, 0, 0, Some("internal-error: " + message))
  }

  /** At least one permit is required. */
  function Begin(maxInFlight: int, schedule: seq<Event>): Option<Runner> {
    if maxInFlight < 1 then None else Some(Runner(maxInFlight, schedule, [], [], []))
  }

  predicate Enabled(r: Runner, m: Move) {
    match m
    case Submit => r.rest != [] && r.permits > 0
    case Record(t, _, _) => t < |r.inFlight| && !r.inFlight[t].recorded
    case Release(t) => t < |r.inFlight| && r.inFlight[t].recorded
  }

  function Step(r: Runner, m: Move): Runner
    requires Enabled(r, m)
  {
    match m
    case Submit =>
      r.(permits := r.permits - 1, rest := r.rest[1..], inFlight := r.inFlight + [Task(r.rest[0], false)])
    case Record(t, reply, elapsed) =>
      var e := r.inFlight[t].event;
      r.(inFlight := r.inFlight[t := Task(e, true)], done := r.done + [e],
         log := r.log + [Observation(OutcomeOf(e, reply), elapsed)])
    case Release(t) =>
      r.(permits := r.permits + 1, inFlight := r.inFlight[..t] + r.inFlight[t + 1..])
  }

  /** The runner after the moves, or none if a move was not possible when it was made. */
  function Run(r: Runner, moves: seq<Move>): Option<Runner> {
    if moves == [] then Some(r)
    else
      match Run(r, moves[..|moves| - 1])
      case None => None
      case Some(s) => if Enabled(s, moves[|moves| - 1]) then Some(Step(s, moves[|moves| - 1])) else None
  }

  /** shutdown(wait=True) has returned. */
  predicate Finished(r: Runner) {
    r.rest == [] && r.inFlight == []
  }

  // ---------------------------------------------------------------- what every step keeps

  /** The events in flight whose outcome is not recorded yet. */
  function Waiting(tasks: seq<Task>): seq<Event> {
    if tasks == [] then []
    else Waiting(tasks[..|tasks| - 1]) + if tasks[|tasks| - 1].recorded then [] else [tasks[|tasks| - 1].event]
  }

  ghost predicate Told(done: seq<Event>, log: seq<Observation>) {
    && |done| == |log|
    && forall k :: 0 <= k < |log| ==>
         log[k].outcome.session == done[k].session && log[k].outcome.kind == KindName(done[k].kind)
  }

  /** The rest is what comes last, so what is gone was taken from the front, in order. */
  ghost predicate EndsIn(schedule: seq<Event>, rest: seq<Event>) {
    |rest| <= |schedule| && rest == schedule[|schedule| - |rest|..]
  }

  ghost predicate Balanced(r: Runner, maxInFlight: nat, schedule: seq<Event>) {
    && r.permits + |r.inFlight| == maxInFlight
    && multiset(r.rest) + multiset(Waiting(r.inFlight)) + multiset(r.done) == multiset(schedule)
    && EndsIn(schedule, r.rest) && Told(r.done, r.log)
  }

  lemma {:induction false} WaitingAppend(a: seq<Task>, b: seq<Task>)
    ensures Waiting(a + b) == Waiting(a) + Waiting(b)
  {
    if b == [] {
      assert a + b == a;
    } else {
      assert (a + b)[..|a + b| - 1] == a + b[..|b| - 1];
      WaitingAppend(a, b[..|b| - 1]);
    }
  }

  lemma WaitingOne(task: Task)
    ensures Waiting([task]) == if task.recorded then [] else [task.event]
  {
    assert [task][..0] == [];
  }

  lemma WaitingAround(tasks: seq<Task>, t: nat, task: Task)
    requires t < |tasks|
    ensures Waiting(tasks[t := task]) == Waiting(tasks[..t]) + Waiting([task]) + Waiting(tasks[t + 1..])
  {
    assert tasks[t := task] == tasks[..t] + [task] + tasks[t + 1..];
    WaitingAppend(tasks[..t] + [task], tasks[t + 1..]);
    WaitingAppend(tasks[..t], [task]);
  }

  /** Recording a task takes its event out of those waiting. */
  lemma RecordTakesOne(tasks: seq<Task>, t: nat)
    requires t < |tasks| && !tasks[t].recorded
    ensures multiset(Waiting(tasks)) ==
            multiset(Waiting(tasks[t := Task(tasks[t].event, true)])) + multiset{tasks[t].event}
    ensures |Waiting(tasks)| == |Waiting(tasks[t := Task(tasks[t].event, true)])| + 1
  {
    var x, y := Waiting(tasks[..t]), Waiting(tasks[t + 1..]);
    WaitingAround(tasks, t, tasks[t]);
    WaitingOne(tasks[t]);
    assert tasks[t := tasks[t]] == tasks;
    WaitingAround(tasks, t, Task(tasks[t].event, true));
    WaitingOne(Task(tasks[t].event, true));
    OneInTheMiddle(x, tasks[t].event, y);
  }

  lemma OneInTheMiddle(x: seq<Event>, e: Event, y: seq<Event>)
    ensures multiset(x + [e] + y) == multiset(x + [] + y) + multiset{e}
  {
    assert x + [] + y == x + y;
  }

  lemma ReleaseTakesNone(tasks: seq<Task>, t: nat)
    requires t < |tasks| && tasks[t].recorded
    ensures Waiting(tasks[..t] + tasks[t + 1..]) == Waiting(tasks)
  {
    WaitingAround(tasks, t, tasks[t]);
    WaitingOne(tasks[t]);
    assert tasks[t := tasks[t]] == tasks;
    WaitingAppend(tasks[..t], tasks[t + 1..]);
    assert Waiting(tasks[..t]) + [] == Waiting(tasks[..t]);
  }

  /** Submitting moves the first event from the schedule to those waiting. */
  lemma SubmitAddsOne(tasks: seq<Task>, e: Event)
    ensures Waiting(tasks + [Task(e, false)]) == Waiting(tasks) + [e]
  {
    assert (tasks + [Task(e, false)])[..|tasks|] == tasks;
  }

  lemma SubmitKeepsBalance(r: Runner, maxInFlight: nat, schedule: seq<Event>)
    requires Enabled(r, Submit) && Balanced(r, maxInFlight, schedule)
    ensures Balanced(Step(r, Submit), maxInFlight, schedule)
  {
    SubmitAddsOne(r.inFlight, r.rest[0]);
    assert r.rest == [r.rest[0]] + r.rest[1..];
    assert multiset(r.rest) == multiset{r.rest[0]} + multiset(r.rest[1..]);
  }

  lemma RecordKeepsBalance(r: Runner, t: nat, reply: Reply, elapsed: real, maxInFlight: nat, schedule: seq<Event>)
    requires Enabled(r, Record(t, reply, elapsed)) && Balanced(r, maxInFlight, schedule)
    ensures Balanced(Step(r, Record(t, reply, elapsed)), maxInFlight, schedule)
  {
    var e := r.inFlight[t].event;
    RecordTakesOne(r.inFlight, t);
    ToldSnoc(r.done, r.log, e, reply, elapsed);
  }

  lemma ToldSnoc(done: seq<Event>, log: seq<Observation>, e: Event, reply: Reply, elapsed: real)
    requires Told(done, log)
    ensures Told(done + [e], log + [Observation(OutcomeOf(e, reply), elapsed)])
    ensures multiset(done + [e]) == multiset(done) + multiset{e}
  {
  }

  lemma StepKeepsBalance(r: Runner, m: Move, maxInFlight: nat, schedule: seq<Event>)
    requires Enabled(r, m) && Balanced(r, maxInFlight, schedule)
    ensures Balanced(Step(r, m), maxInFlight, schedule)
  {
    match m {
      case Submit => SubmitKeepsBalance(r, maxInFlight, schedule);
      case Record(t, reply, elapsed) => RecordKeepsBalance(r, t, reply, elapsed, maxInFlight, schedule);
      case Release(t) => ReleaseTakesNone(r.inFlight, t);
    }
  }

  lemma {:induction false} RunKeepsBalance(r: Runner, moves: seq<Move>, maxInFlight: nat, schedule: seq<Event>)
    requires Balanced(r, maxInFlight, schedule)
    ensures Run(r, moves).Some? ==> Balanced(Run(r, moves).value, maxInFlight, schedule)
  {
    if moves != [] {
      var before := moves[..|moves| - 1];
      RunKeepsBalance(r, before, maxInFlight, schedule);
      if Run(r, before).Some? && Enabled(Run(r, before).value, moves[|moves| - 1]) {
        StepKeepsBalance(Run(r, before).value, moves[|moves| - 1], maxInFlight, schedule);
      }
    }
  }

  /** Backpressure: after any interleaving, free permits and events in flight add up to the limit, so no
      more than that many requests are ever in flight; every scheduled event is in exactly one place, not
      yet submitted, in flight and unrecorded, or recorded once; and they are submitted in schedule order. */
  lemma PermitsAndEventsAreConserved(maxInFlight: int, schedule: seq<Event>, moves: seq<Move>)
    requires maxInFlight >= 1 && Run(Begin(maxInFlight, schedule).value, moves).Some?
    ensures var r := Run(Begin(maxInFlight, schedule).value, moves).value;
            && r.permits + |r.inFlight| == maxInFlight
            && multiset(r.rest) + multiset(Waiting(r.inFlight)) + multiset(r.done) == multiset(schedule)
            && EndsIn(schedule, r.rest)
  {
    RunKeepsBalance(Begin(maxInFlight, schedule).value, moves, maxInFlight, schedule);
  }

  function KindNames(schedule: seq<Event>): seq<string> {
    seq(|schedule|, i requires 0 <= i < |schedule| => KindName(schedule[i].kind))
  }

  lemma {:induction false} KindsOfPermutation(a: seq<Event>, b: seq<Event>)
    requires multiset(a) == multiset(b)
    ensures multiset(KindNames(a)) == multiset(KindNames(b))
  {
    if a == [] {
      assert |multiset(b)| == 0;
    } else {
      var n := |a| - 1;
      var i := FindLast(a, b);
      KindsOfPermutation(a[..n], b[..i] + b[i + 1..]);
      KindNamesAround(b, i);
      KindNamesAround(a, n);
      assert a[..n] + a[n + 1..] == a[..n];
    }
  }

  lemma KindNamesAround(s: seq<Event>, i: nat)
    requires i < |s|
    ensures multiset(KindNames(s)) == multiset(KindNames(s[..i] + s[i + 1..])) + multiset{KindName(s[i].kind)}
  {
    var names := KindNames(s);
    TakeOut(names, i);
    assert names[..i] + names[i + 1..] == KindNames(s[..i] + s[i + 1..]);
  }

  // ---------------------------------------------------------------- what is recorded

  /** The workers' results, in the order in which they were recorded. */
  function Replies(moves: seq<Move>): seq<Reply> {
    if moves == [] then []
    else
      var last := moves[|moves| - 1];
      Replies(moves[..|moves| - 1]) + if last.Record? then [last.reply] else []
  }

  /** When they were recorded. */
  function Times(moves: seq<Move>): seq<real> {
    if moves == [] then []
    else
      var last := moves[|moves| - 1];
      Times(moves[..|moves| - 1]) + if last.Record? then [last.elapsed] else []
  }

  predicate Failed(reply: Reply) {
    reply.Raised? || reply.error.Some?
  }

  function FailureFlags(replies: seq<Reply>): seq<int> {
    seq(|replies|, i requires 0 <= i < |replies| => if Failed(replies[i]) then 1 else 0)
  }

  function RecordsSent(replies: seq<Reply>): seq<int> {
    seq(|replies|, i requires 0 <= i < |replies| => if replies[i].Raised? then 0 else replies[i].records)
  }

  function StatusesSeen(replies: seq<Reply>): seq<int> {
    seq(|replies|, i requires 0 <= i < |replies| => if replies[i].Raised? then 0 else replies[i].status)
  }

  function LatenciesSeen(replies: seq<Reply>): seq<real> {
    seq(|replies|, i requires 0 <= i < |replies| => if replies[i].Raised? then 0.0 else replies[i].latency)
  }

  /** An outcome tells what the dispatch came to; a raised one counts as an error of status 0 with no records
      and no latency. */
  ghost predicate Tells(o: Outcome, reply: Reply) {
    && (reply.Answered? ==>
        o.latency == reply.latency && o.status == reply.status && o.records == reply.records && o.error == reply.error)
    && (reply.Raised? ==>
        o.latency == 0.0 && o.status == 0 && o.records == 0 && o.error == Some("internal-error: " + reply.message))
  }

  ghost predicate TellsAll(log: seq<Observation>, replies: seq<Reply>, times: seq<real>) {
    && |log| == |replies| == |times|
    && forall k :: 0 <= k < |log| ==> Tells(log[k].outcome, replies[k]) && log[k].elapsed == times[k]
  }

  lemma {:induction false} RunTellsAll(r: Runner, moves: seq<Move>)
    requires r.log == []
    ensures Run(r, moves).Some? ==> TellsAll(Run(r, moves).value.log, Replies(moves), Times(moves))
  {
    if moves != [] {
      RunTellsAll(r, moves[..|moves| - 1]);
    }
  }

  lemma ToldColumns(log: seq<Observation>, replies: seq<Reply>, times: seq<real>)
    requires TellsAll(log, replies, times)
    ensures Latencies(log) == LatenciesSeen(replies) && Statuses(log) == StatusesSeen(replies)
    ensures Records(log) == RecordsSent(replies) && ErrorFlags(log) == FailureFlags(replies)
  {
    forall k | 0 <= k < |log|
      ensures Latencies(log)[k] == LatenciesSeen(replies)[k] && Statuses(log)[k] == StatusesSeen(replies)[k]
      ensures Records(log)[k] == RecordsSent(replies)[k] && ErrorFlags(log)[k] == FailureFlags(replies)[k]
    {
      assert Tells(log[k].outcome, replies[k]);
    }
  }

  /** At every moment of every interleaving the report is that of the workers' results so far: as many errors
      as dispatches that raised or came back with one, the records and statuses of the answers, and their
      latencies in the order in which they were recorded. */
  lemma AnswersAreReported(maxInFlight: int, schedule: seq<Event>, moves: seq<Move>)
    requires maxInFlight >= 1 && Run(Begin(maxInFlight, schedule).value, moves).Some?
    ensures var r, replies := Run(Begin(maxInFlight, schedule).value, moves).value, Replies(moves);
            && TellsAll(r.log, replies, Times(moves))
            && TotalsOf(r.log).requests == |replies|
            && TotalsOf(r.log).errors == SumInts(FailureFlags(replies))
            && TotalsOf(r.log).records == SumInts(RecordsSent(replies))
            && TotalsOf(r.log).statusCounts == Tally(StatusesSeen(replies))
            && Latencies(r.log) == LatenciesSeen(replies)
  {
    RunTellsAll(Begin(maxInFlight, schedule).value, moves);
    ToldColumns(Run(Begin(maxInFlight, schedule).value, moves).value.log, Replies(moves), Times(moves));
  }

  lemma KindsOfLog(done: seq<Event>, log: seq<Observation>)
    requires Told(done, log)
    ensures Kinds(log) == KindNames(done)
  {
  }

  lemma AllIsDone(r: Runner, maxInFlight: nat, schedule: seq<Event>)
    requires Balanced(r, maxInFlight, schedule) && Finished(r)
    ensures multiset(r.done) == multiset(schedule) && |r.log| == |schedule|
    ensures Tally(Kinds(r.log)) == Tally(KindNames(schedule))
  {
    assert |r.done| == |multiset(r.done)| && |schedule| == |multiset(schedule)|;
    KindsOfLog(r.done, r.log);
    KindsOfPermutation(r.done, schedule);
    TallyOfPermutation(KindNames(r.done), KindNames(schedule));
  }

  /** At shutdown every scheduled event, including those whose dispatch raised, has been recorded exactly
      once, whatever the interleaving: the reported number of requests is the length of the schedule, the
      reported kind counts are those of the schedule, and the errors those of one dispatch per event. */
  lemma EveryEventIsRecordedOnce(maxInFlight: int, schedule: seq<Event>, moves: seq<Move>)
    requires maxInFlight >= 1 && Run(Begin(maxInFlight, schedule).value, moves).Some?
    requires Finished(Run(Begin(maxInFlight, schedule).value, moves).value)
    ensures var r := Run(Begin(maxInFlight, schedule).value, moves).value;
            && multiset(r.done) == multiset(schedule)
            && TotalsOf(r.log).requests == |schedule|
            && TotalsOf(r.log).byKind == Tally(KindNames(schedule))
            && |Replies(moves)| == |schedule| && TotalsOf(r.log).errors == SumInts(FailureFlags(Replies(moves)))
  {
    var begin := Begin(maxInFlight, schedule).value;
    RunKeepsBalance(begin, moves, maxInFlight, schedule);
    AnswersAreReported(maxInFlight, schedule, moves);
    AllIsDone(Run(begin, moves).value, maxInFlight, schedule);
  }

  // ---------------------------------------------------------------- progress

  /** The moves still to be made. */
  function Left(r: Runner): nat {
    3 * |r.rest| + |Waiting(r.inFlight)| + |r.inFlight|
  }

  lemma StepIsProgress(r: Runner, m: Move)
    requires Enabled(r, m)
    ensures Left(Step(r, m)) == Left(r) - 1
  {
    match m {
      case Submit => SubmitAddsOne(r.inFlight, r.rest[0]);
      case Record(t, reply, elapsed) => RecordTakesOne(r.inFlight, t);
      case Release(t) => ReleaseTakesNone(r.inFlight, t);
    }
  }

  lemma {:induction false} RunIsProgress(r: Runner, moves: seq<Move>)
    ensures Run(r, moves).Some? ==> Left(Run(r, moves).value) == Left(r) - |moves|
  {
    if moves != [] {
      var before := moves[..|moves| - 1];
      RunIsProgress(r, before);
      if Run(r, before).Some? && Enabled(Run(r, before).value, moves[|moves| - 1]) {
        StepIsProgress(Run(r, before).value, moves[|moves| - 1]);
      }
    }
  }

  /** The pump cannot deadlock and always ends: a run has at most three moves per event, until it is
      finished some move is possible, and it is finished exactly when it has made them all. */
  lemma PumpEnds(maxInFlight: int, schedule: seq<Event>, moves: seq<Move>)
    requires maxInFlight >= 1 && Run(Begin(maxInFlight, schedule).value, moves).Some?
    ensures var r := Run(Begin(maxInFlight, schedule).value, moves).value;
            && |moves| <= 3 * |schedule|
            && (Finished(r) <==> |moves| == 3 * |schedule|)
            && (Finished(r) <==> forall m :: !Enabled(r, m))
  {
    var begin := Begin(maxInFlight, schedule).value;
    var r := Run(begin, moves).value;
    RunIsProgress(begin, moves);
    RunKeepsBalance(begin, moves, maxInFlight, schedule);
    SomeMoveUntilFinished(r, maxInFlight);
  }

  lemma SomeMoveUntilFinished(r: Runner, maxInFlight: int)
    requires r.permits + |r.inFlight| == maxInFlight >= 1
    ensures Finished(r) <==> forall m :: !Enabled(r, m)
    ensures Finished(r) <==> Left(r) == 0
  {
    if !Finished(r) {
      if r.inFlight == [] {
        assert Enabled(r, Submit);
      } else if r.inFlight[0].recorded {
        assert Enabled(r, Release(0));
      } else {
        assert Enabled(r, Record(0, Raised(""), 0.0));
      }
    }
  }
}
