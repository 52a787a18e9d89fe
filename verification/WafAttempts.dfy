/** How often a call attempts anything, in every interleaving and whatever goes wrong
    (scripts/perf_waf_allowlist.py). */
module WafAttempts {
  import opened Common
  import opened WafServer
  import opened WafProtocol

  /** The four retry loops: two of an apply, two of a remove. */
  datatype Loop = MergeLoop | RuleLoop | UnlinkLoop | DeleteLoop

  /** The loop in which a call is about to begin an attempt, which it does with a fetch. */
  function Fetching(pc: Pc): Option<Loop> {
    match pc
    case MergeFetch(_, _) => Some(MergeLoop)
    case RuleFetch(_, _) => Some(RuleLoop)
    case UnlinkFetch(_) => Some(UnlinkLoop)
    case DeleteFetch(_, _, _) => Some(DeleteLoop)
    case _ => None
  }

  function Storing(pc: Pc): Option<Loop> {
    match pc
    case MergeStore(_, _, _, _) => Some(MergeLoop)
    case RuleStore(_, _, _, _) => Some(RuleLoop)
    case UnlinkStore(_, _, _) => Some(UnlinkLoop)
    case DeleteStore(_, _, _, _) => Some(DeleteLoop)
    case _ => None
  }

  /** How many of the moves are fetches of call i in the given loop. */
  ghost function Attempts(ruleName: string, calls: seq<Call>, s: Server, schedule: seq<Move>, i: nat, loop: Loop): nat
    requires i < |calls|
  {
    if schedule == [] then 0
    else
      var n := |schedule| - 1;
      Attempts(ruleName, calls, s, schedule[..n], i, loop) +
      if schedule[n].who == i && Fetching(Run(ruleName, calls, s, schedule[..n]).pcs[i]) == Some(loop) then 1 else 0
  }

  /** The loop is still to come. */
  predicate Ahead(pc: Pc, loop: Loop) {
    match loop
    case MergeLoop => pc.Finding? || pc.Creating?
    case RuleLoop => InIpSetPhase(pc) || pc.Merged?
    case UnlinkLoop => false
    case DeleteLoop => pc.UnlinkFetch? || pc.UnlinkStore? || pc.DeleteFinding?
  }

  /** A call is at a point of its own program, within its budget. */
  ghost predicate InPlace(call: Call, pc: Pc) {
    && (call.Apply? ==> !InRemovePhase(pc)) && (call.Remove? ==> !InRulePhase(pc) && !InIpSetPhase(pc))
    && (Fetching(pc).Some? ==> pc.tries <= call.retries)
    && (Storing(pc).Some? ==> pc.tries <= call.retries + 1)
  }

  /** n attempts begun in the loop: as many as the call has counted, and never more than allowed. */
  ghost predicate Tallied(call: Call, pc: Pc, loop: Loop, n: nat) {
    && InPlace(call, pc)
    && (Ahead(pc, loop) ==> n == 0)
    && (Fetching(pc) == Some(loop) || Storing(pc) == Some(loop) ==> n == pc.tries)
    && (n > 0 ==> n <= call.retries + 1)
  }

  lemma StepTallies(ruleName: string, call: Call, pc: Pc, s: Server, f: Fault, loop: Loop, n: nat)
    requires Tallied(call, pc, loop, n)
    ensures Tallied(call, Step(ruleName, call, pc, s, f).0, loop, n + if Fetching(pc) == Some(loop) then 1 else 0)
  {
    if InIpSetPhase(pc) && call.Apply? {
      IpSetTallies(call, pc, s, f, loop, n);
    } else if InRulePhase(pc) && call.Apply? {
      RuleTallies(ruleName, call, pc, s, f, loop, n);
    } else if InRemovePhase(pc) && call.Remove? {
      RemoveTallies(ruleName, call, pc, s, f, loop, n);
    }
  }

  lemma IpSetTallies(call: Call, pc: Pc, s: Server, f: Fault, loop: Loop, n: nat)
    requires Tallied(call, pc, loop, n) && call.Apply? && InIpSetPhase(pc)
    ensures Tallied(call, IpSetStep(call, pc, s, f).0, loop, n + if Fetching(pc) == Some(loop) then 1 else 0)
  {
  }

  lemma RuleTallies(ruleName: string, call: Call, pc: Pc, s: Server, f: Fault, loop: Loop, n: nat)
    requires Tallied(call, pc, loop, n) && call.Apply? && InRulePhase(pc)
    ensures Tallied(call, RuleStep(ruleName, call, pc, s, f).0, loop, n + if Fetching(pc) == Some(loop) then 1 else 0)
  {
  }

  lemma RemoveTallies(ruleName: string, call: Call, pc: Pc, s: Server, f: Fault, loop: Loop, n: nat)
    requires Tallied(call, pc, loop, n) && call.Remove? && InRemovePhase(pc)
    ensures Tallied(call, RemoveStep(ruleName, call, pc, s, f).0, loop, n + if Fetching(pc) == Some(loop) then 1 else 0)
  {
  }

  lemma {:induction false} RunTallies(ruleName: string, calls: seq<Call>, s: Server, schedule: seq<Move>, i: nat,
                                      loop: Loop)
    requires i < |calls|
    ensures Tallied(calls[i], Run(ruleName, calls, s, schedule).pcs[i], loop,
                    Attempts(ruleName, calls, s, schedule, i, loop))
  {
    if schedule != [] {
      var n := |schedule| - 1;
      var before := Run(ruleName, calls, s, schedule[..n]);
      RunTallies(ruleName, calls, s, schedule[..n], i, loop);
      if schedule[n].who == i {
        StepTallies(ruleName, calls[i], before.pcs[i], before.server, schedule[n].fault, loop,
                    Attempts(ruleName, calls, s, schedule[..n], i, loop));
      }
    }
  }

  /** Whatever the calls, the interleaving and the errors, no call begins more than retries + 1 attempts in
      any of its retry loops; none at all if that is not positive. */
  lemma AttemptsBounded(ruleName: string, calls: seq<Call>, s: Server, schedule: seq<Move>, i: nat, loop: Loop)
    requires i < |calls|
    ensures Attempts(ruleName, calls, s, schedule, i, loop) <= if calls[i].retries < 0 then 0 else calls[i].retries + 1
  {
    RunTallies(ruleName, calls, s, schedule, i, loop);
  }

  // ---------------------------------------------------------------- why a call fails

  /** The service call the tool is about to make names a lock token that is no longer the current one. */
  predicate Stale(pc: Pc, s: Server) {
    match pc
    case MergeStore(_, _, _, token) => token != s.ipToken
    case DeleteStore(_, _, token, _) => token != s.ipToken
    case RuleStore(_, _, _, token) => token != s.aclToken
    case UnlinkStore(_, _, token) => token != s.aclToken
    case _ => false
  }

  /** The service refuses for good: an error that is not retryable, any error outside the retry loops, an
      IPSet made twice, or a merge into an IPSet that is gone. */
  predicate Refuses(pc: Pc, s: Server, f: Fault) {
    || f == Fatal
    || (f == Retryable && Fetching(pc).None? && Storing(pc).None?)
    || (pc.Creating? && s.ipSet.Some?)
    || ((pc.MergeFetch? || pc.MergeStore?) && !Holds(s, pc.id))
  }

  ghost predicate BadPriority(ruleName: string, call: Call, s: Server) {
    call.Apply? && (call.priority >= RATE_RULE_PRIORITY ||
                    exists q :: q in s.acl.rules && q.name != ruleName && q.priority == call.priority)
  }

  ghost predicate Cause(ruleName: string, call: Call, pc: Pc, s: Server, f: Fault, why: Reason) {
    match why
    case OutOfRetries => call.retries < 0 || f == Retryable || Stale(pc, s)
    case Refused => Refuses(pc, s, f)
    case BadUsage => BadPriority(ruleName, call, s)
  }

  lemma StepHasACause(ruleName: string, call: Call, pc: Pc, s: Server, f: Fault)
    requires InPlace(call, pc) && !pc.Raised? && Step(ruleName, call, pc, s, f).0.Raised?
    ensures Cause(ruleName, call, pc, s, f, Step(ruleName, call, pc, s, f).0.reason)
    ensures Step(ruleName, call, pc, s, f).0.reason == OutOfRetries && call.retries >= 0 ==>
            (Fetching(pc).Some? && pc.tries == call.retries) || (Storing(pc).Some? && pc.tries == call.retries + 1)
  {
    if pc.RuleFetch? {
      ScanMeaning(s.acl.rules, ruleName, call.priority);
    }
  }

  /** Move k was call i's, and gave it its reason to fail. */
  ghost predicate CausedAt(ruleName: string, calls: seq<Call>, s: Server, schedule: seq<Move>, i: nat, why: Reason,
                           k: nat)
    requires i < |calls|
  {
    && k < |schedule| && schedule[k].who == i
    && var sys := Run(ruleName, calls, s, schedule[..k]);
       Cause(ruleName, calls[i], sys.pcs[i], sys.server, schedule[k].fault, why)
  }

  /** No call fails without cause, in any mix and interleaving of calls. A bad priority is one that is not
      before the rate rule or that another rule has; a refusal is the service's; and a call out of retries
      has met a retryable error or a stale token at its last attempt, has begun all its retries + 1
      attempts in one loop, or was given fewer than none. */
  lemma {:induction false} FailureHasACause(ruleName: string, calls: seq<Call>, s: Server, schedule: seq<Move>, i: nat)
    requires i < |calls| && Run(ruleName, calls, s, schedule).pcs[i].Raised?
    ensures var why := Run(ruleName, calls, s, schedule).pcs[i].reason;
            && ((why == OutOfRetries && calls[i].retries < 0) ||
                exists k: nat :: CausedAt(ruleName, calls, s, schedule, i, why, k))
            && (why == OutOfRetries && calls[i].retries >= 0 ==>
                exists loop :: Attempts(ruleName, calls, s, schedule, i, loop) == calls[i].retries + 1)
  {
    if schedule != [] {
      var n := |schedule| - 1;
      var sys := Run(ruleName, calls, s, schedule[..n]);
      if sys.pcs[i].Raised? {
        FailureHasACause(ruleName, calls, s, schedule[..n], i);
        CauseStays(ruleName, calls, s, schedule, i, n);
      } else {
        RunTallies(ruleName, calls, s, schedule[..n], i, MergeLoop);
        StepHasACause(ruleName, calls[i], sys.pcs[i], sys.server, schedule[n].fault);
        assert CausedAt(ruleName, calls, s, schedule, i, Run(ruleName, calls, s, schedule).pcs[i].reason, n);
        var loop := if Fetching(sys.pcs[i]).Some? then Fetching(sys.pcs[i]) else Storing(sys.pcs[i]);
        if loop.Some? {
          RunTallies(ruleName, calls, s, schedule[..n], i, loop.value);
          assert Attempts(ruleName, calls, s, schedule, i, loop.value) ==
                 sys.pcs[i].tries + if Fetching(sys.pcs[i]).Some? then 1 else 0;
        }
      }
    }
  }

  /** A call that has failed makes no more attempts, and its reason stays what it was. */
  lemma CauseStays(ruleName: string, calls: seq<Call>, s: Server, schedule: seq<Move>, i: nat, n: nat)
    requires i < |calls| && |schedule| == n + 1 && Run(ruleName, calls, s, schedule[..n]).pcs[i].Raised?
    ensures Run(ruleName, calls, s, schedule).pcs[i] == Run(ruleName, calls, s, schedule[..n]).pcs[i]
    ensures forall loop :: Attempts(ruleName, calls, s, schedule, i, loop) ==
                           Attempts(ruleName, calls, s, schedule[..n], i, loop)
    ensures forall why, k: nat :: CausedAt(ruleName, calls, s, schedule[..n], i, why, k) ==>
                                  CausedAt(ruleName, calls, s, schedule, i, why, k)
  {
    forall why, k: nat | CausedAt(ruleName, calls, s, schedule[..n], i, why, k)
      ensures CausedAt(ruleName, calls, s, schedule, i, why, k)
    {
      assert schedule[..n][..k] == schedule[..k];
    }
  }
}
