/** Sequential histories of apply and remove calls, each of which may be cut short at any service
    call (scripts/perf_waf_allowlist.py). */
module WafHistory {
  import opened Common
  import opened WafServer
  import opened WafProtocol

  /** One invocation: the call, and the answers it got before it finished or was killed. */
  datatype Invocation = Invocation(call: Call, answers: seq<Fault>)

  function Play(ruleName: string, call: Call, s: Server, answers: seq<Fault>): (Pc, Server) {
    if answers == [] then (Start(call), s)
    else
      var (pc, t) := Play(ruleName, call, s, answers[..|answers| - 1]);
      Step(ruleName, call, pc, t, answers[|answers| - 1])
  }

  /** The service after a history; cutting the last invocation's answers short gives every crash point. */
  function After(ruleName: string, s: Server, history: seq<Invocation>): Server {
    if history == [] then s
    else
      var last := history[|history| - 1];
      Play(ruleName, last.call, After(ruleName, s, history[..|history| - 1]), last.answers).1
  }

  /** Every rule of the perf name refers to the IPSet that exists. */
  ghost predicate RuleBacked(ruleName: string, s: Server) {
    forall r :: r in s.acl.rules && r.name == ruleName ==>
      r.statement.IpSetReference? && Holds(s, r.statement.arn)
  }

  /** What a lone call knows: what it fetched is current, an arn it will write exists, and a delete
      is only attempted once no rule of the name is left. */
  ghost predicate Alone(ruleName: string, call: Call, pc: Pc, s: Server) {
    && RuleBacked(ruleName, s)
    && (pc.MergeFetch? || pc.MergeStore? ==> Holds(s, pc.id))
    && (InRulePhase(pc) ==> Holds(s, pc.arn))
    && (pc.RuleStore? || pc.UnlinkStore? ==> pc.acl == s.acl && pc.token == s.aclToken)
    && (pc.DeleteFinding? || pc.DeleteFetch? || pc.DeleteStore? ==> !HasRule(s.acl.rules, ruleName))
    && (pc.DeleteFetch? || pc.DeleteStore? ==> Holds(s, pc.id))
    && (pc.Returned? && call.Apply? ==> s.ipSet.Some? && HasRule(s.acl.rules, ruleName))
    && (pc.Returned? && call.Remove? ==> s.ipSet.None? && !HasRule(s.acl.rules, ruleName))
    && (call.Apply? ==> !InRemovePhase(pc)) && (call.Remove? ==> !InRulePhase(pc) && !InIpSetPhase(pc))
  }

  /** The parts of the service no call may touch: the other rules in their order, and the fixed fields. */
  ghost predicate SameOtherwise(ruleName: string, s: Server, t: Server) {
    && Others(t.acl.rules, ruleName) == Others(s.acl.rules, ruleName)
    && t.acl.defaultAction == s.acl.defaultAction && t.acl.visibility == s.acl.visibility
  }

  lemma IpSetStepAlone(ruleName: string, call: Call, pc: Pc, s: Server, f: Fault)
    requires Alone(ruleName, call, pc, s) && call.Apply? && InIpSetPhase(pc)
    ensures var (pc', s') := IpSetStep(call, pc, s, f);
            Alone(ruleName, call, pc', s') && SameOtherwise(ruleName, s, s')
  {
  }

  lemma RuleStepAlone(ruleName: string, call: Call, pc: Pc, s: Server, f: Fault)
    requires Alone(ruleName, call, pc, s) && call.Apply? && InRulePhase(pc)
    ensures var (pc', s') := RuleStep(ruleName, call, pc, s, f);
            Alone(ruleName, call, pc', s') && SameOtherwise(ruleName, s, s')
  {
    match pc {
      case Merged(arn) =>
      case RuleFetch(arn, tries) => ScanMeaning(s.acl.rules, ruleName, call.priority);
      case RuleStore(arn, tries, acl, token) =>
        var rule := BuildAllowRule(ruleName, call.priority, arn);
        OthersAppend(acl.rules, [rule], ruleName);
        assert Others([rule], ruleName) == Others([], ruleName) == [];
        assert rule in acl.rules + [rule];
    }
  }

  lemma RemoveStepAlone(ruleName: string, call: Call, pc: Pc, s: Server, f: Fault)
    requires Alone(ruleName, call, pc, s) && call.Remove? && InRemovePhase(pc)
    ensures var (pc', s') := RemoveStep(ruleName, call, pc, s, f);
            Alone(ruleName, call, pc', s') && SameOtherwise(ruleName, s, s')
  {
    OthersMeaning(s.acl.rules, ruleName);
    OthersIdempotent(s.acl.rules, ruleName);
  }

  lemma StepAlone(ruleName: string, call: Call, pc: Pc, s: Server, f: Fault)
    requires Alone(ruleName, call, pc, s)
    ensures var (pc', s') := Step(ruleName, call, pc, s, f);
            Alone(ruleName, call, pc', s') && SameOtherwise(ruleName, s, s')
  {
    if call.Apply? && InIpSetPhase(pc) {
      IpSetStepAlone(ruleName, call, pc, s, f);
    } else if call.Apply? && InRulePhase(pc) {
      RuleStepAlone(ruleName, call, pc, s, f);
    } else if call.Remove? && InRemovePhase(pc) {
      RemoveStepAlone(ruleName, call, pc, s, f);
    }
  }

  lemma {:induction false} PlayAlone(ruleName: string, call: Call, s: Server, answers: seq<Fault>)
    requires RuleBacked(ruleName, s)
    ensures var (pc, t) := Play(ruleName, call, s, answers);
            Alone(ruleName, call, pc, t) && SameOtherwise(ruleName, s, t)
  {
    if answers != [] {
      var before := answers[..|answers| - 1];
      PlayAlone(ruleName, call, s, before);
      var (pc, t) := Play(ruleName, call, s, before);
      StepAlone(ruleName, call, pc, t, answers[|answers| - 1]);
    }
  }

  /** Crash safety: after any sequential history, with its last call stopped anywhere, a perf rule in
      the WebACL refers to an existing IPSet, and the other rules are the original ones in order.
      The service is not assumed to refuse dangling references. */
  lemma {:induction false} CrashSafety(ruleName: string, s: Server, history: seq<Invocation>)
    requires RuleBacked(ruleName, s)
    ensures RuleBacked(ruleName, After(ruleName, s, history))
    ensures SameOtherwise(ruleName, s, After(ruleName, s, history))
  {
    if history != [] {
      var before := history[..|history| - 1];
      var last := history[|history| - 1];
      CrashSafety(ruleName, s, before);
      PlayAlone(ruleName, last.call, After(ruleName, s, before), last.answers);
    }
  }

  /** The invocation ran to a normal return. */
  ghost predicate Completes(ruleName: string, s: Server, inv: Invocation) {
    Play(ruleName, inv.call, s, inv.answers).0.Returned?
  }

  /** Restoration: whatever applies, removes and crashes came before, a completed apply followed by a
      completed remove leaves exactly the original rules other than the perf rule, and no IPSet. It is
      the original rule list if and only if that list held no perf rule. */
  lemma ApplyThenRemoveRestores(ruleName: string, s: Server, history: seq<Invocation>,
                                apply: Invocation, remove: Invocation)
    requires RuleBacked(ruleName, s) && apply.call.Apply? && remove.call.Remove?
    requires Completes(ruleName, After(ruleName, s, history), apply)
    requires Completes(ruleName, After(ruleName, s, history + [apply]), remove)
    ensures var end := After(ruleName, s, history + [apply, remove]);
            && end.acl.rules == Others(s.acl.rules, ruleName)
            && end.ipSet.None?
            && (end.acl.rules == s.acl.rules <==> !HasRule(s.acl.rules, ruleName))
  {
    var all := history + [apply, remove];
    assert all[..|all| - 1] == history + [apply];
    assert (history + [apply])[..|history|] == history;
    CrashSafety(ruleName, s, history + [apply]);
    CrashSafety(ruleName, s, all);
    PlayAlone(ruleName, remove.call, After(ruleName, s, history + [apply]), remove.answers);
    var end := After(ruleName, s, all);
    OthersMeaning(end.acl.rules, ruleName);
    OthersMeaning(s.acl.rules, ruleName);
  }

  /** A number of undisturbed answers. */
  function Smooth(n: nat): seq<Fault> {
    if n == 0 then [] else Smooth(n - 1) + [NoFault]
  }

  /** After n undisturbed answers the call is at pc and the service at t. */
  ghost predicate Reaches(ruleName: string, call: Call, s: Server, n: nat, pc: Pc, t: Server) {
    Play(ruleName, call, s, Smooth(n)) == (pc, t)
  }

  lemma ReachesNext(ruleName: string, call: Call, s: Server, n: nat, pc: Pc, t: Server, pc': Pc, t': Server)
    requires Reaches(ruleName, call, s, n, pc, t) && Step(ruleName, call, pc, t, NoFault) == (pc', t')
    ensures Reaches(ruleName, call, s, n + 1, pc', t')
  {
    assert Smooth(n + 1)[..|Smooth(n + 1)| - 1] == Smooth(n);
  }

  /** A first apply, step by step. */
  lemma FirstApply(ruleName: string, s: Server, call: Call, made: Server, end: Server)
    requires call.Apply? && call.cidrs != [] && 0 <= call.retries && call.priority < RATE_RULE_PRIORITY
    requires s.ipSet.None? && ScanRules(s.acl.rules, ruleName, call.priority) == Clear
    requires made == s.(ipSet := Some(IpSet(s.ipToken + 1, Dedupe(call.cidrs))), ipToken := s.ipToken + 1)
    requires end == made.(acl := Echo(s.acl, s.acl.rules + [BuildAllowRule(ruleName, call.priority, s.ipToken + 1)]),
                          aclToken := s.aclToken + 1)
    ensures Reaches(ruleName, call, s, 5, Returned(true), end)
  {
    var arn := s.ipToken + 1;
    assert Reaches(ruleName, call, s, 0, Finding, s);
    ReachesNext(ruleName, call, s, 0, Finding, s, Creating, s);
    ReachesNext(ruleName, call, s, 1, Creating, s, Merged(arn), made);
    ReachesNext(ruleName, call, s, 2, Merged(arn), made, RuleFetch(arn, 0), made);
    ReachesNext(ruleName, call, s, 3, RuleFetch(arn, 0), made, RuleStore(arn, 1, s.acl, s.aclToken), made);
    ReachesNext(ruleName, call, s, 4, RuleStore(arn, 1, s.acl, s.aclToken), made, Returned(true), end);
  }

  /** Such completions exist: with nothing going wrong, a first apply completes... */
  lemma FaultlessApplyCompletes(ruleName: string, s: Server, call: Call)
    requires call.Apply? && call.cidrs != [] && 0 <= call.retries && call.priority < RATE_RULE_PRIORITY
    requires s.ipSet.None? && ScanRules(s.acl.rules, ruleName, call.priority) == Clear
    ensures Completes(ruleName, s, Invocation(call, Smooth(5)))
  {
    var arn := s.ipToken + 1;
    var made := s.(ipSet := Some(IpSet(arn, Dedupe(call.cidrs))), ipToken := arn);
    FirstApply(ruleName, s, call, made,
               made.(acl := Echo(s.acl, s.acl.rules + [BuildAllowRule(ruleName, call.priority, arn)]),
                     aclToken := s.aclToken + 1));
  }

  /** ... and so does a remove of what is there. */
  lemma FaultlessRemoveCompletes(ruleName: string, s: Server, call: Call)
    requires call.Remove? && 0 <= call.retries && s.ipSet.Some? && HasRule(s.acl.rules, ruleName)
    ensures Completes(ruleName, s, Invocation(call, Smooth(5)))
  {
    OthersMeaning(s.acl.rules, ruleName);
    var cut := s.(acl := Echo(s.acl, Others(s.acl.rules, ruleName)), aclToken := s.aclToken + 1);
    RemoveAll(ruleName, s, call, cut);
  }

  lemma RemoveAll(ruleName: string, s: Server, call: Call, cut: Server)
    requires call.Remove? && 0 <= call.retries && s.ipSet.Some?
    requires |Others(s.acl.rules, ruleName)| != |s.acl.rules|
    requires cut == s.(acl := Echo(s.acl, Others(s.acl.rules, ruleName)), aclToken := s.aclToken + 1)
    ensures Reaches(ruleName, call, s, 5, Returned(true), cut.(ipSet := None, ipToken := s.ipToken + 1))
  {
    var id := s.ipSet.value.id;
    assert Reaches(ruleName, call, s, 0, UnlinkFetch(0), s);
    ReachesNext(ruleName, call, s, 0, UnlinkFetch(0), s, UnlinkStore(1, s.acl, s.aclToken), s);
    ReachesNext(ruleName, call, s, 1, UnlinkStore(1, s.acl, s.aclToken), s, DeleteFinding(true), cut);
    ReachesNext(ruleName, call, s, 2, DeleteFinding(true), cut, DeleteFetch(id, 0, true), cut);
    ReachesNext(ruleName, call, s, 3, DeleteFetch(id, 0, true), cut, DeleteStore(id, 1, s.ipToken, true), cut);
    ReachesNext(ruleName, call, s, 4, DeleteStore(id, 1, s.ipToken, true), cut, Returned(true),
                cut.(ipSet := None, ipToken := s.ipToken + 1));
  }
}
