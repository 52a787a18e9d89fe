/** What every interleaving of concurrent apply calls keeps: no CIDR is lost, and the rule is
    added once (scripts/perf_waf_allowlist.py). */
module WafInterleaving {
  import opened Common
  import opened WafServer
  import opened WafProtocol

  ghost predicate AllApply(calls: seq<Call>) {
    forall i :: 0 <= i < |calls| ==> calls[i].Apply?
  }

  ghost predicate DistinctPriorities(rules: seq<Rule>) {
    forall i, j :: 0 <= i < j < |rules| ==> rules[i].priority != rules[j].priority
  }

  /** A state the calls may start from: no allow rule yet, no repeated address or priority. */
  ghost predicate Fresh(ruleName: string, s: Server) {
    && !HasRule(s.acl.rules, ruleName)
    && DistinctPriorities(s.acl.rules)
    && (s.ipSet.Some? ==> NoDup(s.ipSet.value.addresses))
  }

  function Addresses(s: Server): seq<Cidr> {
    if s.ipSet.Some? then s.ipSet.value.addresses else []
  }

  /** ensure_ip_set has returned to this call. */
  ghost predicate PastMerge(pc: Pc) {
    pc.Merged? || pc.RuleFetch? || pc.RuleStore? || pc.Returned?
  }

  // ---------------------------------------------------------------- rely and guarantee

  /** What one call may rely on while others move: the IPSet only grows, and a lock token that is
      still current means the resource has not changed. */
  ghost predicate Grows(ruleName: string, s: Server, s': Server) {
    && (s.ipSet.Some? ==> Holds(s', s.ipSet.value.id) && s.ipSet.value.addresses <= s'.ipSet.value.addresses)
    && s.ipToken <= s'.ipToken && (s.ipToken == s'.ipToken ==> s.ipSet == s'.ipSet)
    && s.aclToken <= s'.aclToken && (s.aclToken == s'.aclToken ==> s.acl == s'.acl)
    && (HasRule(s.acl.rules, ruleName) ==> HasRule(s'.acl.rules, ruleName))
  }

  /** What is true of the service at each point of an apply call. */
  ghost predicate Local(ruleName: string, call: Call, pc: Pc, s: Server)
    requires call.Apply?
  {
    match pc
    case Finding => true
    case Creating => true
    case MergeFetch(id, tries) => Holds(s, id)
    case MergeStore(id, tries, current, token) =>
      Holds(s, id) && token <= s.ipToken && (token == s.ipToken ==> current == s.ipSet.value.addresses)
    case Merged(arn) => Holds(s, arn) && AllIn(call.cidrs, s.ipSet.value.addresses)
    case RuleFetch(arn, tries) =>
      Holds(s, arn) && AllIn(call.cidrs, s.ipSet.value.addresses) && call.priority < RATE_RULE_PRIORITY
    case RuleStore(arn, tries, acl, token) =>
      && Holds(s, arn) && AllIn(call.cidrs, s.ipSet.value.addresses) && call.priority < RATE_RULE_PRIORITY
      && token <= s.aclToken && (token == s.aclToken ==> acl == s.acl)
      && ScanRules(acl.rules, ruleName, call.priority) == Clear
    case Returned(_) =>
      && s.ipSet.Some? && AllIn(call.cidrs, s.ipSet.value.addresses)
      && call.priority < RATE_RULE_PRIORITY && HasRule(s.acl.rules, ruleName)
    case Raised(_) => true
    case _ => false
  }

  lemma LocalIsStable(ruleName: string, call: Call, pc: Pc, s: Server, s': Server)
    requires call.Apply? && Local(ruleName, call, pc, s) && Grows(ruleName, s, s')
    ensures Local(ruleName, call, pc, s')
  {
    if s.ipSet.Some? {
      forall x | x in call.cidrs && x in s.ipSet.value.addresses
        ensures x in s'.ipSet.value.addresses
      {
        var i :| 0 <= i < |s.ipSet.value.addresses| && s.ipSet.value.addresses[i] == x;
        assert s'.ipSet.value.addresses[i] == x;
      }
    }
  }

  lemma MergedAddresses(current: seq<Cidr>, cidrs: seq<Cidr>)
    requires NoDup(current)
    ensures NoDup(Dedupe(current + cidrs)) && current <= Dedupe(current + cidrs)
    ensures AllIn(cidrs, Dedupe(current + cidrs))
    ensures forall x :: x in Dedupe(current + cidrs) ==> x in current || x in cidrs
  {
    DedupeIsASet(current + cidrs);
    DedupeKeepsPrefix(current, cidrs);
  }

  /** What a step promises: its own assertion after it, and what the others rely on. */
  ghost predicate Guaranteed(ruleName: string, call: Call, pc': Pc, s: Server, s': Server)
    requires call.Apply?
  {
    && Local(ruleName, call, pc', s') && Grows(ruleName, s, s') && NoDup(Addresses(s'))
    && forall a :: a in Addresses(s') ==> a in Addresses(s) || a in call.cidrs
  }

  lemma IpSetStepGuarantee(ruleName: string, call: Call, pc: Pc, s: Server, f: Fault)
    requires call.Apply? && InIpSetPhase(pc) && Local(ruleName, call, pc, s) && NoDup(Addresses(s))
    ensures var (pc', s') := IpSetStep(call, pc, s, f); Guaranteed(ruleName, call, pc', s, s')
  {
    match pc {
      case Creating => DedupeIsASet(call.cidrs);
      case MergeFetch(id, tries) => MergedAddresses(s.ipSet.value.addresses, call.cidrs);
      case MergeStore(id, tries, current, token) =>
        if token == s.ipToken {
          MergedAddresses(current, call.cidrs);
        }
      case _ =>
    }
  }

  lemma RuleStepGuarantee(ruleName: string, call: Call, pc: Pc, s: Server, f: Fault)
    requires call.Apply? && InRulePhase(pc) && Local(ruleName, call, pc, s) && NoDup(Addresses(s))
    ensures var (pc', s') := RuleStep(ruleName, call, pc, s, f); Guaranteed(ruleName, call, pc', s, s')
  {
    match pc {
      case RuleFetch(arn, tries) => ScanMeaning(s.acl.rules, ruleName, call.priority);
      case RuleStore(arn, tries, acl, token) =>
        var added := BuildAllowRule(ruleName, call.priority, arn);
        assert added in acl.rules + [added];
      case _ =>
    }
  }

  /** One step of an apply call: its own assertion holds after it, and every other call's
      reliance is respected. */
  lemma StepGuarantee(ruleName: string, call: Call, pc: Pc, s: Server, f: Fault)
    requires call.Apply? && Local(ruleName, call, pc, s) && NoDup(Addresses(s))
    ensures var (pc', s') := Step(ruleName, call, pc, s, f); Guaranteed(ruleName, call, pc', s, s')
  {
    if InIpSetPhase(pc) {
      IpSetStepGuarantee(ruleName, call, pc, s, f);
    } else if InRulePhase(pc) {
      RuleStepGuarantee(ruleName, call, pc, s, f);
    }
  }

  // ---------------------------------------------------------------- no lost update

  ghost predicate Requested(calls: seq<Call>, a: Cidr) {
    exists i :: 0 <= i < |calls| && calls[i].Apply? && a in calls[i].cidrs
  }

  ghost predicate Sound(ruleName: string, calls: seq<Call>, sys: System) {
    && |sys.pcs| == |calls| && AllApply(calls) && NoDup(Addresses(sys.server))
    && forall i :: 0 <= i < |calls| ==> Local(ruleName, calls[i], sys.pcs[i], sys.server)
  }

  lemma AdvanceIsSound(ruleName: string, calls: seq<Call>, sys: System, m: Move)
    requires Sound(ruleName, calls, sys)
    ensures Sound(ruleName, calls, Advance(ruleName, calls, sys, m))
    ensures Grows(ruleName, sys.server, Advance(ruleName, calls, sys, m).server)
    ensures forall a :: a in Addresses(Advance(ruleName, calls, sys, m).server) ==>
                        a in Addresses(sys.server) || Requested(calls, a)
  {
    if m.who < |calls| {
      StepGuarantee(ruleName, calls[m.who], sys.pcs[m.who], sys.server, m.fault);
      var next := Advance(ruleName, calls, sys, m);
      forall i | 0 <= i < |calls|
        ensures Local(ruleName, calls[i], next.pcs[i], next.server)
      {
        if i != m.who {
          LocalIsStable(ruleName, calls[i], sys.pcs[i], sys.server, next.server);
        }
      }
    }
  }

  lemma {:induction false} RunIsSound(ruleName: string, calls: seq<Call>, s: Server, schedule: seq<Move>)
    requires AllApply(calls) && NoDup(Addresses(s))
    ensures Sound(ruleName, calls, Run(ruleName, calls, s, schedule))
    ensures forall a :: a in Addresses(Run(ruleName, calls, s, schedule).server) ==>
                        a in Addresses(s) || Requested(calls, a)
  {
    if schedule != [] {
      var before := schedule[..|schedule| - 1];
      RunIsSound(ruleName, calls, s, before);
      AdvanceIsSound(ruleName, calls, Run(ruleName, calls, s, before), schedule[|schedule| - 1]);
    }
  }

  lemma {:induction false} RunGrows(ruleName: string, calls: seq<Call>, s: Server, schedule: seq<Move>, k: nat)
    requires AllApply(calls) && NoDup(Addresses(s)) && k <= |schedule|
    ensures Grows(ruleName, Run(ruleName, calls, s, schedule[..k]).server,
                  Run(ruleName, calls, s, schedule).server)
  {
    if k == |schedule| {
      assert schedule[..k] == schedule;
    } else {
      var before := schedule[..|schedule| - 1];
      assert before[..k] == schedule[..k];
      RunGrows(ruleName, calls, s, before, k);
      RunIsSound(ruleName, calls, s, before);
      AdvanceIsSound(ruleName, calls, Run(ruleName, calls, s, before), schedule[|schedule| - 1]);
    }
  }

  /** No lost update. Take any concurrent apply calls, any interleaving of their service calls and
      any faults, and look at the service at any moment k and at the end. The addresses present at k
      are still there, in the same places; none is repeated; none was asked for by nobody; and every
      CIDR of a call that had got past ensure_ip_set by moment k is there. */
  lemma NoLostUpdate(ruleName: string, calls: seq<Call>, s: Server, schedule: seq<Move>, k: nat)
    requires AllApply(calls) && NoDup(Addresses(s)) && k <= |schedule|
    ensures var mid := Run(ruleName, calls, s, schedule[..k]);
            var end := Run(ruleName, calls, s, schedule);
            && Addresses(s) <= Addresses(mid.server) <= Addresses(end.server)
            && NoDup(Addresses(end.server))
            && (forall a :: a in Addresses(end.server) ==> a in Addresses(s) || Requested(calls, a))
            && (forall i :: 0 <= i < |calls| && PastMerge(mid.pcs[i]) ==>
                  AllIn(calls[i].cidrs, Addresses(end.server)))
  {
    RunIsSound(ruleName, calls, s, schedule);
    RunIsSound(ruleName, calls, s, schedule[..k]);
    RunGrows(ruleName, calls, s, schedule, k);
    RunGrows(ruleName, calls, s, schedule[..k], 0);
    assert schedule[..k][..0] == [];
    var mid := Run(ruleName, calls, s, schedule[..k]);
    var end := Run(ruleName, calls, s, schedule);
    forall i | 0 <= i < |calls| && PastMerge(mid.pcs[i])
      ensures AllIn(calls[i].cidrs, Addresses(end.server))
    {
      assert Local(ruleName, calls[i], mid.pcs[i], mid.server);
      forall x | x in calls[i].cidrs ensures x in Addresses(end.server) {
        var p :| 0 <= p < |Addresses(mid.server)| && Addresses(mid.server)[p] == x;
        assert Addresses(end.server)[p] == x;
      }
    }
  }

  // ---------------------------------------------------------------- the rule is added once

  /** Either nobody has added the rule and the WebACL is as it was, or exactly call k has, and the
      WebACL is the original with k's rule appended. */
  ghost predicate NotAdded(sys: System, s: Server) {
    && sys.server.acl == s.acl && sys.server.aclToken == s.aclToken
    && forall i :: 0 <= i < |sys.pcs| ==> sys.pcs[i] != Returned(true)
  }

  ghost predicate AddedBy(ruleName: string, calls: seq<Call>, sys: System, s: Server, k: nat)
    requires |sys.pcs| == |calls| && AllApply(calls)
  {
    && k < |calls| && sys.pcs[k] == Returned(true) && sys.server.ipSet.Some?
    && (forall i :: 0 <= i < |calls| && sys.pcs[i] == Returned(true) ==> i == k)
    && sys.server.acl ==
       Echo(s.acl, s.acl.rules + [BuildAllowRule(ruleName, calls[k].priority, sys.server.ipSet.value.id)])
    && sys.server.aclToken == s.aclToken + 1
    && ScanRules(s.acl.rules, ruleName, calls[k].priority) == Clear
  }

  ghost predicate AddedAtMostOnce(ruleName: string, calls: seq<Call>, sys: System, s: Server)
    requires |sys.pcs| == |calls| && AllApply(calls)
  {
    NotAdded(sys, s) || exists k: nat :: AddedBy(ruleName, calls, sys, s, k)
  }

  /** The original rules and then the perf rule: the name scan finds it unless it is not there. */
  lemma AppendedRuleIsFound(rules: seq<Rule>, rule: Rule, priority: int)
    ensures ScanRules(rules + [rule], rule.name, priority) != Clear
  {
    ScanMeaning(rules + [rule], rule.name, priority);
    assert rule in rules + [rule];
  }

  lemma AdvanceAddsOnce(ruleName: string, calls: seq<Call>, sys: System, s: Server, m: Move)
    requires Sound(ruleName, calls, sys) && AddedAtMostOnce(ruleName, calls, sys, s)
    ensures var next := Advance(ruleName, calls, sys, m);
            |next.pcs| == |calls| && AddedAtMostOnce(ruleName, calls, next, s)
  {
    var next := Advance(ruleName, calls, sys, m);
    AdvanceIsSound(ruleName, calls, sys, m);
    if m.who < |calls| {
      var call, pc := calls[m.who], sys.pcs[m.who];
      if NotAdded(sys, s) {
        if next.pcs[m.who] == Returned(true) {
          assert AddedBy(ruleName, calls, next, s, m.who);
        }
      } else {
        var k: nat :| AddedBy(ruleName, calls, sys, s, k);
        AppendedRuleIsFound(s.acl.rules, BuildAllowRule(ruleName, calls[k].priority, sys.server.ipSet.value.id),
                            call.priority);
        assert AddedBy(ruleName, calls, next, s, k);
      }
    }
  }

  lemma {:induction false} RunAddsOnce(ruleName: string, calls: seq<Call>, s: Server, schedule: seq<Move>)
    requires AllApply(calls) && Fresh(ruleName, s)
    ensures AddedAtMostOnce(ruleName, calls, Run(ruleName, calls, s, schedule), s)
  {
    if schedule != [] {
      var before := schedule[..|schedule| - 1];
      RunAddsOnce(ruleName, calls, s, before);
      RunIsSound(ruleName, calls, s, before);
      AdvanceAddsOnce(ruleName, calls, Run(ruleName, calls, s, before), s, schedule[|schedule| - 1]);
    }
  }

  /** One rule, one adder. From a WebACL with distinct priorities and no allow rule, under any
      interleaving and any faults: the original rules stay, in order, as a prefix; at most the one
      allow rule follows them; priorities stay distinct; default action and visibility are kept;
      no two calls report that they added the rule; and if any call returns normally, exactly one does. */
  lemma RuleAddedOnce(ruleName: string, calls: seq<Call>, s: Server, schedule: seq<Move>)
    requires AllApply(calls) && Fresh(ruleName, s)
    ensures var end := Run(ruleName, calls, s, schedule);
            var rules := end.server.acl.rules;
            && DistinctPriorities(rules)
            && Others(rules, ruleName) == s.acl.rules
            && s.acl.rules <= rules && |rules| <= |s.acl.rules| + 1
            && end.server.acl.defaultAction == s.acl.defaultAction
            && end.server.acl.visibility == s.acl.visibility
            && (forall i, j :: 0 <= i < |calls| && 0 <= j < |calls| ==>
                  end.pcs[i] == Returned(true) && end.pcs[j] == Returned(true) ==> i == j)
            && ((exists i :: 0 <= i < |calls| && end.pcs[i].Returned?) ==>
                exists k :: 0 <= k < |calls| && end.pcs[k] == Returned(true) && end.server.ipSet.Some? &&
                  rules == s.acl.rules + [BuildAllowRule(ruleName, calls[k].priority, end.server.ipSet.value.id)])
  {
    var end := Run(ruleName, calls, s, schedule);
    RunAddsOnce(ruleName, calls, s, schedule);
    RunIsSound(ruleName, calls, s, schedule);
    OthersMeaning(s.acl.rules, ruleName);
    if NotAdded(end, s) {
      assert forall i :: 0 <= i < |calls| && end.pcs[i].Returned? ==> HasRule(end.server.acl.rules, ruleName);
    } else {
      var k: nat :| AddedBy(ruleName, calls, end, s, k);
      var rule := BuildAllowRule(ruleName, calls[k].priority, end.server.ipSet.value.id);
      OthersAppend(s.acl.rules, [rule], ruleName);
      assert Others([rule], ruleName) == Others([], ruleName) == [];
      ScanMeaning(s.acl.rules, ruleName, calls[k].priority);
    }
  }
}
