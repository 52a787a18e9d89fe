/** What a WebACL means for a request, and what adding the allow rule changes in that meaning
    (scripts/perf_waf_allowlist.py). */
module WafVerdicts {
  import opened Common
  import opened WafServer
  import opened WafProtocol
  import opened WafInterleaving

  /** How requests of type R meet rules: whether a request comes from a CIDR, and what a statement the
      tool does not build (a managed group, the rate rule) decides for it, if it ends evaluation. */
  datatype Traffic<!R> = Traffic(from: (Cidr, R) -> bool, judge: (Rule, R) -> Option<Action>)

  ghost predicate InIpSet<R>(t: Traffic<R>, set_: Option<IpSet>, r: R) {
    set_.Some? && exists c :: c in set_.value.addresses && t.from(c, r)
  }

  /** The terminating decision of one rule, or none. */
  ghost function Effect<R>(t: Traffic<R>, ips: Option<IpSet>, rule: Rule, r: R): Option<Action> {
    match rule.statement
    case IpSetReference(arn) =>
      if ips.Some? && ips.value.id == arn then (if InIpSet(t, ips, r) then Some(rule.action) else None)
      else t.judge(rule, r)
    case Opaque(_) => t.judge(rule, r)
  }

  /** First terminating match by ascending priority: the matching rule that no matching rule precedes. */
  ghost predicate Decides<R>(t: Traffic<R>, s: Server, rule: Rule, r: R) {
    && rule in s.acl.rules && Effect(t, s.ipSet, rule, r).Some?
    && forall q :: q in s.acl.rules && Effect(t, s.ipSet, q, r).Some? ==> rule.priority <= q.priority
  }

  /** The verdict of a WebACL on a request: that of the deciding rule, or the default action. */
  ghost predicate Verdict<R>(t: Traffic<R>, s: Server, r: R, a: Action) {
    || (exists rule :: Decides(t, s, rule, r) && Effect(t, s.ipSet, rule, r) == Some(a))
    || (a == s.acl.defaultAction && forall rule :: rule in s.acl.rules ==> Effect(t, s.ipSet, rule, r).None?)
  }

  /** A matching rule of least priority exists as soon as any rule matches. */
  lemma {:induction false} SomeRuleDecides<R>(t: Traffic<R>, s: Server, rules: seq<Rule>, r: R) returns (best: Rule)
    requires exists q :: q in rules && Effect(t, s.ipSet, q, r).Some?
    ensures best in rules && Effect(t, s.ipSet, best, r).Some?
    ensures forall q :: q in rules && Effect(t, s.ipSet, q, r).Some? ==> best.priority <= q.priority
  {
    var head, tail := rules[0], rules[1..];
    assert rules == [head] + tail;
    if exists q :: q in tail && Effect(t, s.ipSet, q, r).Some? {
      best := SomeRuleDecides(t, s, tail, r);
      if Effect(t, s.ipSet, head, r).Some? && head.priority < best.priority {
        best := head;
      }
    } else {
      best := head;
    }
  }

  lemma SamePriorityIsSameRule(rules: seq<Rule>, a: Rule, b: Rule)
    requires DistinctPriorities(rules) && a in rules && b in rules && a.priority == b.priority
    ensures a == b
  {
    var i :| 0 <= i < |rules| && rules[i] == a;
    var j :| 0 <= j < |rules| && rules[j] == b;
    assert i == j;
  }

  /** With distinct priorities a WebACL has exactly one verdict for every request. */
  lemma VerdictIsAFunction<R>(t: Traffic<R>, s: Server, r: R) returns (a: Action)
    requires DistinctPriorities(s.acl.rules)
    ensures Verdict(t, s, r, a)
    ensures forall b :: Verdict(t, s, r, b) ==> b == a
  {
    if exists q :: q in s.acl.rules && Effect(t, s.ipSet, q, r).Some? {
      var best := SomeRuleDecides(t, s, s.acl.rules, r);
      assert Decides(t, s, best, r);
      a := Effect(t, s.ipSet, best, r).value;
      forall b | Verdict(t, s, r, b) ensures b == a {
        var rule :| Decides(t, s, rule, r) && Effect(t, s.ipSet, rule, r) == Some(b);
        SamePriorityIsSameRule(s.acl.rules, rule, best);
      }
    } else {
      a := s.acl.defaultAction;
    }
  }

  /** The state with and without the allow rule, same IPSet. */
  ghost predicate AllowRuleAppended(ruleName: string, priority: int, s: Server, t: Server) {
    && s.ipSet.Some? && t.ipSet == s.ipSet
    && t.acl.defaultAction == s.acl.defaultAction
    && t.acl.rules == s.acl.rules + [BuildAllowRule(ruleName, priority, s.ipSet.value.id)]
    && priority < RATE_RULE_PRIORITY
    && DistinctPriorities(t.acl.rules)
  }

  /** Adding the rule changes no verdict outside the IPSet. */
  lemma OutsideIsUntouched<R>(traffic: Traffic<R>, ruleName: string, priority: int, s: Server, t: Server, r: R,
                              a: Action)
    requires AllowRuleAppended(ruleName, priority, s, t) && !InIpSet(traffic, s.ipSet, r)
    ensures Verdict(traffic, s, r, a) <==> Verdict(traffic, t, r, a)
  {
    var allow := BuildAllowRule(ruleName, priority, s.ipSet.value.id);
    assert Effect(traffic, t.ipSet, allow, r).None?;
    assert forall rule :: rule in t.acl.rules <==> rule in s.acl.rules || rule == allow;
    forall rule ensures Decides(traffic, s, rule, r) <==> Decides(traffic, t, rule, r) {
    }
  }

  /** No rule of the list before the given priority ends the evaluation of the request. */
  ghost predicate Reaches<R>(t: Traffic<R>, ips: Option<IpSet>, rules: seq<Rule>, priority: int, r: R) {
    forall q :: q in rules && q.priority < priority ==> Effect(t, ips, q, r).None?
  }

  /** Inside the IPSet the deciding rule has a priority no greater than the allow rule's, so it is
      never the rate rule; and the allow rule itself decides exactly when no rule before it matches. */
  lemma InsideEscapesTheRateRule<R>(traffic: Traffic<R>, ruleName: string, priority: int, s: Server, t: Server, r: R)
    requires AllowRuleAppended(ruleName, priority, s, t) && InIpSet(traffic, s.ipSet, r)
    ensures exists rule :: Decides(traffic, t, rule, r)
    ensures forall rule :: Decides(traffic, t, rule, r) ==>
              rule.priority <= priority && rule.priority != RATE_RULE_PRIORITY
    ensures Decides(traffic, t, BuildAllowRule(ruleName, priority, s.ipSet.value.id), r) <==>
            Reaches(traffic, s.ipSet, s.acl.rules, priority, r)
  {
    var allow := BuildAllowRule(ruleName, priority, s.ipSet.value.id);
    assert Effect(traffic, t.ipSet, allow, r) == Some(Allow);
    assert t.acl.rules[|s.acl.rules|] == allow;
    var best := SomeRuleDecides(traffic, t, t.acl.rules, r);
    assert Decides(traffic, t, best, r);
    assert forall rule :: rule in t.acl.rules <==> rule in s.acl.rules || rule == allow;
    if Reaches(traffic, s.ipSet, s.acl.rules, priority, r) {
      assert Decides(traffic, t, allow, r);
    }
  }

  /** A request from the IPSet that no rule before the added one stops is allowed, whatever the rules
      after it and the default action say. */
  lemma InsideIsAllowed<R>(traffic: Traffic<R>, ruleName: string, priority: int, s: Server, t: Server, r: R, a: Action)
    requires AllowRuleAppended(ruleName, priority, s, t) && InIpSet(traffic, s.ipSet, r)
    requires Reaches(traffic, s.ipSet, s.acl.rules, priority, r)
    ensures Verdict(traffic, t, r, a) <==> a == Allow
  {
    InsideEscapesTheRateRule(traffic, ruleName, priority, s, t, r);
    var allow := BuildAllowRule(ruleName, priority, s.ipSet.value.id);
    assert Decides(traffic, t, allow, r);
    assert Effect(traffic, t.ipSet, allow, r) == Some(Allow);
    forall rule | Decides(traffic, t, rule, r) ensures rule == allow {
      SamePriorityIsSameRule(t.acl.rules, rule, allow);
    }
  }

  /** The service with the allow rule taken out again: what it would decide had the rule not been added. */
  ghost function Without(ruleName: string, s: Server): Server {
    s.(acl := s.acl.(rules := Others(s.acl.rules, ruleName)))
  }

  // ---------------------------------------------------------------- against the state before any call

  /** The IPSet keeps its id, and a new one gets an id not used before. */
  ghost predicate IdsAreFresh(s: Server, t: Server) {
    && s.ipToken <= t.ipToken && (s.ipSet.Some? ==> Holds(t, s.ipSet.value.id))
    && (s.ipSet.None? && t.ipSet.Some? ==> t.ipSet.value.id > s.ipToken)
  }

  lemma StepKeepsIds(ruleName: string, call: Call, pc: Pc, t: Server, f: Fault, s: Server)
    requires call.Apply? && IdsAreFresh(s, t)
    ensures IdsAreFresh(s, Step(ruleName, call, pc, t, f).1)
  {
  }

  lemma {:induction false} RunKeepsIds(ruleName: string, calls: seq<Call>, s: Server, schedule: seq<Move>)
    requires AllApply(calls)
    ensures IdsAreFresh(s, Run(ruleName, calls, s, schedule).server)
  {
    if schedule != [] {
      var before, m := schedule[..|schedule| - 1], schedule[|schedule| - 1];
      RunKeepsIds(ruleName, calls, s, before);
      var sys := Run(ruleName, calls, s, before);
      if m.who < |calls| {
        StepKeepsIds(ruleName, calls[m.who], sys.pcs[m.who], sys.server, m.fault, s);
      }
    }
  }

  /** No rule refers to an IPSet that does not exist yet. */
  ghost predicate NoForwardReference(s: Server) {
    s.ipSet.None? ==>
      forall rule :: rule in s.acl.rules && rule.statement.IpSetReference? ==> rule.statement.arn <= s.ipToken
  }

  lemma SameEffect<R>(traffic: Traffic<R>, s: Server, t: Server, rule: Rule, r: R)
    requires IdsAreFresh(s, t) && Addresses(s) <= Addresses(t) && NoForwardReference(s)
    requires rule in s.acl.rules && !InIpSet(traffic, t.ipSet, r)
    ensures Effect(traffic, s.ipSet, rule, r) == Effect(traffic, t.ipSet, rule, r)
  {
    if s.ipSet.Some? {
      forall c | c in s.ipSet.value.addresses ensures !traffic.from(c, r) {
        var i :| 0 <= i < |Addresses(s)| && Addresses(s)[i] == c;
        assert Addresses(t)[i] == c;
      }
    }
  }

  /** Rules that do not match the request, added at the end, do not change its verdict. */
  lemma SameVerdict<R>(traffic: Traffic<R>, s: Server, t: Server, r: R, a: Action)
    requires s.acl.rules <= t.acl.rules && s.acl.defaultAction == t.acl.defaultAction
    requires forall q :: q in s.acl.rules ==> Effect(traffic, s.ipSet, q, r) == Effect(traffic, t.ipSet, q, r)
    requires forall q :: q in t.acl.rules && q !in s.acl.rules ==> Effect(traffic, t.ipSet, q, r).None?
    ensures Verdict(traffic, s, r, a) <==> Verdict(traffic, t, r, a)
  {
    assert forall q :: q in s.acl.rules ==> q in t.acl.rules;
    forall rule ensures Decides(traffic, s, rule, r) <==> Decides(traffic, t, rule, r) {
    }
  }

  /** At every moment of every interleaving, whether any call has returned or not, a request from no
      address of the IPSet gets the verdict it got before the calls began. */
  lemma OutsideKeepsItsVerdict<R>(traffic: Traffic<R>, ruleName: string, calls: seq<Call>, s: Server,
                                  schedule: seq<Move>, r: R, a: Action)
    requires AllApply(calls) && Fresh(ruleName, s) && NoForwardReference(s)
    requires !InIpSet(traffic, Run(ruleName, calls, s, schedule).server.ipSet, r)
    ensures Verdict(traffic, Run(ruleName, calls, s, schedule).server, r, a) <==> Verdict(traffic, s, r, a)
  {
    var end := Run(ruleName, calls, s, schedule);
    RunKeepsIds(ruleName, calls, s, schedule);
    NoLostUpdate(ruleName, calls, s, schedule, 0);
    RunAddsOnce(ruleName, calls, s, schedule);
    forall q | q in s.acl.rules ensures Effect(traffic, s.ipSet, q, r) == Effect(traffic, end.server.ipSet, q, r) {
      SameEffect(traffic, s, end.server, q, r);
    }
    if !NotAdded(end, s) {
      var k: nat :| AddedBy(ruleName, calls, end, s, k);
      var allow := BuildAllowRule(ruleName, calls[k].priority, end.server.ipSet.value.id);
      assert forall q :: q in end.server.acl.rules && q !in s.acl.rules ==> q == allow;
    }
    SameVerdict(traffic, s, end.server, r, a);
  }

  // ---------------------------------------------------------------- when an apply has its effect

  /** A request is decided, and before the rate rule. */
  ghost predicate DecidedEarly<R>(t: Traffic<R>, s: Server, r: R) {
    && (exists rule :: Decides(t, s, rule, r))
    && (forall rule :: Decides(t, s, rule, r) ==> rule.priority < RATE_RULE_PRIORITY)
  }

  ghost predicate RefersTo(rule: Rule, ips: Option<IpSet>) {
    ips.Some? && rule.statement == IpSetReference(ips.value.id)
  }

  /** A rule before the rate rule lets the addresses of the current IPSet through, and no rule up to it
      turns them away. */
  ghost predicate Backing(s: Server, rule: Rule) {
    && RefersTo(rule, s.ipSet) && rule.priority < RATE_RULE_PRIORITY
    && forall q :: q in s.acl.rules && RefersTo(q, s.ipSet) && q.priority <= rule.priority ==> q.action == Allow
  }

  ghost predicate Backed(s: Server) {
    exists rule :: rule in s.acl.rules && Backing(s, rule)
  }

  /** Of the rules before the rate rule, none but those on the IPSet ends the evaluation. */
  ghost predicate OthersPass<R>(t: Traffic<R>, s: Server, r: R) {
    forall q :: q in s.acl.rules && q.priority < RATE_RULE_PRIORITY && !RefersTo(q, s.ipSet) ==> t.judge(q, r).None?
  }

  /** A request is decided before the rate rule, and allowed unless some other rule there stops it. */
  ghost predicate LetThrough<R>(t: Traffic<R>, s: Server, r: R) {
    && DecidedEarly(t, s, r)
    && (OthersPass(t, s, r) ==> forall a :: Verdict(t, s, r, a) <==> a == Allow)
  }

  /** Whatever the other rules judge and wherever requests come from, r is let through if it comes from
      one of the CIDRs. */
  ghost predicate Effective<R(!new)>(s: Server, cidrs: seq<Cidr>, r: R) {
    forall t: Traffic<R> :: (exists c :: c in cidrs && t.from(c, r)) ==> LetThrough(t, s, r)
  }

  lemma ReferringIsEarly<R>(t: Traffic<R>, s: Server, rule: Rule, r: R) returns (best: Rule)
    requires rule in s.acl.rules && RefersTo(rule, s.ipSet) && rule.priority < RATE_RULE_PRIORITY
    requires InIpSet(t, s.ipSet, r)
    ensures DecidedEarly(t, s, r) && Decides(t, s, best, r) && best.priority <= rule.priority
  {
    assert Effect(t, s.ipSet, rule, r).Some?;
    best := SomeRuleDecides(t, s, s.acl.rules, r);
    assert Decides(t, s, best, r);
  }

  lemma BackedLetsThrough<R>(t: Traffic<R>, s: Server, r: R)
    requires Backed(s) && InIpSet(t, s.ipSet, r)
    ensures LetThrough(t, s, r)
  {
    var rule :| rule in s.acl.rules && Backing(s, rule);
    var best := ReferringIsEarly(t, s, rule, r);
    if OthersPass(t, s, r) {
      forall q | Decides(t, s, q, r) ensures Effect(t, s.ipSet, q, r) == Some(Allow) {
        assert q.priority <= best.priority;
        assert RefersTo(q, s.ipSet);
      }
    }
  }

  /** A list of CIDRs that is in the IPSet has its effect if and only if a rule before the rate rule
      allows that IPSet, and no rule up to it blocks it. */
  lemma EffectiveIff<R(!new)>(s: Server, cidrs: seq<Cidr>, r: R)
    requires s.ipSet.Some? && cidrs != [] && AllIn(cidrs, s.ipSet.value.addresses)
    ensures Effective(s, cidrs, r) <==> Backed(s)
  {
    if Backed(s) {
      forall t: Traffic<R> | exists c :: c in cidrs && t.from(c, r) ensures LetThrough(t, s, r) {
        BackedLetsThrough(t, s, r);
      }
    }
    if Effective(s, cidrs, r) {
      var t: Traffic<R> := Traffic((c, x) => true, (rule, x) => None);
      assert cidrs[0] in cidrs && t.from(cidrs[0], r);
      assert LetThrough(t, s, r);
      var rule :| Decides(t, s, rule, r);
      assert RefersTo(rule, s.ipSet);
      forall q | q in s.acl.rules && RefersTo(q, s.ipSet) && q.priority <= rule.priority ensures q.action == Allow {
        assert Effect(t, s.ipSet, q, r) == Some(q.action);
        assert Decides(t, s, q, r);
        assert Verdict(t, s, r, q.action);
      }
      assert Backing(s, rule);
    }
  }

  /** After any apply has returned, in any interleaving and from any WebACL, whether or not it carries the
      rule already: its CIDRs are let through if and only if a rule there allows the current IPSet. The tool
      looks at the rule's name only. */
  lemma ApplyIsEffectiveIff<R(!new)>(ruleName: string, calls: seq<Call>, s: Server, schedule: seq<Move>, i: nat, r: R)
    requires AllApply(calls) && NoDup(Addresses(s)) && i < |calls| && calls[i].cidrs != []
    requires Run(ruleName, calls, s, schedule).pcs[i].Returned?
    ensures var end := Run(ruleName, calls, s, schedule).server;
            Effective(end, calls[i].cidrs, r) <==> Backed(end)
  {
    var end := Run(ruleName, calls, s, schedule);
    RunIsSound(ruleName, calls, s, schedule);
    assert Local(ruleName, calls[i], end.pcs[i], end.server);
    EffectiveIff(end.server, calls[i].cidrs, r);
  }

  /** What one added rule does for a request: outside the IPSet nothing, inside it is decided before the
      rate rule, and allowed if no original rule before the added one stops it. */
  ghost predicate DoesItsJob<R>(t: Traffic<R>, ruleName: string, priority: int, s: Server, end: Server, r: R,
                                a: Action)
  {
    && (!InIpSet(t, end.ipSet, r) ==> (Verdict(t, end, r, a) <==> Verdict(t, Without(ruleName, end), r, a)))
    && (InIpSet(t, end.ipSet, r) ==> DecidedEarly(t, end, r))
    && (InIpSet(t, end.ipSet, r) && Reaches(t, end.ipSet, s.acl.rules, priority, r) ==>
        (Verdict(t, end, r, a) <==> a == Allow))
  }

  lemma AppendedDoesItsJob<R>(traffic: Traffic<R>, ruleName: string, priority: int, s: Server, end: Server, r: R,
                              a: Action)
    requires s.acl.rules == Without(ruleName, end).acl.rules
    requires AllowRuleAppended(ruleName, priority, Without(ruleName, end), end)
    ensures DoesItsJob(traffic, ruleName, priority, s, end, r, a)
  {
    var without := Without(ruleName, end);
    if !InIpSet(traffic, end.ipSet, r) {
      OutsideIsUntouched(traffic, ruleName, priority, without, end, r, a);
    } else {
      InsideEscapesTheRateRule(traffic, ruleName, priority, without, end, r);
      if Reaches(traffic, end.ipSet, s.acl.rules, priority, r) {
        InsideIsAllowed(traffic, ruleName, priority, without, end, r, a);
      }
    }
  }

  /** No rule of the WebACL blocks the tool's IPSet, be it there or yet to be made. */
  ghost predicate NoneBlocksTheIpSet(s: Server) {
    NoForwardReference(s) && forall q :: q in s.acl.rules && RefersTo(q, s.ipSet) ==> q.action == Allow
  }

  /** The call whose rule is the one added. */
  ghost predicate Adder(ruleName: string, calls: seq<Call>, s: Server, end: System, k: nat) {
    && k < |calls| == |end.pcs| && calls[k].Apply? && end.pcs[k] == Returned(true)
    && AllowRuleAppended(ruleName, calls[k].priority, Without(ruleName, end.server), end.server)
    && Without(ruleName, end.server).acl.rules == s.acl.rules
  }

  lemma AdderExists(ruleName: string, calls: seq<Call>, s: Server, schedule: seq<Move>, i: nat) returns (k: nat)
    requires AllApply(calls) && Fresh(ruleName, s) && i < |calls|
    requires Run(ruleName, calls, s, schedule).pcs[i].Returned?
    ensures Adder(ruleName, calls, s, Run(ruleName, calls, s, schedule), k)
  {
    var end := Run(ruleName, calls, s, schedule);
    RunIsSound(ruleName, calls, s, schedule);
    RuleAddedOnce(ruleName, calls, s, schedule);
    assert Local(ruleName, calls[i], end.pcs[i], end.server);
    k :| 0 <= k < |calls| && end.pcs[k] == Returned(true) &&
         end.server.acl.rules == s.acl.rules +
           [BuildAllowRule(ruleName, calls[k].priority, end.server.ipSet.value.id)];
    assert Local(ruleName, calls[k], end.pcs[k], end.server);
  }

  /** From a WebACL without the rule, a return means that one call added its rule, and that the rule does
      its job for every request, at any later moment too; and the WebACL backs the IPSet if no rule blocked
      it before. */
  lemma FirstApplyIsBacked<R>(traffic: Traffic<R>, ruleName: string, calls: seq<Call>, s: Server,
                              schedule: seq<Move>, i: nat, r: R, a: Action)
    requires AllApply(calls) && Fresh(ruleName, s) && i < |calls|
    requires Run(ruleName, calls, s, schedule).pcs[i].Returned?
    ensures var end := Run(ruleName, calls, s, schedule);
            && (NoneBlocksTheIpSet(s) ==> Backed(end.server))
            && exists k: nat :: Adder(ruleName, calls, s, end, k) &&
                                DoesItsJob(traffic, ruleName, calls[k].priority, s, end.server, r, a)
  {
    var end := Run(ruleName, calls, s, schedule);
    var k := AdderExists(ruleName, calls, s, schedule, i);
    AppendedDoesItsJob(traffic, ruleName, calls[k].priority, s, end.server, r, a);
    if NoneBlocksTheIpSet(s) {
      RunKeepsIds(ruleName, calls, s, schedule);
      AddedRuleBacks(ruleName, calls[k].priority, s, end.server);
    }
  }

  lemma AddedRuleBacks(ruleName: string, priority: int, s: Server, end: Server)
    requires AllowRuleAppended(ruleName, priority, Without(ruleName, end), end)
    requires Without(ruleName, end).acl.rules == s.acl.rules && NoneBlocksTheIpSet(s) && IdsAreFresh(s, end)
    ensures Backed(end)
  {
    var allow := BuildAllowRule(ruleName, priority, end.ipSet.value.id);
    assert end.acl.rules[|s.acl.rules|] == allow;
    assert forall q :: q in end.acl.rules ==> q in s.acl.rules || q == allow;
    assert allow in end.acl.rules && Backing(end, allow);
  }

  /** End to end, over every interleaving and from any WebACL: once an apply call has returned, its CIDRs
      are let through if and only if a rule allows the current IPSet before the rate rule; that is so
      whenever the WebACL began without the rule and blocked the IPSet nowhere; and without the latter they
      are decided before the rate rule all the same. */
  lemma AllowlistIsEffective<R(!new)>(traffic: Traffic<R>, ruleName: string, calls: seq<Call>, s: Server,
                                      schedule: seq<Move>, i: nat, r: R)
    requires AllApply(calls) && NoDup(Addresses(s)) && i < |calls| && calls[i].cidrs != []
    requires Run(ruleName, calls, s, schedule).pcs[i].Returned?
    ensures var end := Run(ruleName, calls, s, schedule).server;
            && (Effective(end, calls[i].cidrs, r) <==> Backed(end))
            && (Fresh(ruleName, s) && NoneBlocksTheIpSet(s) ==> Effective(end, calls[i].cidrs, r))
            && (Fresh(ruleName, s) && (exists c :: c in calls[i].cidrs && traffic.from(c, r)) ==>
                DecidedEarly(traffic, end, r))
  {
    ApplyIsEffectiveIff(ruleName, calls, s, schedule, i, r);
    if Fresh(ruleName, s) {
      FirstApplyIsBacked(traffic, ruleName, calls, s, schedule, i, r, Allow);
      if c :| c in calls[i].cidrs && traffic.from(c, r) {
        var end := Run(ruleName, calls, s, schedule);
        RunIsSound(ruleName, calls, s, schedule);
        assert Local(ruleName, calls[i], end.pcs[i], end.server);
        assert c in end.server.ipSet.value.addresses;
      }
    }
  }

  /** The rules stay, and only allowing ones are added. */
  lemma {:induction false} RulesStay(ruleName: string, calls: seq<Call>, s: Server, schedule: seq<Move>)
    requires AllApply(calls) && NoDup(Addresses(s))
    ensures s.acl.rules <= Run(ruleName, calls, s, schedule).server.acl.rules
    ensures forall q :: q in Run(ruleName, calls, s, schedule).server.acl.rules ==>
              q in s.acl.rules || q.action == Allow
  {
    if schedule != [] {
      var before, m := schedule[..|schedule| - 1], schedule[|schedule| - 1];
      var sys := Run(ruleName, calls, s, before);
      RulesStay(ruleName, calls, s, before);
      RunIsSound(ruleName, calls, s, before);
      if m.who < |calls| {
        assert Local(ruleName, calls[m.who], sys.pcs[m.who], sys.server);
      }
    }
  }

  /** A re-run on a WebACL whose rule allows the IPSet has its effect, as a first run has. */
  lemma ReRunIsEffective<R(!new)>(ruleName: string, calls: seq<Call>, s: Server, schedule: seq<Move>, i: nat, r: R)
    requires AllApply(calls) && NoDup(Addresses(s)) && i < |calls| && calls[i].cidrs != []
    requires Run(ruleName, calls, s, schedule).pcs[i].Returned? && Backed(s)
    ensures Effective(Run(ruleName, calls, s, schedule).server, calls[i].cidrs, r)
  {
    var end := Run(ruleName, calls, s, schedule).server;
    RulesStay(ruleName, calls, s, schedule);
    RunKeepsIds(ruleName, calls, s, schedule);
    var rule :| rule in s.acl.rules && Backing(s, rule);
    assert rule in end.acl.rules && Backing(end, rule);
    ApplyIsEffectiveIff(ruleName, calls, s, schedule, i, r);
  }

  /** Undisturbed moves of call 0. */
  function Smooth(n: nat): seq<Move> {
    if n == 0 then [] else Smooth(n - 1) + [Move(0, NoFault)]
  }

  /** After n of them the lone call is at pc and the service as it was. */
  ghost predicate Idles(ruleName: string, call: Call, s: Server, n: nat, pc: Pc) {
    Run(ruleName, [call], s, Smooth(n)) == System(s, [pc])
  }

  lemma IdlesOn(ruleName: string, call: Call, s: Server, n: nat, pc: Pc, next: Pc)
    requires Idles(ruleName, call, s, n, pc) && Step(ruleName, call, pc, s, NoFault) == (next, s)
    ensures Idles(ruleName, call, s, n + 1, next)
  {
    assert Smooth(n + 1)[..|Smooth(n + 1)| - 1] == Smooth(n);
    assert [pc][0 := next] == [next];
  }

  /** What a repeated apply meets: its CIDRs are in the IPSet, and a rule of the name is in the WebACL. */
  ghost predicate AlreadyThere(ruleName: string, call: Call, s: Server) {
    && call.Apply? && call.cidrs != [] && call.retries >= 0 && call.priority < RATE_RULE_PRIORITY
    && s.ipSet.Some? && NoDup(s.ipSet.value.addresses) && AllIn(call.cidrs, s.ipSet.value.addresses)
    && ScanRules(s.acl.rules, ruleName, call.priority) == Present
  }

  /** A repeated apply is a no-op: it returns without change. */
  lemma RepeatedApplyIsANoOp(ruleName: string, call: Call, s: Server)
    requires AlreadyThere(ruleName, call, s)
    ensures Idles(ruleName, call, s, 4, Returned(false))
  {
    var id := s.ipSet.value.id;
    DedupeKeepsPrefix(s.ipSet.value.addresses, call.cidrs);
    assert Idles(ruleName, call, s, 0, Finding);
    IdlesOn(ruleName, call, s, 0, Finding, MergeFetch(id, 0));
    IdlesOn(ruleName, call, s, 1, MergeFetch(id, 0), Merged(id));
    IdlesOn(ruleName, call, s, 2, Merged(id), RuleFetch(id, 0));
    IdlesOn(ruleName, call, s, 3, RuleFetch(id, 0), Returned(false));
  }

  /** A rule of the name that does not allow the current IPSet: the apply returns as if all were well, and has no
      effect. */
  lemma StaleRuleHasNoEffect<R(!new)>(ruleName: string, call: Call, s: Server, r: R)
    requires AlreadyThere(ruleName, call, s) && !Backed(s)
    ensures var end := Run(ruleName, [call], s, Smooth(4));
            end.pcs[0] == Returned(false) && !Effective(end.server, call.cidrs, r)
  {
    RepeatedApplyIsANoOp(ruleName, call, s);
    EffectiveIff(s, call.cidrs, r);
  }

  /** Such an input: the rule was left over when the IPSet it names was deleted and made again. */
  lemma StaleRuleExample(c: Cidr)
    ensures var rule := BuildAllowRule("perf", 50, 1);
            var s := Server(Some(IpSet(3, [c])), 3, WebAcl(Allow, "", map[], [rule]), 5);
            AlreadyThere("perf", Apply([c], 50, 0), s) && !Backed(s)
  {
    var rules := [BuildAllowRule("perf", 50, 1)];
    assert rules[0].name == "perf";
  }
}
