/** Applies and removes at the same time: no interleaving of them touches a rule of any other name
    (scripts/perf_waf_allowlist.py). */
module WafMixed {
  import opened WafServer
  import opened WafProtocol
  import opened WafHistory

  /** What a call has fetched is no newer than the WebACL, and if it is as new it is the WebACL. */
  ghost predicate NotNewer(pc: Pc, s: Server) {
    pc.RuleStore? || pc.UnlinkStore? ==> pc.token <= s.aclToken && (pc.token == s.aclToken ==> pc.acl == s.acl)
  }

  ghost predicate AllNotNewer(sys: System) {
    forall i :: 0 <= i < |sys.pcs| ==> NotNewer(sys.pcs[i], sys.server)
  }

  /** A write is numbered anew, so what others fetched before it stays older. */
  ghost predicate AclMoves(s: Server, t: Server) {
    s.aclToken <= t.aclToken && (s.aclToken == t.aclToken ==> s.acl == t.acl)
  }

  lemma StoredRules(ruleName: string, rules: seq<Rule>, rule: Rule)
    requires rule.name == ruleName
    ensures Others(rules + [rule], ruleName) == Others(rules, ruleName)
    ensures Others(Others(rules, ruleName), ruleName) == Others(rules, ruleName)
  {
    OthersAppend(rules, [rule], ruleName);
    assert Others([rule], ruleName) == Others([], ruleName) == [];
    OthersIdempotent(rules, ruleName);
  }

  lemma StepLeavesOthers(ruleName: string, call: Call, pc: Pc, s: Server, f: Fault)
    requires NotNewer(pc, s)
    ensures var (pc', s') := Step(ruleName, call, pc, s, f);
            NotNewer(pc', s') && AclMoves(s, s') && SameOtherwise(ruleName, s, s')
  {
    if pc.RuleStore? && call.Apply? {
      StoredRules(ruleName, pc.acl.rules, BuildAllowRule(ruleName, call.priority, pc.arn));
    } else if pc.UnlinkStore? {
      OthersIdempotent(pc.acl.rules, ruleName);
    }
  }

  lemma AdvanceLeavesOthers(ruleName: string, calls: seq<Call>, sys: System, m: Move)
    requires |sys.pcs| == |calls| && AllNotNewer(sys)
    ensures var next := Advance(ruleName, calls, sys, m);
            AllNotNewer(next) && SameOtherwise(ruleName, sys.server, next.server)
  {
    if m.who < |calls| {
      StepLeavesOthers(ruleName, calls[m.who], sys.pcs[m.who], sys.server, m.fault);
    }
  }

  lemma BeginIsNotNewer(s: Server, calls: seq<Call>)
    ensures AllNotNewer(Begin(s, calls))
  {
  }

  lemma {:induction false} RunLeavesOthers(ruleName: string, calls: seq<Call>, s: Server, schedule: seq<Move>)
    ensures AllNotNewer(Run(ruleName, calls, s, schedule))
    ensures SameOtherwise(ruleName, s, Run(ruleName, calls, s, schedule).server)
  {
    if schedule == [] {
      BeginIsNotNewer(s, calls);
    } else {
      var before := schedule[..|schedule| - 1];
      RunLeavesOthers(ruleName, calls, s, before);
      AdvanceLeavesOthers(ruleName, calls, Run(ruleName, calls, s, before), schedule[|schedule| - 1]);
    }
  }

  /** For any mix of concurrent applies and removes, from any state and whatever goes wrong: the rules of
      every other name stay as they are, in order, and so do default action and visibility. */
  lemma OtherRulesNeverChange(ruleName: string, calls: seq<Call>, s: Server, schedule: seq<Move>)
    ensures var end := Run(ruleName, calls, s, schedule).server;
            && Others(end.acl.rules, ruleName) == Others(s.acl.rules, ruleName)
            && end.acl.defaultAction == s.acl.defaultAction && end.acl.visibility == s.acl.visibility
  {
    RunLeavesOthers(ruleName, calls, s, schedule);
  }
}
