/** Runs in which the service answers truthfully: the retry budget that always suffices, and
    exactly when the unguarded create can fail a call (scripts/perf_waf_allowlist.py). */
module WafBudget {
  import opened Common
  import opened WafServer
  import opened WafProtocol
  import opened WafInterleaving

  /** The service injects no error of its own; a stale token or a duplicate create still fails. */
  ghost predicate Truthful(schedule: seq<Move>) {
    forall k :: 0 <= k < |schedule| ==> schedule[k].fault == NoFault
  }

  /** The calls that are no longer in ensure_ip_set. */
  ghost function LeftIpSet(pcs: seq<Pc>): set<int> {
    set i | 0 <= i < |pcs| && !InIpSetPhase(pcs[i])
  }

  /** Each failed attempt is paid for by another call's successful write: an attempt's number is at
      most one more than the writes seen, and a call writes the IPSet only as it leaves that phase. */
  ghost predicate Paid(pc: Pc, sys: System, s: Server) {
    match pc
    case MergeFetch(_, t) => t <= sys.server.ipToken - s.ipToken
    case MergeStore(_, t, _, token) => t <= token - s.ipToken + 1
    case RuleFetch(_, t) => t <= sys.server.aclToken - s.aclToken
    case RuleStore(_, t, _, token) => t <= token - s.aclToken + 1
    case _ => true
  }

  ghost predicate Frugal(calls: seq<Call>, sys: System, s: Server) {
    && |sys.pcs| == |calls|
    && sys.server.ipToken - s.ipToken <= |LeftIpSet(sys.pcs)|
    && s.ipToken <= sys.server.ipToken
    && (forall i :: 0 <= i < |calls| ==> Paid(sys.pcs[i], sys, s) && sys.pcs[i] != Raised(OutOfRetries))
  }

  /** While one call is still in ensure_ip_set, at most n - 1 have left it. */
  lemma SomeoneRemains(pcs: seq<Pc>, k: int)
    requires 0 <= k < |pcs| && InIpSetPhase(pcs[k])
    ensures |LeftIpSet(pcs)| <= |pcs| - 1
  {
    var others := Range(|pcs|) - {k};
    RangeSize(|pcs|);
    assert LeftIpSet(pcs) <= others;
    SubsetSize(LeftIpSet(pcs), others);
  }

  lemma LeavingCounts(pcs: seq<Pc>, k: nat, pc: Pc)
    requires k < |pcs| && InIpSetPhase(pcs[k])
    ensures |LeftIpSet(pcs[k := pc])| == |LeftIpSet(pcs)| + if InIpSetPhase(pc) then 0 else 1
  {
    if InIpSetPhase(pc) {
      assert LeftIpSet(pcs[k := pc]) == LeftIpSet(pcs);
    } else {
      assert LeftIpSet(pcs[k := pc]) == LeftIpSet(pcs) + {k as int};
    }
  }

  ghost predicate AmpleRetries(calls: seq<Call>) {
    forall i :: 0 <= i < |calls| ==> calls[i].Apply? && calls[i].retries >= |calls| - 1
  }

  /** The tokens behind the WebACL: it is written at most once, so its token moves at most once. */
  lemma AclTokenMovesOnce(ruleName: string, calls: seq<Call>, sys: System, s: Server)
    requires |sys.pcs| == |calls| && AllApply(calls) && AddedAtMostOnce(ruleName, calls, sys, s)
    ensures s.aclToken <= sys.server.aclToken <= s.aclToken + 1
  {
  }

  /** A call that is not the only one to have written the WebACL is not alone. */
  lemma StaleMeansAnother(ruleName: string, calls: seq<Call>, sys: System, s: Server, k: nat)
    requires |sys.pcs| == |calls| && AllApply(calls) && AddedAtMostOnce(ruleName, calls, sys, s)
    requires k < |calls| && !sys.pcs[k].Returned? && sys.server.aclToken != s.aclToken
    ensures |calls| >= 2
  {
  }

  /** The moving call stays paid up, and never runs out. */
  lemma OwnStepIsPaid(ruleName: string, calls: seq<Call>, sys: System, s: Server, k: nat)
    requires AmpleRetries(calls) && Sound(ruleName, calls, sys) && AddedAtMostOnce(ruleName, calls, sys, s)
    requires Frugal(calls, sys, s) && k < |calls|
    ensures var next := Advance(ruleName, calls, sys, Move(k, NoFault));
            next.pcs[k] != Raised(OutOfRetries) && Paid(next.pcs[k], next, s)
  {
    var pc := sys.pcs[k];
    assert Local(ruleName, calls[k], pc, sys.server) && Paid(pc, sys, s) && calls[k].retries >= |calls| - 1;
    AclTokenMovesOnce(ruleName, calls, sys, s);
    if InIpSetPhase(pc) {
      SomeoneRemains(sys.pcs, k);
    } else if InRulePhase(pc) && sys.server.aclToken != s.aclToken {
      StaleMeansAnother(ruleName, calls, sys, s, k);
    }
  }

  lemma FrugalAdvance(ruleName: string, calls: seq<Call>, sys: System, s: Server, k: nat)
    requires AmpleRetries(calls) && Sound(ruleName, calls, sys) && AddedAtMostOnce(ruleName, calls, sys, s)
    requires Frugal(calls, sys, s)
    ensures Frugal(calls, Advance(ruleName, calls, sys, Move(k, NoFault)), s)
  {
    var next := Advance(ruleName, calls, sys, Move(k, NoFault));
    if k < |calls| {
      assert Local(ruleName, calls[k], sys.pcs[k], sys.server);
      OwnStepIsPaid(ruleName, calls, sys, s, k);
      TokensMove(ruleName, calls, sys, k);
      if InIpSetPhase(sys.pcs[k]) {
        LeavingCounts(sys.pcs, k, next.pcs[k]);
      } else {
        assert LeftIpSet(next.pcs) == LeftIpSet(sys.pcs);
      }
    }
  }

  /** Tokens never go back, and the IPSet's moves only as a call leaves ensure_ip_set. */
  lemma TokensMove(ruleName: string, calls: seq<Call>, sys: System, k: nat)
    requires |sys.pcs| == |calls| && AllApply(calls) && k < |calls|
    ensures var next := Advance(ruleName, calls, sys, Move(k, NoFault));
            && sys.server.aclToken <= next.server.aclToken
            && sys.server.ipToken <= next.server.ipToken <=
               sys.server.ipToken + (if InIpSetPhase(sys.pcs[k]) && !InIpSetPhase(next.pcs[k]) then 1 else 0)
            && (!InIpSetPhase(sys.pcs[k]) ==> !InIpSetPhase(next.pcs[k]))
  {
  }

  lemma {:induction false} TruthfulRunIsFrugal(ruleName: string, calls: seq<Call>, s: Server, schedule: seq<Move>)
    requires AmpleRetries(calls) && Fresh(ruleName, s) && Truthful(schedule)
    ensures Frugal(calls, Run(ruleName, calls, s, schedule), s)
  {
    if schedule != [] {
      var before := schedule[..|schedule| - 1];
      TruthfulRunIsFrugal(ruleName, calls, s, before);
      RunIsSound(ruleName, calls, s, before);
      RunAddsOnce(ruleName, calls, s, before);
      FrugalAdvance(ruleName, calls, Run(ruleName, calls, s, before), s, schedule[|schedule| - 1].who);
    }
  }

  /** A sufficient retry budget: with n concurrent apply calls, each allowed n - 1 retries, and a service
      that injects no error of its own, no interleaving ever exhausts a budget. */
  lemma BudgetSuffices(ruleName: string, calls: seq<Call>, s: Server, schedule: seq<Move>, i: nat)
    requires AmpleRetries(calls) && Fresh(ruleName, s) && Truthful(schedule) && i < |calls|
    ensures Run(ruleName, calls, s, schedule).pcs[i] != Raised(OutOfRetries)
  {
    TruthfulRunIsFrugal(ruleName, calls, s, schedule);
  }

  // ---------------------------------------------------------------- the create is not guarded

  /** No call ever sees its create, fetch or update refused, in any truthful run. */
  ghost predicate NeverRefused(ruleName: string, calls: seq<Call>, s: Server) {
    forall schedule, i :: Truthful(schedule) && 0 <= i < |calls| ==>
      Run(ruleName, calls, s, schedule).pcs[i] != Raised(Refused)
  }

  ghost predicate Unraced(calls: seq<Call>, sys: System) {
    && |sys.pcs| == |calls|
    && (forall i :: 0 <= i < |calls| ==> sys.pcs[i] != Raised(Refused))
    && (forall i :: 0 <= i < |calls| && sys.pcs[i] == Creating ==> sys.server.ipSet.None? && |calls| == 1)
  }

  lemma UnracedAdvance(ruleName: string, calls: seq<Call>, sys: System, k: nat)
    requires Sound(ruleName, calls, sys) && Unraced(calls, sys)
    requires sys.server.ipSet.Some? || |calls| <= 1
    ensures Unraced(calls, Advance(ruleName, calls, sys, Move(k, NoFault)))
    ensures sys.server.ipSet.Some? ==> Advance(ruleName, calls, sys, Move(k, NoFault)).server.ipSet.Some?
  {
    if k < |calls| {
      assert Local(ruleName, calls[k], sys.pcs[k], sys.server);
    }
  }

  lemma {:induction false} UnracedRun(ruleName: string, calls: seq<Call>, s: Server, schedule: seq<Move>)
    requires AllApply(calls) && NoDup(Addresses(s)) && Truthful(schedule)
    requires s.ipSet.Some? || |calls| <= 1
    ensures Unraced(calls, Run(ruleName, calls, s, schedule))
    ensures s.ipSet.Some? ==> Run(ruleName, calls, s, schedule).server.ipSet.Some?
  {
    if schedule != [] {
      var before := schedule[..|schedule| - 1];
      UnracedRun(ruleName, calls, s, before);
      RunIsSound(ruleName, calls, s, before);
      UnracedAdvance(ruleName, calls, Run(ruleName, calls, s, before), schedule[|schedule| - 1].who);
    }
  }

  /** Two calls that both list before either creates: the second create is refused. */
  lemma CreateRace(ruleName: string, calls: seq<Call>, s: Server)
    requires AllApply(calls) && s.ipSet.None? && |calls| >= 2
    ensures var race := [Move(0, NoFault), Move(1, NoFault), Move(0, NoFault), Move(1, NoFault)];
            Run(ruleName, calls, s, race).pcs[1] == Raised(Refused)
  {
    var m0, m1 := Move(0, NoFault), Move(1, NoFault);
    var race := [m0, m1, m0, m1];
    assert race[..3][..2] == race[..2];
    assert race[..2][..1] == race[..1];
    assert race[..1][..0] == [];
    var after1 := Advance(ruleName, calls, Begin(s, calls), m0);
    assert after1.pcs[0] == Creating && after1.pcs[1] == Finding && after1.server == s;
    var after2 := Advance(ruleName, calls, after1, m1);
    assert after2.pcs[0] == Creating && after2.pcs[1] == Creating && after2.server == s;
    var after3 := Advance(ruleName, calls, after2, m0);
    assert after3.pcs[1] == Creating && after3.server.ipSet.Some?;
    assert Run(ruleName, calls, s, race[..1]) == after1;
    assert Run(ruleName, calls, s, race[..2]) == after2;
    assert Run(ruleName, calls, s, race[..3]) == after3;
  }

  /** The create has no retry, so concurrent first applies are not always merged: with a truthful
      service, no apply call is ever refused if and only if the IPSet already exists or there is at
      most one call. */
  lemma CreateIsSafeIff(ruleName: string, calls: seq<Call>, s: Server)
    requires AllApply(calls) && NoDup(Addresses(s))
    ensures NeverRefused(ruleName, calls, s) <==> s.ipSet.Some? || |calls| <= 1
  {
    if s.ipSet.Some? || |calls| <= 1 {
      forall schedule, i | Truthful(schedule) && 0 <= i < |calls|
        ensures Run(ruleName, calls, s, schedule).pcs[i] != Raised(Refused)
      {
        UnracedRun(ruleName, calls, s, schedule);
      }
    } else {
      CreateRace(ruleName, calls, s);
      assert Truthful([Move(0, NoFault), Move(1, NoFault), Move(0, NoFault), Move(1, NoFault)]);
    }
  }
}
