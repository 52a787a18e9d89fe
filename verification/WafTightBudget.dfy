/** The least retry budget that n concurrent apply calls need (scripts/perf_waf_allowlist.py). */
module WafTightBudget {
  import opened Common
  import opened WafServer
  import opened WafProtocol
  import opened WafInterleaving
  import opened WafBudget

  ghost predicate SameBudget(calls: seq<Call>, retries: int) {
    forall i :: 0 <= i < |calls| ==> calls[i].Apply? && calls[i].retries == retries
  }

  /** However n calls with this budget interleave, from whatever fresh state, none runs out of retries. */
  ghost predicate Enough(n: nat, retries: int) {
    forall ruleName: string, calls: seq<Call>, s: Server, schedule: seq<Move>, i: nat ::
      |calls| == n && SameBudget(calls, retries) && Fresh(ruleName, s) && Truthful(schedule) && i < n ==>
        Run(ruleName, calls, s, schedule).pcs[i] != Raised(OutOfRetries)
  }

  // ---------------------------------------------------------------- a victim and its rivals

  function Address(j: nat): (c: Cidr)
    ensures |c| == j
  {
    seq(j, i => '1')
  }

  /** Every call brings an address of its own. */
  function Shards(n: nat, retries: int): (calls: seq<Call>)
    ensures |calls| == n && forall i :: 0 <= i < n ==> calls[i] == Apply([Address(i)], 0, retries)
  {
    seq(n, i requires 0 <= i < n => Apply([Address(i)], 0, retries))
  }

  /** The addresses of calls 1 to j. */
  function Listed(j: nat): (cs: seq<Cidr>)
    ensures |cs| == j && forall i :: 0 <= i < j ==> cs[i] == Address(i + 1)
  {
    seq(j, i requires 0 <= i < j => Address(i + 1))
  }

  lemma DedupeFresh(a: seq<Cidr>, x: Cidr)
    requires NoDup(a) && x !in a
    ensures Dedupe(a + [x]) == a + [x]
  {
    DedupeKeepsPrefix(a, []);
    assert a + [] == a && (a + [x])[..|a|] == a;
  }

  lemma OneMoreListed(j: nat)
    requires j >= 1
    ensures Dedupe(Listed(j - 1) + [Address(j)]) == Listed(j) && Listed(j) != Listed(j - 1)
    ensures Dedupe(Listed(j - 1) + [Address(0)]) != Listed(j - 1)
  {
    var cs := Listed(j - 1);
    assert forall i, k :: 0 <= i < k < |cs| ==> |cs[i]| != |cs[k]|;
    assert forall i :: 0 <= i < |cs| ==> 0 < |cs[i]| < j;
    DedupeFresh(cs, Address(j));
    DedupeFresh(cs, Address(0));
    assert Listed(j) == cs + [Address(j)];
  }

  const EMPTY: Server := Server(Some(IpSet(0, [])), 0, WebAcl(Block, "", map[], []), 0)

  /** After rival j wrote: the victim has failed j times, and the later rivals have not begun. */
  ghost predicate Stage(n: nat, retries: int, sys: System, j: nat) {
    && |sys.pcs| == n && n >= 1
    && sys.pcs[0] == Retry(MergeFetch(0, j), j, retries)
    && (forall i :: j < i < n ==> sys.pcs[i] == Finding)
    && sys.server == EMPTY.(ipSet := Some(IpSet(0, Listed(j))), ipToken := j)
  }

  /** Moves of call k, one after the other. */
  function Go(ruleName: string, calls: seq<Call>, sys: System, k: nat): System
    requires |sys.pcs| == |calls|
  {
    Advance(ruleName, calls, sys, Move(k, NoFault))
  }

  /** Rival j lists, fetches and writes. */
  lemma RivalWrites(ruleName: string, calls: seq<Call>, n: nat, retries: int, sys: System, j: nat)
    requires calls == Shards(n, retries) && |sys.pcs| == n && 1 <= j < n && retries >= 0
    requires sys.pcs[j] == Finding && sys.server == EMPTY.(ipSet := Some(IpSet(0, Listed(j - 1))), ipToken := j - 1)
    ensures Go(ruleName, calls, Go(ruleName, calls, Go(ruleName, calls, sys, j), j), j) ==
            System(EMPTY.(ipSet := Some(IpSet(0, Listed(j))), ipToken := j), sys.pcs[j := Merged(0)])
  {
    OneMoreListed(j);
    var a := Go(ruleName, calls, sys, j);
    assert a == System(sys.server, sys.pcs[j := MergeFetch(0, 0)]);
    var b := Go(ruleName, calls, a, j);
    assert b == System(sys.server, sys.pcs[j := MergeStore(0, 1, Listed(j - 1), j - 1)]);
  }

  lemma VictimFetches(ruleName: string, calls: seq<Call>, n: nat, retries: int, sys: System, j: nat)
    requires calls == Shards(n, retries) && 1 <= j < n && j - 1 <= retries && Stage(n, retries, sys, j - 1)
    ensures Go(ruleName, calls, sys, 0) == System(sys.server, sys.pcs[0 := MergeStore(0, j, Listed(j - 1), j - 1)])
  {
    OneMoreListed(j);
  }

  lemma VictimFails(ruleName: string, calls: seq<Call>, n: nat, retries: int, sys: System, j: nat)
    requires calls == Shards(n, retries) && 1 <= j < n == |sys.pcs|
    requires sys.pcs[0] == MergeStore(0, j, Listed(j - 1), j - 1)
    requires sys.server == EMPTY.(ipSet := Some(IpSet(0, Listed(j))), ipToken := j)
    ensures Go(ruleName, calls, sys, 0) == System(sys.server, sys.pcs[0 := Retry(MergeFetch(0, j), j, retries)])
  {
  }

  /** Between the victim's fetch and its store, rival j writes: the victim's attempt is lost. */
  lemma OneRound(ruleName: string, calls: seq<Call>, n: nat, retries: int, sys: System, j: nat)
    requires calls == Shards(n, retries) && 1 <= j < n && j - 1 <= retries && Stage(n, retries, sys, j - 1)
    ensures var fetched := Go(ruleName, calls, sys, 0);
            var written := Go(ruleName, calls, Go(ruleName, calls, Go(ruleName, calls, fetched, j), j), j);
            Stage(n, retries, Go(ruleName, calls, written, 0), j)
  {
    VictimFetches(ruleName, calls, n, retries, sys, j);
    var fetched := System(sys.server, sys.pcs[0 := MergeStore(0, j, Listed(j - 1), j - 1)]);
    RivalWrites(ruleName, calls, n, retries, fetched, j);
    VictimFails(ruleName, calls, n, retries,
                System(EMPTY.(ipSet := Some(IpSet(0, Listed(j))), ipToken := j), fetched.pcs[j := Merged(0)]), j);
  }

  // ---------------------------------------------------------------- the schedule

  function Rounds(j: nat): seq<Move> {
    if j == 0 then [Move(0, NoFault)]
    else
      Rounds(j - 1) +
      [Move(0, NoFault)] + [Move(j, NoFault)] + [Move(j, NoFault)] + [Move(j, NoFault)] + [Move(0, NoFault)]
  }

  lemma {:induction false} RoundsAreTruthful(j: nat)
    ensures Truthful(Rounds(j))
  {
    if j > 0 {
      RoundsAreTruthful(j - 1);
    }
  }

  lemma RunSnoc(ruleName: string, calls: seq<Call>, s: Server, schedule: seq<Move>, k: nat)
    ensures Run(ruleName, calls, s, schedule + [Move(k, NoFault)]) ==
            Go(ruleName, calls, Run(ruleName, calls, s, schedule), k)
  {
    assert (schedule + [Move(k, NoFault)])[..|schedule|] == schedule;
  }

  lemma RunRound(ruleName: string, calls: seq<Call>, s: Server, r: seq<Move>, j: nat)
    ensures var fetched := Go(ruleName, calls, Run(ruleName, calls, s, r), 0);
            var written := Go(ruleName, calls, Go(ruleName, calls, Go(ruleName, calls, fetched, j), j), j);
            Run(ruleName, calls, s,
                r + [Move(0, NoFault)] + [Move(j, NoFault)] + [Move(j, NoFault)] + [Move(j, NoFault)] +
                [Move(0, NoFault)]) == Go(ruleName, calls, written, 0)
  {
    var r1 := r + [Move(0, NoFault)];
    RunSnoc(ruleName, calls, s, r, 0);
    RunSnoc(ruleName, calls, s, r1, j);
    RunSnoc(ruleName, calls, s, r1 + [Move(j, NoFault)], j);
    RunSnoc(ruleName, calls, s, r1 + [Move(j, NoFault)] + [Move(j, NoFault)], j);
    RunSnoc(ruleName, calls, s, r1 + [Move(j, NoFault)] + [Move(j, NoFault)] + [Move(j, NoFault)], 0);
  }

  /** After j rounds the victim has lost j attempts. */
  lemma {:induction false} VictimLoses(ruleName: string, calls: seq<Call>, n: nat, retries: int, j: nat)
    requires calls == Shards(n, retries) && j < n && j <= retries + 1
    ensures Stage(n, retries, Run(ruleName, calls, EMPTY, Rounds(j)), j)
    decreases j
  {
    if j == 0 {
      RunSnoc(ruleName, calls, EMPTY, [], 0);
      assert [] + [Move(0, NoFault)] == Rounds(0);
      assert Listed(0) == [];
    } else {
      VictimLoses(ruleName, calls, n, retries, j - 1);
      OneRound(ruleName, calls, n, retries, Run(ruleName, calls, EMPTY, Rounds(j - 1)), j);
      RunRound(ruleName, calls, EMPTY, Rounds(j - 1), j);
    }
  }

  /** With fewer than n - 1 retries there is an interleaving of n calls in which one runs out of them,
      although the service injects no error. */
  lemma BudgetRunsOut(n: nat, retries: int)
    requires n >= 1 && retries < n - 1
    ensures var j: nat := if retries < 0 then 0 else retries + 1;
            Run("perf", Shards(n, retries), EMPTY, Rounds(j)).pcs[0] == Raised(OutOfRetries)
  {
    var j: nat := if retries < 0 then 0 else retries + 1;
    if retries >= -1 {
      VictimLoses("perf", Shards(n, retries), n, retries, j);
    } else {
      RunSnoc("perf", Shards(n, retries), EMPTY, [], 0);
      assert [] + [Move(0, NoFault)] == Rounds(0);
    }
  }

  /** The exact retry budget of n concurrent apply calls: n - 1 is enough, and nothing less is. */
  lemma BudgetIsExact(n: nat, retries: int)
    requires n >= 1
    ensures Enough(n, retries) <==> retries >= n - 1
  {
    if retries >= n - 1 {
      forall ruleName: string, calls: seq<Call>, s: Server, schedule: seq<Move>, i: nat |
        |calls| == n && SameBudget(calls, retries) && Fresh(ruleName, s) && Truthful(schedule) && i < n
        ensures Run(ruleName, calls, s, schedule).pcs[i] != Raised(OutOfRetries)
      {
        BudgetSuffices(ruleName, calls, s, schedule, i);
      }
    } else {
      var j: nat := if retries < 0 then 0 else retries + 1;
      BudgetRunsOut(n, retries);
      RoundsAreTruthful(j);
      assert Fresh("perf", EMPTY);
      assert Truthful(Rounds(j)) && SameBudget(Shards(n, retries), retries);
    }
  }
}
