/** Filtering a scope and partitioning what is left is an exact partition by account, and every row of the
    matrix can be applied on its own (scripts/filter_ci_deployable_units.py,
    scripts/partition_units_by_account.py, scripts/resolve_deploy_role.py). */
module UnitLaws {
  import opened Common
  import opened UnitFlags
  import opened UnitAccounts

  // ---------------------------------------------------------------- what the registry says

  predicate RunsIn(c: Config, p: string, account: string) {
    Resolve(c, p).Ok? && Resolve(c, p).value.account == account
  }

  /** The account is registered, and its row says whether CI deploys it. */
  predicate Registered(c: Config, account: string) {
    account in c.accounts && c.accounts[account].ciDeploy.Some?
  }

  /** CI deploys the account always, or in the on-demand lane if the account is eligible for it. */
  predicate CiApplies(c: Config, account: string, onDemand: bool) {
    && Registered(c, account)
    && var entry := c.accounts[account];
       entry.ciDeploy == Some(true) || (onDemand && entry.ciDeployOnDemand == Some(true))
  }

  /** The role a job may assume in the account: to apply, the deploy role of an account CI applies; to plan,
      the plan role of any registered account. */
  predicate Grants(c: Config, account: string, mode: string, onDemand: bool, role: string) {
    && Registered(c, account)
    && (mode == "apply" ==> CiApplies(c, account, onDemand) && c.accounts[account].deployRole == Some(role))
    && (mode != "apply" ==> c.accounts[account].planRole == Some(role))
  }

  /** The roles handed out are those the registry grants; planning is not gated on whether CI may apply. */
  lemma RolesAreGranted(c: Config, account: string, mode: string, onDemand: bool, role: string)
    ensures RoleName(c, account, mode, onDemand) == Ok(role) <==> Grants(c, account, mode, onDemand, role)
    ensures DeployRoleName(c, account, onDemand) == Ok(role) <==> Grants(c, account, "apply", onDemand, role)
    ensures RoleName(c, account, mode, onDemand) == Err(CiDeployForbidden(account)) <==>
            mode == "apply" && Registered(c, account) && !CiApplies(c, account, onDemand)
  {
  }

  lemma ArnParts(account: string, role: string)
    ensures var arn := RoleArn(account, role);
            && |arn| == 13 + |account| + 6 + |role| && arn[13 + |account|] == ':'
            && arn[13..13 + |account|] == account && arn[13 + |account| + 6..] == role
  {
  }

  lemma NoShorterAccount(a: string, r: string, b: string, q: string)
    requires ':' !in b && RoleArn(a, r) == RoleArn(b, q)
    ensures |a| >= |b|
  {
    ArnParts(a, r);
    ArnParts(b, q);
    assert forall k :: 0 <= k < |b| ==> RoleArn(b, q)[13 + k] == b[k];
  }

  /** A role ARN names one account and one role. */
  lemma ArnTells(a: string, r: string, b: string, q: string)
    requires ':' !in a && ':' !in b && RoleArn(a, r) == RoleArn(b, q)
    ensures a == b && r == q
  {
    NoShorterAccount(a, r, b, q);
    NoShorterAccount(b, q, a, r);
    ArnParts(a, r);
    ArnParts(b, q);
  }

  // ---------------------------------------------------------------- the filter

  /** The paths CI may apply, in order. */
  function Kept(c: Config, paths: seq<string>, onDemand: bool): seq<string> {
    if paths == [] then []
    else
      var n := |paths| - 1;
      if Applicable(c, paths[n], onDemand) then Kept(c, paths[..n], onDemand) + [paths[n]]
      else Kept(c, paths[..n], onDemand)
  }

  function Dropped(c: Config, paths: seq<string>, onDemand: bool): seq<string> {
    if paths == [] then []
    else
      var n := |paths| - 1;
      if Applicable(c, paths[n], onDemand) then Dropped(c, paths[..n], onDemand)
      else Dropped(c, paths[..n], onDemand) + [paths[n]]
  }

  /** The registry says that CI applies the account in which p runs. */
  predicate Applicable(c: Config, p: string, onDemand: bool) {
    Resolve(c, p).Ok? && CiApplies(c, Resolve(c, p).value.account, onDemand)
  }

  /** p runs in an account whose row tells. */
  predicate Decidable(c: Config, p: string) {
    Resolve(c, p).Ok? && Registered(c, Resolve(c, p).value.account)
  }

  lemma DecisionIs(c: Config, p: string, onDemand: bool)
    ensures Decide(c, p, onDemand).Ok? <==> Decidable(c, p)
    ensures Decidable(c, p) ==>
            Decide(c, p, onDemand) == Ok((Resolve(c, p).value.account, Applicable(c, p, onDemand)))
  {
  }

  function SkippedPaths(skips: seq<Skip>): seq<string> {
    if skips == [] then [] else SkippedPaths(skips[..|skips| - 1]) + [skips[|skips| - 1].path]
  }

  lemma CountSnoc<T>(s: seq<T>, x: T, p: T)
    ensures multiset(s + [x])[p] == multiset(s)[p] + if x == p then 1 else 0
  {
    assert multiset(s + [x]) == multiset(s) + multiset{x};
  }

  /** The filter fails exactly when some path does not resolve to an account whose row says whether CI
      deploys it. */
  lemma {:induction false} FilterFailsIff(c: Config, paths: seq<string>, onDemand: bool)
    ensures FilterPaths(c, paths, onDemand).Err? <==> exists p :: p in paths && !Decidable(c, p)
  {
    if paths != [] {
      var n := |paths| - 1;
      DecisionIs(c, paths[n], onDemand);
      FilterFailsIff(c, paths[..n], onDemand);
      assert paths == paths[..n] + [paths[n]];
    }
  }

  /** One more path: what the filter makes of it. */
  lemma FilterSnoc(c: Config, paths: seq<string>, onDemand: bool)
    requires paths != [] && FilterPaths(c, paths, onDemand).Ok?
    ensures var n := |paths| - 1;
            var before, after := FilterPaths(c, paths[..n], onDemand), FilterPaths(c, paths, onDemand);
            && before.Ok? && Decidable(c, paths[n])
            && after.value ==
               if Applicable(c, paths[n], onDemand) then
                 Scope(before.value.deployable + [paths[n]], before.value.skipped)
               else
                 var skip := Skip(paths[n], Resolve(c, paths[n]).value.account);
                 Scope(before.value.deployable, before.value.skipped + [skip])
  {
    DecisionIs(c, paths[|paths| - 1], onDemand);
  }

  lemma SkipSnoc(skips: seq<Skip>, s: Skip)
    ensures SkippedPaths(skips + [s]) == SkippedPaths(skips) + [s.path]
  {
    assert (skips + [s])[..|skips|] == skips;
  }

  /** What is skipped is skipped for a reason: its account resolved, and it is local-only. */
  lemma {:induction false} SkippedRightly(c: Config, paths: seq<string>, onDemand: bool, k: nat)
    requires FilterPaths(c, paths, onDemand).Ok? && k < |FilterPaths(c, paths, onDemand).value.skipped|
    ensures var s := FilterPaths(c, paths, onDemand).value.skipped[k];
            && s.path in paths && RunsIn(c, s.path, s.account)
            && Registered(c, s.account) && !CiApplies(c, s.account, onDemand)
    decreases |paths|
  {
    var n := |paths| - 1;
    FilterSnoc(c, paths, onDemand);
    assert paths == paths[..n] + [paths[n]];
    if k < |FilterPaths(c, paths[..n], onDemand).value.skipped| {
      SkippedRightly(c, paths[..n], onDemand, k);
    }
  }

  /** The filter keeps exactly the applicable paths and skips exactly the others, both in order. */
  lemma {:induction false} FilterIsExact(c: Config, paths: seq<string>, onDemand: bool)
    requires FilterPaths(c, paths, onDemand).Ok?
    ensures FilterPaths(c, paths, onDemand).value.deployable == Kept(c, paths, onDemand)
    ensures SkippedPaths(FilterPaths(c, paths, onDemand).value.skipped) == Dropped(c, paths, onDemand)
  {
    if paths != [] {
      var n := |paths| - 1;
      FilterSnoc(c, paths, onDemand);
      FilterIsExact(c, paths[..n], onDemand);
      SkipSnoc(FilterPaths(c, paths[..n], onDemand).value.skipped,
               Skip(paths[n], Resolve(c, paths[n]).value.account));
    }
  }

  ghost predicate Splits(a: seq<string>, b: seq<string>, whole: seq<string>, p: string) {
    multiset(a)[p] + multiset(b)[p] == multiset(whole)[p]
  }

  lemma KeptOrDropped(c: Config, front: seq<string>, x: string, onDemand: bool)
    ensures var kept, dropped := Kept(c, front + [x], onDemand), Dropped(c, front + [x], onDemand);
            || (kept == Kept(c, front, onDemand) + [x] && dropped == Dropped(c, front, onDemand))
            || (kept == Kept(c, front, onDemand) && dropped == Dropped(c, front, onDemand) + [x])
  {
    assert (front + [x])[..|front|] == front;
  }

  /** It loses nothing and adds nothing. */
  lemma {:induction false} FilterConserves(c: Config, paths: seq<string>, onDemand: bool, p: string)
    ensures Splits(Kept(c, paths, onDemand), Dropped(c, paths, onDemand), paths, p)
  {
    if paths != [] {
      var n := |paths| - 1;
      var front, x := paths[..n], paths[n];
      FilterConserves(c, front, onDemand, p);
      assert paths == front + [x];
      ConservesStep(c, front, x, onDemand, p);
    }
  }

  lemma ConservesStep(c: Config, front: seq<string>, x: string, onDemand: bool, p: string)
    requires Splits(Kept(c, front, onDemand), Dropped(c, front, onDemand), front, p)
    ensures Splits(Kept(c, front + [x], onDemand), Dropped(c, front + [x], onDemand), front + [x], p)
  {
    KeptOrDropped(c, front, x, onDemand);
    SplitOne(front, x, Kept(c, front, onDemand), Dropped(c, front, onDemand), p);
  }

  /** Adding one element to a whole and to either of its two parts. */
  lemma SplitOne(whole: seq<string>, x: string, a: seq<string>, b: seq<string>, p: string)
    requires Splits(a, b, whole, p)
    ensures Splits(a + [x], b, whole + [x], p) && Splits(a, b + [x], whole + [x], p)
  {
    CountSnoc(whole, x, p);
    CountSnoc(a, x, p);
    CountSnoc(b, x, p);
  }

  lemma {:induction false} KeptIff(c: Config, paths: seq<string>, onDemand: bool, p: string)
    ensures p in Kept(c, paths, onDemand) <==> p in paths && Applicable(c, p, onDemand)
  {
    if paths != [] {
      var n := |paths| - 1;
      assert paths == paths[..n] + [paths[n]];
      KeptIff(c, paths[..n], onDemand, p);
    }
  }

  /** Exactly the paths of accounts that CI applies are left: in either lane those whose row says so, in the
      normal lane no others, and in the on-demand lane also those of the eligible accounts. */
  lemma DeployableIff(c: Config, paths: seq<string>, onDemand: bool, p: string)
    requires FilterPaths(c, paths, onDemand).Ok? && p in paths
    ensures Decidable(c, p)
    ensures var entry := c.accounts[Resolve(c, p).value.account];
            p in FilterPaths(c, paths, onDemand).value.deployable <==>
            entry.ciDeploy == Some(true) || (onDemand && entry.ciDeployOnDemand == Some(true))
  {
    FilterFailsIff(c, paths, onDemand);
    FilterIsExact(c, paths, onDemand);
    KeptIff(c, paths, onDemand, p);
  }

  /** The on-demand lane only adds: the two lanes fail alike, it keeps every path the normal lane keeps, and
      besides those exactly the paths of accounts that are local-only and declare themselves eligible. */
  lemma OnDemandOnlyAdds(c: Config, paths: seq<string>, p: string)
    ensures FilterPaths(c, paths, false).Ok? <==> FilterPaths(c, paths, true).Ok?
    ensures FilterPaths(c, paths, false).Ok? ==>
            var normal, onDemand := FilterPaths(c, paths, false).value, FilterPaths(c, paths, true).value;
            && (p in normal.deployable ==> p in onDemand.deployable)
            && (p in onDemand.deployable && p !in normal.deployable <==>
                && p in paths && Decidable(c, p)
                && var entry := c.accounts[Resolve(c, p).value.account];
                   entry.ciDeploy == Some(false) && entry.ciDeployOnDemand == Some(true))
  {
    FilterFailsIff(c, paths, false);
    FilterFailsIff(c, paths, true);
    if FilterPaths(c, paths, false).Ok? {
      FilterIsExact(c, paths, false);
      FilterIsExact(c, paths, true);
      KeptIff(c, paths, false, p);
      KeptIff(c, paths, true, p);
    }
  }

  lemma RoleSuffix(role: string)
    ensures RoleOf(role + ROLE_SUFFIX) == role
  {
    Cut(role, ROLE_SUFFIX);
  }

  /** The tier rules: a bootstrap role directory runs in its own account, the DNS owner's tier always in the
      DNS owner's, the pretty tier in the DNS owner's unless it shares the service apex, all else in the
      env's account. */
  lemma TierRules(c: Config, path: string, region: string, env: string, segments: seq<string>)
    requires env in c.envs && c.dnsOwner.Some? && env != BOOTSTRAP
    ensures c.read(path) == Some(UnitPath(region, BOOTSTRAP, [env + ROLE_SUFFIX] + segments)) && env != DNS_OWNER ==>
              Resolve(c, path) == Ok(Place(region, c.envs[env]))
    ensures c.read(path) == Some(UnitPath(region, BOOTSTRAP, [DNS_OWNER + ROLE_SUFFIX] + segments)) ==>
              Resolve(c, path) == Ok(Place(region, c.dnsOwner.value))
    ensures c.read(path) == Some(UnitPath(region, env, segments)) ==>
              && (DNS_OWNER in segments ==> Resolve(c, path) == Ok(Place(region, c.dnsOwner.value)))
              && (DNS_OWNER !in segments && PRETTY !in segments ==> Resolve(c, path) == Ok(Place(region, c.envs[env])))
              && (DNS_OWNER !in segments && PRETTY in segments && env in c.domains ==>
                    var shared := c.domains[env].prettyApex == c.domains[env].serviceApex;
                    Resolve(c, path) == Ok(Place(region, if shared then c.envs[env] else c.dnsOwner.value)))
  {
    RoleSuffix(env);
    RoleSuffix(DNS_OWNER);
  }

  /** What no tier rule covers is refused: an env that is not configured, a tier of the DNS owner's without
      one, a pretty tier without domains, and a bootstrap path that names no role. */
  lemma UncoveredIsRefused(c: Config, path: string, region: string, env: string, segments: seq<string>)
    requires env != BOOTSTRAP
    ensures c.read(path).None? || c.read(path) == Some(UnitPath(region, BOOTSTRAP, [])) ==>
              Resolve(c, path) == Err(PathParse)
    ensures c.read(path) == Some(UnitPath(region, env, segments)) ==>
              && (DNS_OWNER in segments && c.dnsOwner.None? ==> Resolve(c, path) == Err(Unresolvable(path)))
              && (DNS_OWNER !in segments && PRETTY !in segments && env !in c.envs ==>
                    Resolve(c, path) == Err(Unresolvable(path)))
              && (DNS_OWNER !in segments && PRETTY in segments && env !in c.domains ==>
                    Resolve(c, path) == Err(Unresolvable(path)))
  {
  }

  // ---------------------------------------------------------------- grouping

  /** The paths of one account, in order. */
  function Mine(c: Config, paths: seq<string>, account: string): seq<string> {
    if paths == [] then []
    else
      var n := |paths| - 1;
      if RunsIn(c, paths[n], account) then Mine(c, paths[..n], account) + [paths[n]] else Mine(c, paths[..n], account)
  }

  /** Each path is with its account, as often as it was given, and with no other. */
  lemma {:induction false} MineIsExact(c: Config, paths: seq<string>, account: string, p: string)
    ensures multiset(Mine(c, paths, account))[p] == if RunsIn(c, p, account) then multiset(paths)[p] else 0
  {
    if paths != [] {
      var n := |paths| - 1;
      MineIsExact(c, paths[..n], account, p);
      assert paths == paths[..n] + [paths[n]];
      CountSnoc(paths[..n], paths[n], p);
      CountSnoc(Mine(c, paths[..n], account), paths[n], p);
    }
  }

  lemma InMine(c: Config, paths: seq<string>, account: string, p: string)
    ensures p in Mine(c, paths, account) <==> p in paths && RunsIn(c, p, account)
  {
    MineIsExact(c, paths, account, p);
    assert p in multiset(Mine(c, paths, account)) <==> p in Mine(c, paths, account);
    assert p in multiset(paths) <==> p in paths;
  }

  ghost predicate GroupsAre(c: Config, paths: seq<string>, g: Groups) {
    && (forall a :: a in g.paths <==> Mine(c, paths, a) != [])
    && (forall a :: a in g.paths ==> g.paths[a] == Mine(c, paths, a))
    && g.regions.Keys == g.paths.Keys
    && forall a :: a in g.paths && Resolve(c, Mine(c, paths, a)[0]).Ok? ==>
         g.regions[a] == Resolve(c, Mine(c, paths, a)[0]).value.region
  }

  /** The grouping loop files every path under its account, with the region of the account's first path. */
  lemma {:induction false} GroupsAreExact(c: Config, paths: seq<string>)
    requires forall p :: p in paths ==> Resolve(c, p).Ok?
    ensures GroupPaths(c, paths).Ok? && GroupsAre(c, paths, GroupPaths(c, paths).value)
  {
    if paths != [] {
      var n := |paths| - 1;
      var front, p := paths[..n], paths[n];
      assert paths == front + [p];
      assert forall q :: q in front ==> q in paths;
      GroupsAreExact(c, front);
      assert p in paths;
      AddPathIsExact(c, front, p, GroupPaths(c, front).value, Resolve(c, p).value);
    }
  }

  lemma AddPathIsExact(c: Config, front: seq<string>, p: string, g: Groups, place: Place)
    requires GroupsAre(c, front, g) && Resolve(c, p) == Ok(place)
    ensures GroupsAre(c, front + [p], AddPath(g, p, place))
  {
    var paths := front + [p];
    assert paths[..|front|] == front;
    forall a ensures Mine(c, paths, a) == if a == place.account then Mine(c, front, a) + [p] else Mine(c, front, a) {
    }
  }

  // ---------------------------------------------------------------- rows

  /** A row says what its account needs: the role, the region of its first path, and all of its paths. */
  ghost predicate RowIs(c: Config, paths: seq<string>, row: Row, account: string, mode: string, onDemand: bool) {
    && row.account == account
    && (exists role :: Grants(c, account, mode, onDemand, role) && row.roleArn == RoleArn(account, role))
    && row.needsDnsWriter == (mode == "apply" && account == DnsOwnerId(c))
    && row.flags == Reassemble(Mine(c, paths, account))
    && Mine(c, paths, account) != []
    && (Resolve(c, Mine(c, paths, account)[0]).Ok? ==>
        row.region == Resolve(c, Mine(c, paths, account)[0]).value.region)
  }

  ghost predicate AccountsIn(g: Groups, ids: seq<string>) {
    forall a :: a in ids ==> a in g.paths && a in g.regions
  }

  lemma RowIsExact(c: Config, paths: seq<string>, g: Groups, account: string, mode: string, onDemand: bool)
    requires GroupsAre(c, paths, g) && account in g.paths && account in g.regions &&
             RoleName(c, account, mode, onDemand).Ok?
    ensures RowIs(c, paths, RowFor(c, g, account, RoleName(c, account, mode, onDemand).value, mode), account, mode,
                  onDemand)
  {
    RolesAreGranted(c, account, mode, onDemand, RoleName(c, account, mode, onDemand).value);
  }

  lemma RowsSnoc(c: Config, g: Groups, ids: seq<string>, mode: string, onDemand: bool)
    requires AccountsIn(g, ids) && ids != []
    ensures var n := |ids| - 1;
            var before, after := RowsFor(c, g, ids[..n], mode, onDemand), RowsFor(c, g, ids, mode, onDemand);
            var role := RoleName(c, ids[n], mode, onDemand);
            && ids[n] in g.paths && ids[n] in g.regions
            && (before.Err? ==> after == before)
            && (before.Ok? && role.Err? ==> after == Err(role.error))
            && (before.Ok? && role.Ok? ==> after == Ok(before.value + [RowFor(c, g, ids[n], role.value, mode)]))
  {
    assert ids[|ids| - 1] in ids;
  }

  lemma {:induction false} RowsFail(c: Config, g: Groups, ids: seq<string>, mode: string, onDemand: bool)
    requires AccountsIn(g, ids) && RowsFor(c, g, ids, mode, onDemand).Err?
    ensures exists a :: a in ids && RoleName(c, a, mode, onDemand) == Err(RowsFor(c, g, ids, mode, onDemand).error)
  {
    var n := |ids| - 1;
    RowsSnoc(c, g, ids, mode, onDemand);
    if RowsFor(c, g, ids[..n], mode, onDemand).Err? {
      RowsFail(c, g, ids[..n], mode, onDemand);
    } else {
      assert ids[n] in ids;
    }
  }

  lemma {:induction false} RowAt(c: Config, paths: seq<string>, g: Groups, ids: seq<string>, mode: string,
                                 onDemand: bool, i: nat)
    requires GroupsAre(c, paths, g) && AccountsIn(g, ids) && RowsFor(c, g, ids, mode, onDemand).Ok? && i < |ids|
    ensures var rows := RowsFor(c, g, ids, mode, onDemand).value;
            |rows| == |ids| && RowIs(c, paths, rows[i], ids[i], mode, onDemand)
    decreases |ids|
  {
    var n := |ids| - 1;
    RowsSnoc(c, g, ids, mode, onDemand);
    if n > 0 {
      RowAt(c, paths, g, ids[..n], mode, onDemand, if i < n then i else 0);
    }
    if i == n {
      RowIsExact(c, paths, g, ids[n], mode, onDemand);
    }
  }

  lemma RowsAreExact(c: Config, paths: seq<string>, g: Groups, ids: seq<string>, mode: string, onDemand: bool)
    requires GroupsAre(c, paths, g) && AccountsIn(g, ids) && RowsFor(c, g, ids, mode, onDemand).Ok?
    ensures var rows := RowsFor(c, g, ids, mode, onDemand).value;
            |rows| == |ids| && forall i :: 0 <= i < |ids| ==> RowIs(c, paths, rows[i], ids[i], mode, onDemand)
  {
    forall i | 0 <= i < |ids|
      ensures |RowsFor(c, g, ids, mode, onDemand).value| == |ids|
      ensures RowIs(c, paths, RowsFor(c, g, ids, mode, onDemand).value[i], ids[i], mode, onDemand) {
      RowAt(c, paths, g, ids, mode, onDemand, i);
    }
    if ids != [] {
      RowAt(c, paths, g, ids, mode, onDemand, 0);
    }
  }

  // ---------------------------------------------------------------- filter, then partition

  /** The role of an account that passed the filter is missing only if its row has no deploy role. */
  lemma KeptAccount(c: Config, account: string, onDemand: bool)
    requires CiApplies(c, account, onDemand)
    ensures RoleName(c, account, "apply", onDemand) == DeployRoleName(c, account, onDemand)
    ensures RoleName(c, account, "apply", onDemand) ==
            if c.accounts[account].deployRole.Some? then Ok(c.accounts[account].deployRole.value)
            else Err(NoRoleName(account))
  {
  }

  lemma KeptArePlain(c: Config, flags: string, onDemand: bool)
    ensures Extract(Reassemble(Kept(c, Extract(flags), onDemand))) == Kept(c, Extract(flags), onDemand)
  {
    PlainKept(c, flags, onDemand);
    ExtractReassembled(Kept(c, Extract(flags), onDemand));
  }

  lemma {:induction false} MineArePlain(c: Config, paths: seq<string>, account: string)
    requires AllPlain(paths)
    ensures Extract(Reassemble(Mine(c, paths, account))) == Mine(c, paths, account)
  {
    var mine := Mine(c, paths, account);
    forall i | 0 <= i < |mine| ensures Plain(mine[i]) {
      InMine(c, paths, account, mine[i]);
      assert mine[i] in paths;
    }
    ExtractReassembled(mine);
  }

  lemma NotBlank(paths: seq<string>)
    ensures paths == [] ==> Reassemble(paths) == ""
    ensures paths != [] ==> Spaces(Reassemble(paths)) == 0 && Reassemble(paths) != ""
  {
    if paths != [] {
      JoinParts(paths);
      assert Reassemble(paths)[0] == TOKEN[0];
    }
  }

  /** The matrix of a filtered scope. */
  ghost function Matrix(c: Config, kept: seq<string>, onDemand: bool): Result<seq<Row>, UnitError> {
    PartitionOf(c, Reassemble(kept), "apply", onDemand)
  }

  /** What the partition of a scope is: sorted rows, one for each account of the scope. */
  ghost predicate MatrixIs(c: Config, kept: seq<string>, rows: seq<Row>, mode: string, onDemand: bool) {
    && (forall i, j :: 0 <= i < j < |rows| ==>
          LeString(rows[i].account, rows[j].account) && rows[i].account != rows[j].account)
    && (forall i :: 0 <= i < |rows| ==> RowIs(c, kept, rows[i], rows[i].account, mode, onDemand))
    && forall p :: p in kept ==> HasRow(c, rows, p)
  }

  ghost predicate HasRow(c: Config, rows: seq<Row>, p: string) {
    exists i :: 0 <= i < |rows| && RunsIn(c, p, rows[i].account)
  }

  lemma GroupedRows(c: Config, kept: seq<string>, g: Groups, mode: string, onDemand: bool)
    requires GroupsAre(c, kept, g) && forall p :: p in kept ==> Resolve(c, p).Ok?
    requires AccountsIn(g, InOrder(g.paths.Keys))
    ensures var ids := InOrder(g.paths.Keys);
            var r := RowsFor(c, g, ids, mode, onDemand);
            && (r.Ok? ==> MatrixIs(c, kept, r.value, mode, onDemand))
            && (r.Err? ==> exists a :: Mine(c, kept, a) != [] && RoleName(c, a, mode, onDemand) == Err(r.error))
  {
    var ids := InOrder(g.paths.Keys);
    var r := RowsFor(c, g, ids, mode, onDemand);
    if r.Ok? {
      GroupedMatrix(c, kept, g, ids, mode, onDemand);
    } else {
      RowsFail(c, g, ids, mode, onDemand);
      var a :| a in ids && RoleName(c, a, mode, onDemand) == Err(r.error);
      assert a in Elems(ids);
      assert Mine(c, kept, a) != [];
    }
  }

  lemma GroupedMatrix(c: Config, kept: seq<string>, g: Groups, ids: seq<string>, mode: string, onDemand: bool)
    requires GroupsAre(c, kept, g) && forall p :: p in kept ==> Resolve(c, p).Ok?
    requires AccountsIn(g, ids) && Elems(ids) == g.paths.Keys && SortedIds(ids)
    requires RowsFor(c, g, ids, mode, onDemand).Ok?
    ensures MatrixIs(c, kept, RowsFor(c, g, ids, mode, onDemand).value, mode, onDemand)
  {
    var rows := RowsFor(c, g, ids, mode, onDemand).value;
    RowsAreExact(c, kept, g, ids, mode, onDemand);
    forall p | p in kept ensures HasRow(c, rows, p) {
      RowExists(c, kept, g, ids, rows, p);
    }
  }

  lemma RowExists(c: Config, kept: seq<string>, g: Groups, ids: seq<string>, rows: seq<Row>, p: string)
    requires GroupsAre(c, kept, g) && Elems(ids) == g.paths.Keys && p in kept && Resolve(c, p).Ok?
    requires |rows| == |ids| && forall i :: 0 <= i < |ids| ==> rows[i].account == ids[i]
    ensures HasRow(c, rows, p)
  {
    var a := Resolve(c, p).value.account;
    InMine(c, kept, a, p);
    assert a in Elems(ids);
    var i :| 0 <= i < |ids| && ids[i] == a;
    assert RunsIn(c, p, rows[i].account);
  }

  /** No deploy role is configured for the account in which p runs. */
  ghost predicate LacksRole(c: Config, p: string) {
    && Resolve(c, p).Ok? && Resolve(c, p).value.account in c.accounts
    && c.accounts[Resolve(c, p).value.account].deployRole.None?
  }

  lemma MatrixOfKept(c: Config, flags: string, onDemand: bool)
    ensures var kept := Kept(c, Extract(flags), onDemand);
            var r := Matrix(c, kept, onDemand);
            && (r.Ok? ==> MatrixIs(c, kept, r.value, "apply", onDemand))
            && (r.Err? ==> exists a :: Mine(c, kept, a) != [] && RoleName(c, a, "apply", onDemand) == Err(r.error))
  {
    var kept := Kept(c, Extract(flags), onDemand);
    NotBlank(kept);
    if kept != [] {
      KeptArePlain(c, flags, onDemand);
      forall p | p in kept ensures Resolve(c, p).Ok? {
        KeptIff(c, Extract(flags), onDemand, p);
      }
      GroupsAreExact(c, kept);
      var g := GroupPaths(c, kept).value;
      forall a | a in InOrder(g.paths.Keys) ensures a in g.paths && a in g.regions {
        assert a in Elems(InOrder(g.paths.Keys));
      }
      GroupedRows(c, kept, g, "apply", onDemand);
    }
  }

  /** Some kept path runs in the given account, so the account passed the filter. */
  lemma MineMayBeApplied(c: Config, paths: seq<string>, onDemand: bool, account: string)
    requires Mine(c, Kept(c, paths, onDemand), account) != []
    ensures CiApplies(c, account, onDemand)
    ensures exists p :: p in Kept(c, paths, onDemand) && RunsIn(c, p, account)
  {
    var kept := Kept(c, paths, onDemand);
    var p := Mine(c, kept, account)[0];
    assert p in Mine(c, kept, account);
    InMine(c, kept, account, p);
    KeptIff(c, paths, onDemand, p);
  }

  /** Partitioning a filtered scope never meets an account that CI may not apply, nor any other error but a
      missing deploy role; without that one it is an exact partition. */
  lemma FilterThenPartition(c: Config, flags: string, onDemand: bool)
    requires Filter(c, flags, onDemand).Ok?
    ensures var scope := Filter(c, flags, onDemand).value;
            var r := PartitionOf(c, FilteredFlags(scope), "apply", onDemand);
            && scope.deployable == Kept(c, Extract(flags), onDemand)
            && (r.Err? ==> r.error.NoRoleName?)
            && (r.Err? <==> exists p :: p in scope.deployable && LacksRole(c, p))
            && (r.Ok? ==> MatrixIs(c, scope.deployable, r.value, "apply", onDemand))
  {
    var paths := Extract(flags);
    var kept := Kept(c, paths, onDemand);
    FilterIsExact(c, paths, onDemand);
    MatrixOfKept(c, flags, onDemand);
    var r := Matrix(c, kept, onDemand);
    if r.Err? {
      var a :| Mine(c, kept, a) != [] && RoleName(c, a, "apply", onDemand) == Err(r.error);
      MineMayBeApplied(c, paths, onDemand, a);
      KeptAccount(c, a, onDemand);
      var p :| p in kept && RunsIn(c, p, a);
      assert LacksRole(c, p);
    } else {
      forall p | p in kept ensures !LacksRole(c, p) {
        RowMeansRole(c, kept, r.value, onDemand, p);
        KeptIff(c, paths, onDemand, p);
      }
    }
  }

  lemma {:induction false} GroupFailsIff(c: Config, paths: seq<string>)
    ensures GroupPaths(c, paths).Err? <==> exists p :: p in paths && Resolve(c, p).Err?
  {
    if paths != [] {
      var n := |paths| - 1;
      GroupFailsIff(c, paths[..n]);
      assert paths == paths[..n] + [paths[n]];
    }
  }

  /** The registry grants a plan role in the account in which p runs. */
  ghost predicate Plannable(c: Config, p: string) {
    && Resolve(c, p).Ok? && Registered(c, Resolve(c, p).value.account)
    && c.accounts[Resolve(c, p).value.account].planRole.Some?
  }

  lemma PlanRows(c: Config, paths: seq<string>, g: Groups, onDemand: bool)
    requires GroupsAre(c, paths, g) && forall p :: p in paths ==> Resolve(c, p).Ok?
    requires AccountsIn(g, InOrder(g.paths.Keys))
    ensures var r := RowsFor(c, g, InOrder(g.paths.Keys), "plan", onDemand);
            && (r.Ok? <==> forall p :: p in paths ==> Plannable(c, p))
            && (r.Ok? ==> MatrixIs(c, paths, r.value, "plan", onDemand))
  {
    var r := RowsFor(c, g, InOrder(g.paths.Keys), "plan", onDemand);
    GroupedRows(c, paths, g, "plan", onDemand);
    if r.Ok? {
      forall p | p in paths ensures Plannable(c, p) {
        RowMeansPlannable(c, paths, r.value, onDemand, p);
      }
    } else {
      var a :| Mine(c, paths, a) != [] && RoleName(c, a, "plan", onDemand) == Err(r.error);
      NoPlanRole(c, paths, a, onDemand);
    }
  }

  lemma NoPlanRole(c: Config, paths: seq<string>, account: string, onDemand: bool)
    requires Mine(c, paths, account) != [] && RoleName(c, account, "plan", onDemand).Err?
    ensures exists p :: p in paths && !Plannable(c, p)
  {
    var p := Mine(c, paths, account)[0];
    assert p in Mine(c, paths, account);
    InMine(c, paths, account, p);
    assert !Plannable(c, p);
  }

  lemma RowMeansPlannable(c: Config, paths: seq<string>, rows: seq<Row>, onDemand: bool, p: string)
    requires MatrixIs(c, paths, rows, "plan", onDemand) && p in paths
    ensures Plannable(c, p)
  {
    assert HasRow(c, rows, p);
    var i :| 0 <= i < |rows| && RunsIn(c, p, rows[i].account);
    assert RowIs(c, paths, rows[i], rows[i].account, "plan", onDemand);
  }

  /** The plan matrix of the paths: there is one exactly when every path can be planned, and it is an exact
      partition under the plan roles. */
  ghost predicate PlanIs(c: Config, paths: seq<string>, r: Result<seq<Row>, UnitError>, onDemand: bool) {
    && (r.Ok? <==> forall p :: p in paths ==> Plannable(c, p))
    && (r.Ok? ==> MatrixIs(c, paths, r.value, "plan", onDemand))
  }

  lemma PlanOfGroups(c: Config, paths: seq<string>, g: Groups, onDemand: bool)
    requires GroupPaths(c, paths) == Ok(g)
    ensures AccountsIn(g, InOrder(g.paths.Keys))
    ensures PlanIs(c, paths, RowsFor(c, g, InOrder(g.paths.Keys), "plan", onDemand), onDemand)
  {
    GroupFailsIff(c, paths);
    GroupsAreExact(c, paths);
    forall a | a in InOrder(g.paths.Keys) ensures a in g.paths && a in g.regions {
      assert a in Elems(InOrder(g.paths.Keys));
    }
    PlanRows(c, paths, g, onDemand);
  }

  /** Planning needs no filter: whether CI may apply an account does not matter, in either lane. A blank scope
      has no rows, and any other without a path is refused. */
  lemma PlanPartition(c: Config, flags: string, onDemand: bool)
    ensures var r := PartitionOf(c, flags, "plan", onDemand);
            if Spaces(flags) == |flags| then r == Ok([])
            else if Extract(flags) == [] then r == Err(PathParse)
            else PlanIs(c, Extract(flags), r, onDemand)
  {
    var paths := Extract(flags);
    if GroupPaths(c, paths).Ok? {
      PlanOfGroups(c, paths, GroupPaths(c, paths).value, onDemand);
    } else {
      GroupFailsIff(c, paths);
      var p :| p in paths && Resolve(c, p).Err?;
      assert !Plannable(c, p);
    }
  }

  lemma RowMeansRole(c: Config, kept: seq<string>, rows: seq<Row>, onDemand: bool, p: string)
    requires MatrixIs(c, kept, rows, "apply", onDemand) && p in kept
    ensures !LacksRole(c, p)
  {
    assert HasRow(c, rows, p);
    var i :| 0 <= i < |rows| && RunsIn(c, p, rows[i].account);
    assert RowIs(c, kept, rows[i], rows[i].account, "apply", onDemand);
  }

  // ---------------------------------------------------------------- what the matrix delivers

  /** Every kept path is in exactly one row, that of its account, in the scope's order and as often as the
      scope had it. */
  lemma EachPathInOneRow(c: Config, flags: string, onDemand: bool, rows: seq<Row>, i: nat, p: string)
    requires MatrixIs(c, Kept(c, Extract(flags), onDemand), rows, "apply", onDemand) && i < |rows|
    ensures var kept := Kept(c, Extract(flags), onDemand);
            var delivered := Extract(rows[i].flags);
            && delivered == Mine(c, kept, rows[i].account) != []
            && multiset(delivered)[p] == (if RunsIn(c, p, rows[i].account) then multiset(kept)[p] else 0)
            && (p in kept ==> exists k :: 0 <= k < |rows| && RunsIn(c, p, rows[k].account)
                                          && forall j :: 0 <= j < |rows| && RunsIn(c, p, rows[j].account) ==> j == k)
  {
    var kept := Kept(c, Extract(flags), onDemand);
    PlainKept(c, flags, onDemand);
    assert RowIs(c, kept, rows[i], rows[i].account, "apply", onDemand);
    MineArePlain(c, kept, rows[i].account);
    MineIsExact(c, kept, rows[i].account, p);
    if p in kept {
      assert HasRow(c, rows, p);
      var k :| 0 <= k < |rows| && RunsIn(c, p, rows[k].account);
      forall j | 0 <= j < |rows| && RunsIn(c, p, rows[j].account) ensures j == k {
        assert rows[j].account == rows[k].account;
      }
    }
  }

  lemma PlainKept(c: Config, flags: string, onDemand: bool)
    ensures AllPlain(Kept(c, Extract(flags), onDemand))
  {
    var paths := Extract(flags);
    var kept := Kept(c, paths, onDemand);
    forall i | 0 <= i < |kept| ensures Plain(kept[i]) {
      KeptIff(c, paths, onDemand, kept[i]);
      var k :| 0 <= k < |paths| && paths[k] == kept[i];
      ExtractedArePlain(flags, k);
    }
  }

  lemma {:induction false} AllResolve(c: Config, paths: seq<string>)
    requires forall p :: p in paths ==> Resolve(c, p).Ok?
    ensures ResolveAll(c, paths).Ok? && |ResolveAll(c, paths).value| == |paths|
  {
    if paths != [] {
      var n := |paths| - 1;
      assert forall p :: p in paths[..n] ==> p in paths;
      AllResolve(c, paths[..n]);
      assert paths[n] in paths;
    }
  }

  lemma {:induction false} PlaceAt(c: Config, paths: seq<string>, i: nat)
    requires ResolveAll(c, paths).Ok? && i < |paths|
    ensures i < |ResolveAll(c, paths).value| == |paths| && Resolve(c, paths[i]) == Ok(ResolveAll(c, paths).value[i])
    decreases |paths|
  {
    var n := |paths| - 1;
    PlacesSnoc(c, paths);
    if n > 0 {
      PlaceAt(c, paths[..n], if i < n then i else 0);
    }
  }

  lemma PlacesSnoc(c: Config, paths: seq<string>)
    requires paths != [] && ResolveAll(c, paths).Ok?
    ensures var n := |paths| - 1;
            && ResolveAll(c, paths[..n]).Ok? && Resolve(c, paths[n]).Ok?
            && ResolveAll(c, paths).value == ResolveAll(c, paths[..n]).value + [Resolve(c, paths[n]).value]
            && (n == 0 ==> ResolveAll(c, paths[..n]).value == [])
  {
  }

  lemma AllInOnePlace(c: Config, paths: seq<string>, account: string)
    requires paths != [] && forall p :: p in paths ==> RunsIn(c, p, account)
    ensures ResolveAll(c, paths).Ok? && ResolveAll(c, paths).value != []
    ensures forall i :: 0 <= i < |ResolveAll(c, paths).value| ==> ResolveAll(c, paths).value[i].account == account
    ensures Resolve(c, paths[0]) == Ok(ResolveAll(c, paths).value[0])
  {
    AllResolve(c, paths);
    forall i | 0 <= i < |paths| ensures ResolveAll(c, paths).value[i].account == account {
      PlaceAt(c, paths, i);
      assert paths[i] in paths;
    }
    PlaceAt(c, paths, 0);
  }

  /** The account of a scope: no two service accounts may occur; the one that does is chosen, with the DNS
      writer exactly if the DNS owner's account occurs beside it; the DNS owner's own if none does. */
  lemma ChoiceIs(c: Config, places: seq<Place>)
    ensures ChooseAccount(c, places) == Err(MixedScope) <==>
            exists p, q :: p in places && q in places && p.account != q.account
                           && p.account != DnsOwnerId(c) && q.account != DnsOwnerId(c)
    ensures ChooseAccount(c, places).Err? ==> ChooseAccount(c, places) == Err(MixedScope)
    ensures ChooseAccount(c, places).Ok? ==>
            var (account, writer) := ChooseAccount(c, places).value;
            && (forall p :: p in places ==> p.account == account || p.account == DnsOwnerId(c))
            && (account != DnsOwnerId(c) ==> exists p :: p in places && p.account == account)
            && (writer <==> account != DnsOwnerId(c) && exists p :: p in places && p.account == DnsOwnerId(c))
  {
    var accounts := set place | place in places :: place.account;
    var service := accounts - {DnsOwnerId(c)};
    if |service| > 1 {
      TwoOf(service);
      var a, b :| a in service && b in service && a != b;
      var p :| p in places && p.account == a;
      var q :| q in places && q.account == b;
    } else {
      Single(service);
      forall p | p in places && p.account != DnsOwnerId(c) ensures p.account in service {
      }
    }
  }

  lemma TwoOf<T>(s: set<T>)
    requires |s| > 1
    ensures exists a, b :: a in s && b in s && a != b
  {
    var a :| a in s;
    assert |s - {a}| > 0;
    var b :| b in s - {a};
    assert a in s && b in s && a != b;
  }

  lemma OneAccountIsChosen(c: Config, places: seq<Place>, account: string)
    requires places != [] && forall i :: 0 <= i < |places| ==> places[i].account == account
    ensures ChooseAccount(c, places) == Ok((account, false))
  {
    ChoiceIs(c, places);
    assert places[0] in places;
  }

  // ---------------------------------------------------------------- one role for a whole scope

  /** What the scope's deploy role is to be: one account for all paths but those of the DNS owner, a role the
      registry grants there, the first path's region, and the DNS owner's role exactly if it is needed. */
  ghost predicate TargetIs(c: Config, paths: seq<string>, onDemand: bool, t: DeployTarget)
    requires paths != []
  {
    var owner := DnsOwnerId(c);
    && (forall p :: p in paths ==> RunsIn(c, p, t.account) || RunsIn(c, p, owner))
    && (t.account != owner ==> exists p :: p in paths && RunsIn(c, p, t.account))
    && (t.needsDnsWriter <==> t.account != owner && exists p :: p in paths && RunsIn(c, p, owner))
    && Resolve(c, paths[0]).Ok? && t.region == Resolve(c, paths[0]).value.region
    && GrantedArn(c, t.account, onDemand, t.roleArn)
    && (t.needsDnsWriter ==> GrantedArn(c, owner, onDemand, t.dnsWriterArn))
    && (!t.needsDnsWriter ==> t.dnsWriterArn == "")
  }

  ghost predicate GrantedArn(c: Config, account: string, onDemand: bool, arn: string) {
    exists role :: Grants(c, account, "apply", onDemand, role) && arn == RoleArn(account, role)
  }

  lemma PathOfPlace(c: Config, paths: seq<string>, account: string)
    requires ResolveAll(c, paths).Ok?
    ensures (exists q :: q in ResolveAll(c, paths).value && q.account == account) <==>
            exists p :: p in paths && RunsIn(c, p, account)
    ensures |ResolveAll(c, paths).value| == |paths|
  {
    var places := ResolveAll(c, paths).value;
    if paths != [] {
      PlaceAt(c, paths, 0);
    }
    forall i | 0 <= i < |paths| ensures Resolve(c, paths[i]) == Ok(places[i]) {
      PlaceAt(c, paths, i);
    }
    if q :| q in places && q.account == account {
      var i :| 0 <= i < |places| && places[i] == q;
      assert paths[i] in paths && RunsIn(c, paths[i], account);
    }
    if p :| p in paths && RunsIn(c, p, account) {
      var i :| 0 <= i < |paths| && paths[i] == p;
      assert places[i] in places;
    }
  }

  lemma ChosenForPaths(c: Config, paths: seq<string>, account: string, writer: bool)
    requires paths != [] && ResolveAll(c, paths).Ok?
    requires ChooseAccount(c, ResolveAll(c, paths).value) == Ok((account, writer))
    ensures forall p :: p in paths ==> RunsIn(c, p, account) || RunsIn(c, p, DnsOwnerId(c))
    ensures account != DnsOwnerId(c) ==> exists p :: p in paths && RunsIn(c, p, account)
    ensures writer <==> account != DnsOwnerId(c) && exists p :: p in paths && RunsIn(c, p, DnsOwnerId(c))
  {
    var places := ResolveAll(c, paths).value;
    ChoiceIs(c, places);
    PathOfPlace(c, paths, account);
    PathOfPlace(c, paths, DnsOwnerId(c));
    forall p | p in paths ensures RunsIn(c, p, account) || RunsIn(c, p, DnsOwnerId(c)) {
      var i :| 0 <= i < |paths| && paths[i] == p;
      PlaceAt(c, paths, i);
      assert places[i] in places;
    }
  }

  /** The role resolved for a scope is as it is to be. */
  lemma TargetMeaning(c: Config, flags: string, onDemand: bool)
    requires DeployTargetOf(c, flags, onDemand).Ok?
    ensures Extract(flags) != []
    ensures TargetIs(c, Extract(flags), onDemand, DeployTargetOf(c, flags, onDemand).value)
  {
    var paths, t := Extract(flags), DeployTargetOf(c, flags, onDemand).value;
    var places := ResolveAll(c, paths).value;
    var choice := ChooseAccount(c, places).value;
    ChosenForPaths(c, paths, choice.0, choice.1);
    PlaceAt(c, paths, 0);
    GrantedForTarget(c, choice.0, choice.1, places[0].region, onDemand);
  }

  /** And it is found whenever there is one. */
  lemma TargetIsFound(c: Config, flags: string, onDemand: bool, t: DeployTarget)
    requires Extract(flags) != [] && TargetIs(c, Extract(flags), onDemand, t)
    ensures DeployTargetOf(c, flags, onDemand) == Ok(t)
  {
    var paths := Extract(flags);
    AllResolve(c, paths);
    var places := ResolveAll(c, paths).value;
    forall q | q in places ensures q.account == t.account || q.account == DnsOwnerId(c) {
      var i :| 0 <= i < |places| && places[i] == q;
      PlaceAt(c, paths, i);
      assert paths[i] in paths;
    }
    ChoiceIs(c, places);
    var choice := ChooseAccount(c, places).value;
    ChosenForPaths(c, paths, choice.0, choice.1);
    PlaceAt(c, paths, 0);
    SameChoice(c, paths, t, choice.0, choice.1);
    TargetIsBuilt(c, t, onDemand);
  }

  lemma SameChoice(c: Config, paths: seq<string>, t: DeployTarget, account: string, writer: bool)
    requires paths != []
    requires var owner := DnsOwnerId(c);
             && (forall p :: p in paths ==> RunsIn(c, p, t.account) || RunsIn(c, p, owner))
             && (t.account != owner ==> exists p :: p in paths && RunsIn(c, p, t.account))
             && (t.needsDnsWriter <==> t.account != owner && exists p :: p in paths && RunsIn(c, p, owner))
             && (forall p :: p in paths ==> RunsIn(c, p, account) || RunsIn(c, p, owner))
             && (account != owner ==> exists p :: p in paths && RunsIn(c, p, account))
             && (writer <==> account != owner && exists p :: p in paths && RunsIn(c, p, owner))
    ensures account == t.account && writer == t.needsDnsWriter
  {
  }

  lemma TargetIsBuilt(c: Config, t: DeployTarget, onDemand: bool)
    requires GrantedArn(c, t.account, onDemand, t.roleArn)
    requires if t.needsDnsWriter then GrantedArn(c, DnsOwnerId(c), onDemand, t.dnsWriterArn) else t.dnsWriterArn == ""
    ensures TargetFor(c, t.account, t.needsDnsWriter, t.region, onDemand) == Ok(t)
  {
    var role :| Grants(c, t.account, "apply", onDemand, role) && t.roleArn == RoleArn(t.account, role);
    RolesAreGranted(c, t.account, "apply", onDemand, role);
    if t.needsDnsWriter {
      var writer :| Grants(c, DnsOwnerId(c), "apply", onDemand, writer)
                    && t.dnsWriterArn == RoleArn(DnsOwnerId(c), writer);
      RolesAreGranted(c, DnsOwnerId(c), "apply", onDemand, writer);
    }
  }

  lemma GrantedForTarget(c: Config, account: string, writer: bool, region: string, onDemand: bool)
    requires TargetFor(c, account, writer, region, onDemand).Ok?
    ensures var t := TargetFor(c, account, writer, region, onDemand).value;
            && t.account == account && t.region == region && t.needsDnsWriter == writer
            && GrantedArn(c, account, onDemand, t.roleArn)
            && (if writer then GrantedArn(c, DnsOwnerId(c), onDemand, t.dnsWriterArn) else t.dnsWriterArn == "")
  {
    RolesAreGranted(c, account, "apply", onDemand, DeployRoleName(c, account, onDemand).value);
    if writer {
      RolesAreGranted(c, DnsOwnerId(c), "apply", onDemand, DeployRoleName(c, DnsOwnerId(c), onDemand).value);
    }
  }

  /** Every row can be applied as a scope of its own: the role chosen for its flags is the row's role, in
      the row's account and region, and no mixture of accounts is met. */
  lemma EachRowStandsAlone(c: Config, flags: string, onDemand: bool, rows: seq<Row>, i: nat)
    requires MatrixIs(c, Kept(c, Extract(flags), onDemand), rows, "apply", onDemand) && i < |rows|
    ensures DeployTargetOf(c, rows[i].flags, onDemand) ==
            Ok(DeployTarget(rows[i].account, rows[i].roleArn, rows[i].region, false, ""))
  {
    var kept, row := Kept(c, Extract(flags), onDemand), rows[i];
    var account := row.account;
    var mine := Mine(c, kept, account);
    EachPathInOneRow(c, flags, onDemand, rows, i, "");
    assert RowIs(c, kept, row, account, "apply", onDemand);
    forall p | p in mine ensures RunsIn(c, p, account) {
      InMine(c, kept, account, p);
    }
    AllInOnePlace(c, mine, account);
    OneAccountIsChosen(c, ResolveAll(c, mine).value, account);
    MineMayBeApplied(c, Extract(flags), onDemand, account);
    KeptAccount(c, account, onDemand);
  }
}
