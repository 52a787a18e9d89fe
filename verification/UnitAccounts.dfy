/** Which account a unit runs in, whether CI may apply it there, and the filter and matrix built on that
    (scripts/resolve_deploy_role.py, scripts/filter_ci_deployable_units.py,
    scripts/partition_units_by_account.py). */
module UnitAccounts {
  import opened Common
  import opened Sums
  import opened UnitFlags

  /** A unit path taken apart: region, env or `bootstrap`, and the segments after it. */
  datatype UnitPath = UnitPath(region: string, first: string, rest: seq<string>)

  datatype Domain = Domain(prettyApex: Option<string>, serviceApex: Option<string>)

  /** A row of accounts.json; every key may be missing. */
  datatype Entry = Entry(ciDeploy: Option<bool>, ciDeployOnDemand: Option<bool>, deployRole: Option<string>,
                         planRole: Option<string>)

  /** The loaded configuration, and the reader of unit paths. */
  datatype Config = Config(read: string -> Option<UnitPath>, envs: map<string, string>, dnsOwner: Option<string>,
                           domains: map<string, Domain>, accounts: map<string, Entry>)

  datatype UnitError =
    | PathParse | Unresolvable(path: string) | NotRegistered(account: string) | NoCiDeployKey(account: string)
    | NoRoleName(account: string) | CiDeployForbidden(account: string) | UnknownMode | MixedScope

  // ---------------------------------------------------------------- resolution

  datatype Place = Place(region: string, account: string)

  function EnvAccount(c: Config, path: string, env: string): Result<string, UnitError> {
    if env in c.envs then Ok(c.envs[env]) else Err(Unresolvable(path))
  }

  function DnsOwnerAccount(c: Config, path: string): Result<string, UnitError> {
    if c.dnsOwner.Some? then Ok(c.dnsOwner.value) else Err(Unresolvable(path))
  }

  const ROLE_SUFFIX: string := "_role"
  const BOOTSTRAP: string := "bootstrap"
  const DNS_OWNER: string := "dns_owner"
  const PRETTY: string := "pretty"

  /** A role directory without its suffix. */
  function RoleOf(dir: string): string {
    if |dir| >= 5 && dir[|dir| - 5..] == ROLE_SUFFIX then dir[..|dir| - 5] else dir
  }

  function AccountOf(c: Config, path: string, u: UnitPath): Result<string, UnitError> {
    if u.first == BOOTSTRAP then
      var dir := if u.rest == [] then "" else u.rest[0];
      if dir == "" then Err(PathParse)
      else if RoleOf(dir) == DNS_OWNER then DnsOwnerAccount(c, path)
      else EnvAccount(c, path, RoleOf(dir))
    else if DNS_OWNER in u.rest then DnsOwnerAccount(c, path)
    else if PRETTY in u.rest then
      if u.first !in c.domains then Err(Unresolvable(path))
      else if c.domains[u.first].prettyApex == c.domains[u.first].serviceApex then EnvAccount(c, path, u.first)
      else DnsOwnerAccount(c, path)
    else EnvAccount(c, path, u.first)
  }

  function Resolve(c: Config, path: string): Result<Place, UnitError> {
    match c.read(path)
    case None => Err(PathParse)
    case Some(u) =>
      match AccountOf(c, path, u)
      case Err(e) => Err(e)
      case Ok(account) => Ok(Place(u.region, account))
  }

  // ---------------------------------------------------------------- eligibility

  predicate AllowsCiApply(entry: Entry, onDemand: bool)
    requires entry.ciDeploy.Some?
  {
    entry.ciDeploy.value || (onDemand && entry.ciDeployOnDemand == Some(true))
  }

  function CiDeployable(c: Config, account: string, onDemand: bool): Result<bool, UnitError> {
    if account !in c.accounts then Err(NotRegistered(account))
    else if c.accounts[account].ciDeploy.None? then Err(NoCiDeployKey(account))
    else Ok(AllowsCiApply(c.accounts[account], onDemand))
  }

  function RoleName(c: Config, account: string, mode: string, onDemand: bool): Result<string, UnitError> {
    if account !in c.accounts then Err(NotRegistered(account))
    else
      var entry := c.accounts[account];
      if entry.ciDeploy.None? then Err(NoCiDeployKey(account))
      else if mode == "apply" && !AllowsCiApply(entry, onDemand) then Err(CiDeployForbidden(account))
      else
        var name := if mode == "apply" then entry.deployRole else entry.planRole;
        if name.None? then Err(NoRoleName(account)) else Ok(name.value)
  }

  function RoleArn(account: string, role: string): string {
    "arn:aws:iam::" + account + ":role/" + role
  }

  // ---------------------------------------------------------------- the filter

  datatype Skip = Skip(path: string, account: string)

  datatype Scope = Scope(deployable: seq<string>, skipped: seq<Skip>)

  /** The account of a path and whether CI may apply it. */
  function Decide(c: Config, path: string, onDemand: bool): Result<(string, bool), UnitError> {
    match Resolve(c, path)
    case Err(e) => Err(e)
    case Ok(place) =>
      match CiDeployable(c, place.account, onDemand)
      case Err(e) => Err(e)
      case Ok(b) => Ok((place.account, b))
  }

  /** The filter on a list of paths; the first failing path decides the error. */
  function FilterPaths(c: Config, paths: seq<string>, onDemand: bool): Result<Scope, UnitError> {
    if paths == [] then Ok(Scope([], []))
    else
      var n := |paths| - 1;
      match FilterPaths(c, paths[..n], onDemand)
      case Err(e) => Err(e)
      case Ok(scope) =>
        match Decide(c, paths[n], onDemand)
        case Err(e) => Err(e)
        case Ok(d) =>
          if d.1 then Ok(Scope(scope.deployable + [paths[n]], scope.skipped))
          else Ok(Scope(scope.deployable, scope.skipped + [Skip(paths[n], d.0)]))
  }

  function Filter(c: Config, flags: string, onDemand: bool): Result<Scope, UnitError> {
    if Extract(flags) == [] then Err(PathParse) else FilterPaths(c, Extract(flags), onDemand)
  }

  lemma {:induction false} FilterErrorStays(c: Config, paths: seq<string>, i: nat, onDemand: bool)
    requires i <= |paths| && FilterPaths(c, paths[..i], onDemand).Err?
    ensures FilterPaths(c, paths, onDemand) == FilterPaths(c, paths[..i], onDemand)
    decreases |paths| - i
  {
    if i < |paths| {
      assert paths[..i + 1][..i] == paths[..i];
      FilterErrorStays(c, paths, i + 1, onDemand);
    } else {
      assert paths[..i] == paths;
    }
  }

  method PartitionByCiDeploy(c: Config, flags: string, onDemand: bool) returns (r: Result<Scope, UnitError>)
    ensures r == Filter(c, flags, onDemand)
  {
    var paths := Extract(flags);
    if paths == [] {
      return Err(PathParse);
    }
    var deployable: seq<string>, skipped: seq<Skip> := [], [];
    for i := 0 to |paths|
      invariant FilterPaths(c, paths[..i], onDemand) == Ok(Scope(deployable, skipped))
    {
      assert paths[..i + 1][..i] == paths[..i];
      var place := Resolve(c, paths[i]);
      if place.Err? {
        FilterErrorStays(c, paths, i + 1, onDemand);
        return Err(place.error);
      }
      var account := place.value.account;
      var ok := CiDeployable(c, account, onDemand);
      if ok.Err? {
        FilterErrorStays(c, paths, i + 1, onDemand);
        return Err(ok.error);
      }
      if ok.value {
        deployable := deployable + [paths[i]];
      } else {
        skipped := skipped + [Skip(paths[i], account)];
      }
    }
    assert paths[..|paths|] == paths;
    return Ok(Scope(deployable, skipped));
  }

  /** The flags the filter hands on: none when nothing is left. */
  function FilteredFlags(scope: Scope): string {
    Reassemble(scope.deployable)
  }

  // ---------------------------------------------------------------- sorted account ids

  predicate LeString(a: string, b: string) {
    a == [] || (b != [] && (a[0] < b[0] || (a[0] == b[0] && LeString(a[1..], b[1..]))))
  }

  lemma {:induction false} LeTotal(a: string, b: string)
    ensures LeString(a, b) || LeString(b, a)
    ensures LeString(a, b) && LeString(b, a) ==> a == b
  {
    if a != [] && b != [] {
      LeTotal(a[1..], b[1..]);
      assert a == [a[0]] + a[1..] && b == [b[0]] + b[1..];
    }
  }

  lemma {:induction false} LeTransitive(a: string, b: string, c: string)
    requires LeString(a, b) && LeString(b, c)
    ensures LeString(a, c)
  {
    if a != [] && a[0] == b[0] == c[0] {
      LeTransitive(a[1..], b[1..], c[1..]);
    }
  }

  lemma LeIsTotalOrder()
    ensures TotalOrder(LeString)
  {
    forall a, b ensures LeString(a, b) || LeString(b, a) {
      LeTotal(a, b);
    }
    forall a, b | LeString(a, b) && LeString(b, a) ensures a == b {
      LeTotal(a, b);
    }
    forall a, b, c | LeString(a, b) && LeString(b, c) ensures LeString(a, c) {
      LeTransitive(a, b, c);
    }
  }

  ghost predicate SortedIds(ids: seq<string>) {
    forall i, j :: 0 <= i < j < |ids| ==> LeString(ids[i], ids[j]) && ids[i] != ids[j]
  }

  /** The one sorted listing of a set of ids. */
  ghost function InOrder(ids: set<string>): (s: seq<string>)
    ensures Elems(s) == ids && SortedIds(s)
  {
    LeIsTotalOrder();
    Sorted(ids, LeString)
  }

  method SortIds(ids: set<string>) returns (s: seq<string>)
    ensures s == InOrder(ids)
  {
    LeIsTotalOrder();
    s := SortSet(ids, LeString);
  }

  // ---------------------------------------------------------------- the matrix

  /** The dictionaries of the grouping loop. */
  datatype Groups = Groups(paths: map<string, seq<string>>, regions: map<string, string>)

  function AddPath(g: Groups, path: string, place: Place): Groups {
    var a := place.account;
    Groups(g.paths[a := (if a in g.paths then g.paths[a] else []) + [path]],
           if a in g.regions then g.regions else g.regions[a := place.region])
  }

  function GroupPaths(c: Config, paths: seq<string>): Result<Groups, UnitError> {
    if paths == [] then Ok(Groups(map[], map[]))
    else
      var n := |paths| - 1;
      match GroupPaths(c, paths[..n])
      case Err(e) => Err(e)
      case Ok(g) =>
        match Resolve(c, paths[n])
        case Err(e) => Err(e)
        case Ok(place) => Ok(AddPath(g, paths[n], place))
  }

  lemma {:induction false} GroupErrorStays(c: Config, paths: seq<string>, i: nat)
    requires i <= |paths| && GroupPaths(c, paths[..i]).Err?
    ensures GroupPaths(c, paths) == GroupPaths(c, paths[..i])
    decreases |paths| - i
  {
    if i < |paths| {
      assert paths[..i + 1][..i] == paths[..i];
      GroupErrorStays(c, paths, i + 1);
    } else {
      assert paths[..i] == paths;
    }
  }

  method GroupByAccount(c: Config, paths: seq<string>) returns (r: Result<Groups, UnitError>)
    ensures r == GroupPaths(c, paths)
  {
    var g := Groups(map[], map[]);
    for i := 0 to |paths|
      invariant GroupPaths(c, paths[..i]) == Ok(g)
    {
      assert paths[..i + 1][..i] == paths[..i];
      var place := Resolve(c, paths[i]);
      if place.Err? {
        GroupErrorStays(c, paths, i + 1);
        return Err(place.error);
      }
      g := AddPath(g, paths[i], place.value);
    }
    assert paths[..|paths|] == paths;
    return Ok(g);
  }

  datatype Row = Row(account: string, roleArn: string, needsDnsWriter: bool, region: string, flags: string)

  function DnsOwnerId(c: Config): string {
    if c.dnsOwner.Some? then c.dnsOwner.value else ""
  }

  function RowFor(c: Config, g: Groups, account: string, role: string, mode: string): Row
    requires account in g.paths && account in g.regions
  {
    Row(account, RoleArn(account, role), mode == "apply" && account == DnsOwnerId(c), g.regions[account],
        Reassemble(g.paths[account]))
  }

  /** The rows for the given accounts; the first account without a usable role decides the error. */
  function RowsFor(c: Config, g: Groups, ids: seq<string>, mode: string, onDemand: bool): Result<seq<Row>, UnitError>
    requires forall a :: a in ids ==> a in g.paths && a in g.regions
  {
    if ids == [] then Ok([])
    else
      var n := |ids| - 1;
      assert ids[n] in ids;
      match RowsFor(c, g, ids[..n], mode, onDemand)
      case Err(e) => Err(e)
      case Ok(rows) =>
        match RoleName(c, ids[n], mode, onDemand)
        case Err(e) => Err(e)
        case Ok(role) => Ok(rows + [RowFor(c, g, ids[n], role, mode)])
  }

  lemma {:induction false} RowErrorStays(c: Config, g: Groups, ids: seq<string>, i: nat, mode: string, onDemand: bool)
    requires forall a :: a in ids ==> a in g.paths && a in g.regions
    requires i <= |ids| && RowsFor(c, g, ids[..i], mode, onDemand).Err?
    ensures RowsFor(c, g, ids, mode, onDemand) == RowsFor(c, g, ids[..i], mode, onDemand)
    decreases |ids| - i
  {
    if i < |ids| {
      assert ids[..i + 1][..i] == ids[..i];
      RowErrorStays(c, g, ids, i + 1, mode, onDemand);
    } else {
      assert ids[..i] == ids;
    }
  }

  method BuildRows(c: Config, g: Groups, ids: seq<string>, mode: string, onDemand: bool)
    returns (r: Result<seq<Row>, UnitError>)
    requires forall a :: a in ids ==> a in g.paths && a in g.regions
    ensures r == RowsFor(c, g, ids, mode, onDemand)
  {
    var rows: seq<Row> := [];
    for i := 0 to |ids|
      invariant RowsFor(c, g, ids[..i], mode, onDemand) == Ok(rows)
    {
      assert ids[..i + 1][..i] == ids[..i] && ids[i] in ids;
      var role := RoleName(c, ids[i], mode, onDemand);
      if role.Err? {
        RowErrorStays(c, g, ids, i + 1, mode, onDemand);
        return Err(role.error);
      }
      var flags := ReassembleFlags(g.paths[ids[i]]);
      var needsDnsWriter := mode == "apply" && ids[i] == DnsOwnerId(c);
      rows := rows + [Row(ids[i], RoleArn(ids[i], role.value), needsDnsWriter, g.regions[ids[i]], flags)];
    }
    assert ids[..|ids|] == ids;
    return Ok(rows);
  }

  /** Both dictionaries have the same keys. */
  lemma {:induction false} SameKeys(c: Config, paths: seq<string>)
    ensures GroupPaths(c, paths).Ok? ==>
            GroupPaths(c, paths).value.paths.Keys == GroupPaths(c, paths).value.regions.Keys
  {
    if paths != [] {
      SameKeys(c, paths[..|paths| - 1]);
    }
  }

  ghost function PartitionOf(c: Config, flags: string, mode: string, onDemand: bool): Result<seq<Row>, UnitError> {
    if mode != "plan" && mode != "apply" then Err(UnknownMode)
    else if Spaces(flags) == |flags| then Ok([])
    else if Extract(flags) == [] then Err(PathParse)
    else
      match GroupPaths(c, Extract(flags))
      case Err(e) => Err(e)
      case Ok(g) =>
        SameKeys(c, Extract(flags));
        RowsFor(c, g, InOrder(g.paths.Keys), mode, onDemand)
  }

  method Partition(c: Config, flags: string, mode: string, onDemand: bool) returns (r: Result<seq<Row>, UnitError>)
    ensures r == PartitionOf(c, flags, mode, onDemand)
  {
    if mode != "plan" && mode != "apply" {
      return Err(UnknownMode);
    }
    if Spaces(flags) == |flags| {
      return Ok([]);
    }
    var paths := Extract(flags);
    if paths == [] {
      return Err(PathParse);
    }
    var grouped := GroupByAccount(c, paths);
    if grouped.Err? {
      return Err(grouped.error);
    }
    SameKeys(c, paths);
    var ids := SortIds(grouped.value.paths.Keys);
    r := BuildRows(c, grouped.value, ids, mode, onDemand);
  }

  // ---------------------------------------------------------------- one role for a whole scope

  datatype DeployTarget = DeployTarget(account: string, roleArn: string, region: string, needsDnsWriter: bool,
                                       dnsWriterArn: string)

  function ResolveAll(c: Config, paths: seq<string>): Result<seq<Place>, UnitError> {
    if paths == [] then Ok([])
    else
      var n := |paths| - 1;
      match ResolveAll(c, paths[..n])
      case Err(e) => Err(e)
      case Ok(places) =>
        match Resolve(c, paths[n])
        case Err(e) => Err(e)
        case Ok(place) => Ok(places + [place])
  }

  function DeployRoleName(c: Config, account: string, onDemand: bool): Result<string, UnitError> {
    if account !in c.accounts then Err(NotRegistered(account))
    else
      var entry := c.accounts[account];
      if entry.deployRole.None? then Err(NoRoleName(account))
      else if entry.ciDeploy.None? then Err(NoCiDeployKey(account))
      else if !AllowsCiApply(entry, onDemand) then Err(CiDeployForbidden(account))
      else Ok(entry.deployRole.value)
  }

  /** The account of a scope: its one service account, or the DNS owner's when there is no other. */
  function ChooseAccount(c: Config, places: seq<Place>): Result<(string, bool), UnitError> {
    var accounts := set place | place in places :: place.account;
    var service := accounts - {DnsOwnerId(c)};
    if |service| > 1 then Err(MixedScope)
    else if service == {} then Ok((DnsOwnerId(c), false))
    else
      Single(service);
      var account :| account in service;
      Ok((account, DnsOwnerId(c) in accounts))
  }

  lemma Single<T>(s: set<T>)
    requires |s| <= 1
    ensures forall x, y :: x in s && y in s ==> x == y
  {
    forall x, y | x in s && y in s ensures x == y {
      if x != y {
        SubsetSize({x, y}, s);
      }
    }
  }

  function DeployTargetOf(c: Config, flags: string, onDemand: bool): Result<DeployTarget, UnitError> {
    if Extract(flags) == [] then Err(PathParse)
    else
      match ResolveAll(c, Extract(flags))
      case Err(e) => Err(e)
      case Ok(places) =>
        match ChooseAccount(c, places)
        case Err(e) => Err(e)
        case Ok(choice) => TargetFor(c, choice.0, choice.1, if places == [] then "" else places[0].region, onDemand)
  }

  function TargetFor(c: Config, account: string, needsDnsWriter: bool, region: string, onDemand: bool)
    : Result<DeployTarget, UnitError>
  {
    match DeployRoleName(c, account, onDemand)
    case Err(e) => Err(e)
    case Ok(role) =>
      if !needsDnsWriter then Ok(DeployTarget(account, RoleArn(account, role), region, false, ""))
      else
        match DeployRoleName(c, DnsOwnerId(c), onDemand)
        case Err(e) => Err(e)
        case Ok(writer) => Ok(DeployTarget(account, RoleArn(account, role), region, true,
                                           RoleArn(DnsOwnerId(c), writer)))
  }
}
