/** Deriving the next release version of a module from the tags that exist
    (scripts/calculate_version.py). */
module Versions {
  import opened Common

  // ---------------------------------------------------------------- numbers as text

  predicate IsDigit(c: char) {
    '0' <= c <= '9'
  }

  function Digit(n: nat): (c: char)
    requires n < 10
    ensures IsDigit(c) && DigitValue(c) == n
  {
    ('0' as int + n) as char
  }

  function DigitValue(c: char): (n: nat)
    requires IsDigit(c)
    ensures n < 10
  {
    c as int - '0' as int
  }

  /** Decimal digits, one or more. */
  function ParseNat(s: string): Option<nat> {
    if s == [] || !IsDigit(s[|s| - 1]) then None
    else if |s| == 1 then Some(DigitValue(s[0]))
    else
      var front := ParseNat(s[..|s| - 1]);
      if front.None? then None else Some(10 * front.value + DigitValue(s[|s| - 1]))
  }

  /** int(): decimal digits, after an optional sign. */
  function ParseInt(s: string): Option<int> {
    if s == [] then None
    else if s[0] == '-' then
      var n := ParseNat(s[1..]);
      if n.None? then None else Some(-(n.value as int))
    else if s[0] == '+' then ParseNat(s[1..])
    else ParseNat(s)
  }

  function PrintNat(n: nat): string {
    if n < 10 then [Digit(n)] else PrintNat(n / 10) + [Digit(n % 10)]
  }

  function PrintInt(n: int): string {
    if n < 0 then "-" + PrintNat(-n) else PrintNat(n)
  }

  /** split on dots. */
  function Split(s: string): (parts: seq<string>)
    ensures parts != []
  {
    if s == [] then [""]
    else
      var rest := Split(s[1..]);
      if s[0] == '.' then [""] + rest else [[s[0]] + rest[0]] + rest[1..]
  }

  // ---------------------------------------------------------------- versions

  datatype Version = Version(major: int, minor: int, patch: int)

  datatype BumpType = Major | Minor | Patch

  /** Tuple comparison, which is precedence in section 11 of Semantic Versioning 2.0.0. */
  predicate Below(a: Version, b: Version) {
    || a.major < b.major
    || (a.major == b.major && a.minor < b.minor)
    || (a.major == b.major && a.minor == b.minor && a.patch < b.patch)
  }

  function Print(v: Version): string {
    PrintInt(v.major) + ("." + (PrintInt(v.minor) + ("." + PrintInt(v.patch))))
  }

  function ParseSemver(s: string): Option<Version> {
    var parts := Split(s);
    if |parts| == 3 then FromParts(ParseInt(parts[0]), ParseInt(parts[1]), ParseInt(parts[2])) else None
  }

  function FromParts(major: Option<int>, minor: Option<int>, patch: Option<int>): Option<Version> {
    if major.Some? && minor.Some? && patch.Some? then Some(Version(major.value, minor.value, patch.value)) else None
  }

  function ApplyBump(v: Version, bump: BumpType): Version {
    match bump
    case Major => Version(v.major + 1, 0, 0)
    case Minor => Version(v.major, v.minor + 1, 0)
    case Patch => Version(v.major, v.minor, v.patch + 1)
  }

  // ---------------------------------------------------------------- tags

  datatype VersionError =
    | NoModulePath | NoConfigPrefix | UnsupportedScope(scope: string)
    | UnparseableLatest(latest: string) | Collision(tag: string)

  function BuildTagPrefix(scope: string, modulePath: string, configTagPrefix: string): Result<string, VersionError> {
    if scope == "module" then
      if modulePath == "" then Err(NoModulePath) else Ok(modulePath + "/v")
    else if scope == "config" then
      if configTagPrefix == "" then Err(NoConfigPrefix) else Ok(configTagPrefix + "/v")
    else Err(UnsupportedScope(scope))
  }

  /** The glob `<prefix>[0-9]*`, the prefix taken literally. */
  predicate Matches(tag: string, prefix: string) {
    prefix <= tag && |prefix| < |tag| && IsDigit(tag[|prefix|])
  }

  /** The version a tag carries for a prefix, if any. */
  function VersionIn(tag: string, prefix: string): Option<Version> {
    if Matches(tag, prefix) then ParseSemver(tag[|prefix|..]) else None
  }

  /** The versions released under a prefix, in tag order. */
  function VersionsOf(tags: seq<string>, prefix: string): seq<Version> {
    if tags == [] then []
    else
      var front, last := VersionsOf(tags[..|tags| - 1], prefix), VersionIn(tags[|tags| - 1], prefix);
      if last.Some? then front + [last.value] else front
  }

  function Largest(vs: seq<Version>): Version
    requires vs != []
  {
    var last := vs[|vs| - 1];
    if |vs| == 1 then last
    else
      var best := Largest(vs[..|vs| - 1]);
      if Below(best, last) then last else best
  }

  function FindLatest(tags: seq<string>, prefix: string): Option<string> {
    var vs := VersionsOf(tags, prefix);
    if vs == [] then None else Some(Print(Largest(vs)))
  }

  /** The tags the glob selects, in order. */
  function Matching(tags: seq<string>, prefix: string): seq<string> {
    if tags == [] then []
    else
      var front, last := Matching(tags[..|tags| - 1], prefix), tags[|tags| - 1];
      if Matches(last, prefix) then front + [last] else front
  }

  lemma {:induction false} MatchingIsEnough(tags: seq<string>, prefix: string)
    ensures VersionsOf(Matching(tags, prefix), prefix) == VersionsOf(tags, prefix)
    ensures forall t :: t in Matching(tags, prefix) ==> Matches(t, prefix)
  {
    if tags != [] {
      var front, last := tags[..|tags| - 1], tags[|tags| - 1];
      MatchingIsEnough(front, prefix);
      assert (Matching(front, prefix) + [last])[..|Matching(front, prefix)|] == Matching(front, prefix);
    }
  }

  method SelectMatching(tags: seq<string>, prefix: string) returns (matching: seq<string>)
    ensures matching == Matching(tags, prefix)
  {
    matching := [];
    for i := 0 to |tags|
      invariant matching == Matching(tags[..i], prefix)
    {
      assert tags[..i + 1][..i] == tags[..i];
      if Matches(tags[i], prefix) {
        matching := matching + [tags[i]];
      }
    }
    assert tags[..|tags|] == tags;
  }

  method MaxVersion(vs: seq<Version>) returns (best: Version)
    requires vs != []
    ensures best == Largest(vs)
  {
    best := vs[0];
    for i := 1 to |vs|
      invariant best == Largest(vs[..i])
    {
      assert vs[..i + 1][..i] == vs[..i];
      if Below(best, vs[i]) {
        best := vs[i];
      }
    }
    assert vs[..|vs|] == vs;
  }

  method FindLatestVersion(tags: seq<string>, prefix: string) returns (r: Option<string>)
    ensures r == FindLatest(tags, prefix)
  {
    var matching := SelectMatching(tags, prefix);
    MatchingIsEnough(tags, prefix);
    if matching == [] {
      return None;
    }
    var versions: seq<Version> := [];
    for i := 0 to |matching|
      invariant versions == VersionsOf(matching[..i], prefix)
    {
      assert matching[..i + 1][..i] == matching[..i] && matching[i] in matching;
      var parsed := ParseSemver(matching[i][|prefix|..]);
      if parsed.Some? {
        versions := versions + [parsed.value];
      }
    }
    assert matching[..|matching|] == matching;
    if versions == [] {
      return None;
    }
    var latest := MaxVersion(versions);
    return Some(Print(latest));
  }

  // ---------------------------------------------------------------- the next version

  datatype VersionResult = VersionResult(next: string, fullTag: string, prefix: string, bump: BumpType, initial: bool)

  function CalculateNextVersion(tags: seq<string>, prefix: string, bump: BumpType)
    : Result<VersionResult, VersionError>
  {
    var latest := FindLatest(tags, prefix);
    var current := if latest.None? then Some(Version(0, 0, 0)) else ParseSemver(latest.value);
    if current.None? then Err(UnparseableLatest(latest.value))
    else
      var next := Print(ApplyBump(current.value, bump));
      var fullTag := prefix + next;
      if fullTag in tags then Err(Collision(fullTag))
      else Ok(VersionResult(next, fullTag, prefix, bump, latest.None?))
  }

  // ---------------------------------------------------------------- histories of releases

  datatype Release = Release(prefix: string, bump: BumpType)

  type Outcome = Result<VersionResult, VersionError>

  /** A history: the tags before each release and at the end, the releases, and what was derived. */
  datatype History = History(tags: seq<seq<string>>, releases: seq<Release>, outcomes: seq<Outcome>)

  function Tagged(tags: seq<string>, outcome: Outcome): seq<string> {
    if outcome.Ok? then tags + [outcome.value.fullTag] else tags
  }

  ghost predicate ReleaseAt(h: History, k: nat)
    requires k < |h.releases| == |h.outcomes| && |h.tags| == |h.releases| + 1
  {
    && h.outcomes[k] == CalculateNextVersion(h.tags[k], h.releases[k].prefix, h.releases[k].bump)
    && h.tags[k + 1] == Tagged(h.tags[k], h.outcomes[k])
  }

  /** Each release is derived from the tags that are there, and its tag is there from then on. */
  ghost predicate IsHistory(h: History) {
    && |h.releases| == |h.outcomes| && |h.tags| == |h.releases| + 1
    && forall k :: 0 <= k < |h.releases| ==> ReleaseAt(h, k)
  }
}
