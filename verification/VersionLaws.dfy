/** Released versions only go up, tags never repeat, and prefixes do not disturb each other
    (scripts/calculate_version.py). */
module VersionLaws {
  import opened Common
  import opened Versions

  // ---------------------------------------------------------------- reading back what was printed

  lemma {:induction false} NatReadsBack(n: nat)
    ensures PrintNat(n) != [] && IsDigit(PrintNat(n)[0]) && ParseNat(PrintNat(n)) == Some(n)
  {
    if n >= 10 {
      NatReadsBack(n / 10);
      assert PrintNat(n)[..|PrintNat(n)| - 1] == PrintNat(n / 10);
    }
  }

  lemma MinusReadsBack(s: string)
    requires ParseNat(s).Some?
    ensures ParseInt("-" + s) == Some(-(ParseNat(s).value as int))
  {
    assert ("-" + s)[1..] == s;
  }

  lemma IntReadsBack(n: int)
    ensures ParseInt(PrintInt(n)) == Some(n)
  {
    if n < 0 {
      NatReadsBack(-n);
      MinusReadsBack(PrintNat(-n));
    } else {
      NatReadsBack(n);
    }
  }

  /** The characters of a printed number. */
  predicate NumberChar(c: char) {
    IsDigit(c) || c == '-'
  }

  lemma {:induction false} NatChars(n: nat)
    ensures forall i :: 0 <= i < |PrintNat(n)| ==> NumberChar(PrintNat(n)[i])
  {
    if n >= 10 {
      NatChars(n / 10);
    }
  }

  lemma IntChars(n: int)
    ensures forall i :: 0 <= i < |PrintInt(n)| ==> NumberChar(PrintInt(n)[i])
    ensures '.' !in PrintInt(n)
  {
    NatChars(if n < 0 then -n else n);
  }

  lemma {:induction false} SplitPart(a: string, rest: string)
    requires '.' !in a
    ensures Split(a) == [a]
    ensures Split(a + ("." + rest)) == [a] + Split(rest)
  {
    if a == [] {
      assert a + ("." + rest) == "." + rest;
      assert ("." + rest)[1..] == rest;
    } else {
      assert forall c :: c in a[1..] ==> c in a;
      SplitPart(a[1..], rest);
      var s := a + ("." + rest);
      assert s[1..] == a[1..] + ("." + rest) && s[0] == a[0] && a[0] in a;
      assert [a[0]] + a[1..] == a;
      assert ([a[1..]] + Split(rest))[1..] == Split(rest);
    }
  }

  /** Printing and parsing a version are inverse. */
  lemma VersionReadsBack(v: Version)
    ensures ParseSemver(Print(v)) == Some(v)
  {
    var a, b, c := PrintInt(v.major), PrintInt(v.minor), PrintInt(v.patch);
    IntReadsBack(v.major);
    IntReadsBack(v.minor);
    IntReadsBack(v.patch);
    IntChars(v.major);
    IntChars(v.minor);
    IntChars(v.patch);
    SplitPart(a, b + ("." + c));
    SplitPart(b, c);
    SplitPart(c, []);
    assert Split(Print(v)) == [a, b, c];
  }

  // ---------------------------------------------------------------- the latest version

  lemma {:induction false} VersionOfTag(tags: seq<string>, prefix: string, tag: string)
    requires tag in tags && VersionIn(tag, prefix).Some?
    ensures VersionIn(tag, prefix).value in VersionsOf(tags, prefix)
  {
    var front, last := tags[..|tags| - 1], tags[|tags| - 1];
    assert tags == front + [last];
    if tag != last {
      VersionOfTag(front, prefix, tag);
    }
  }

  lemma {:induction false} TagOfVersion(tags: seq<string>, prefix: string, v: Version)
    requires v in VersionsOf(tags, prefix)
    ensures exists tag :: tag in tags && VersionIn(tag, prefix) == Some(v)
  {
    var front, last := tags[..|tags| - 1], tags[|tags| - 1];
    assert tags == front + [last];
    if v in VersionsOf(front, prefix) {
      TagOfVersion(front, prefix, v);
      var tag :| tag in front && VersionIn(tag, prefix) == Some(v);
      assert tag in tags;
    } else {
      assert last in tags && VersionIn(last, prefix) == Some(v);
    }
  }

  lemma {:induction false} LargestIsLargest(vs: seq<Version>)
    requires vs != []
    ensures Largest(vs) in vs
    ensures forall v :: v in vs ==> v == Largest(vs) || Below(v, Largest(vs))
  {
    var front, last := vs[..|vs| - 1], vs[|vs| - 1];
    assert vs == front + [last];
    if |vs| > 1 {
      LargestIsLargest(front);
      assert Largest(front) in vs && last in vs;
    }
  }

  /** The latest version found is a version of the prefix and none is above it; nothing is found exactly
      when no tag carries a version of the prefix. */
  lemma LatestIsTheMaximum(tags: seq<string>, prefix: string, tag: string)
    ensures FindLatest(tags, prefix).None? ==> tag in tags ==> VersionIn(tag, prefix).None?
    ensures FindLatest(tags, prefix).Some? ==>
              exists t, v :: t in tags && VersionIn(t, prefix) == Some(v) && FindLatest(tags, prefix) == Some(Print(v))
                && forall u :: u in tags && VersionIn(u, prefix).Some? ==>
                     VersionIn(u, prefix) == Some(v) || Below(VersionIn(u, prefix).value, v)
  {
    var vs := VersionsOf(tags, prefix);
    if vs == [] {
      if tag in tags && VersionIn(tag, prefix).Some? {
        VersionOfTag(tags, prefix, tag);
      }
    } else {
      LargestIsLargest(vs);
      var v := Largest(vs);
      TagOfVersion(tags, prefix, v);
      var t :| t in tags && VersionIn(t, prefix) == Some(v);
      forall u | u in tags && VersionIn(u, prefix).Some?
        ensures VersionIn(u, prefix) == Some(v) || Below(VersionIn(u, prefix).value, v) {
        VersionOfTag(tags, prefix, u);
      }
    }
  }

  // ---------------------------------------------------------------- the next version

  /** The version from which the next one is derived. */
  function Current(tags: seq<string>, prefix: string): Version {
    var vs := VersionsOf(tags, prefix);
    if vs == [] then Version(0, 0, 0) else Largest(vs)
  }

  function Next(tags: seq<string>, prefix: string, bump: BumpType): Version {
    ApplyBump(Current(tags, prefix), bump)
  }

  /** w raises v at the level of the bump, whatever stands at the less significant levels. */
  predicate Raises(v: Version, w: Version, bump: BumpType) {
    match bump
    case Major => w.major > v.major && w.minor >= 0 && w.patch >= 0
    case Minor => w.major == v.major && w.minor > v.minor && w.patch >= 0
    case Patch => w.major == v.major && w.minor == v.minor && w.patch > v.patch
  }

  /** A bump is the least of the versions that raise v at its level, and is above v. */
  lemma BumpIsTheLeastRaise(v: Version, bump: BumpType, w: Version)
    ensures Raises(v, ApplyBump(v, bump), bump) && Below(v, ApplyBump(v, bump))
    ensures Raises(v, w, bump) ==> w == ApplyBump(v, bump) || Below(ApplyBump(v, bump), w)
  {
  }

  lemma MajorIsNotNegative(tag: string, prefix: string)
    requires VersionIn(tag, prefix).Some?
    ensures VersionIn(tag, prefix).value.major >= 0
  {
    var s := tag[|prefix|..];
    assert IsDigit(s[0]);
    SplitKeepsFront(s);
  }

  lemma SplitKeepsFront(s: string)
    requires s != [] && s[0] != '.'
    ensures Split(s)[0] != [] && Split(s)[0][0] == s[0]
  {
  }

  lemma CurrentMajor(tags: seq<string>, prefix: string)
    ensures Current(tags, prefix).major >= 0
  {
    var vs := VersionsOf(tags, prefix);
    if vs != [] {
      LargestIsLargest(vs);
      TagOfVersion(tags, prefix, Largest(vs));
      var tag :| tag in tags && VersionIn(tag, prefix) == Some(Largest(vs));
      MajorIsNotNegative(tag, prefix);
    }
  }

  /** A printed tag is read back as its version. */
  lemma TagReadsBack(prefix: string, v: Version)
    requires v.major >= 0
    ensures VersionIn(prefix + Print(v), prefix) == Some(v)
  {
    var tag := prefix + Print(v);
    Cut(prefix, Print(v));
    VersionReadsBack(v);
    NatReadsBack(v.major);
    assert tag[|prefix|] == Print(v)[0] == PrintNat(v.major)[0];
  }

  /** Above every version released under the prefix. */
  lemma NextIsAbove(tags: seq<string>, prefix: string, bump: BumpType, tag: string)
    requires tag in tags && VersionIn(tag, prefix).Some?
    ensures Below(VersionIn(tag, prefix).value, Next(tags, prefix, bump))
  {
    VersionOfTag(tags, prefix, tag);
    LargestIsLargest(VersionsOf(tags, prefix));
    BumpIsTheLeastRaise(Current(tags, prefix), bump, Current(tags, prefix));
  }

  /** Whatever tags exist, derivation succeeds: the latest version always parses and the new tag never
      exists yet, so neither error can occur. */
  lemma DerivationSucceeds(tags: seq<string>, prefix: string, bump: BumpType)
    ensures var v := Next(tags, prefix, bump);
            && CalculateNextVersion(tags, prefix, bump) ==
               Ok(VersionResult(Print(v), prefix + Print(v), prefix, bump, VersionsOf(tags, prefix) == []))
            && prefix + Print(v) !in tags
            && VersionIn(prefix + Print(v), prefix) == Some(v)
  {
    var vs := VersionsOf(tags, prefix);
    if vs != [] {
      VersionReadsBack(Largest(vs));
    }
    var v := Next(tags, prefix, bump);
    CurrentMajor(tags, prefix);
    TagReadsBack(prefix, v);
    if prefix + Print(v) in tags {
      NextIsAbove(tags, prefix, bump, prefix + Print(v));
    }
  }

  // ---------------------------------------------------------------- histories

  /** The version that release k derives. */
  function Derived(h: History, k: nat): Version
    requires k < |h.releases| && k < |h.tags|
  {
    Next(h.tags[k], h.releases[k].prefix, h.releases[k].bump)
  }

  /** Every release of a history succeeds and adds one tag, which was not there. */
  lemma OneNewTag(h: History, k: nat)
    requires IsHistory(h) && k < |h.releases|
    ensures h.outcomes[k].Ok? && h.outcomes[k].value.fullTag !in h.tags[k]
    ensures h.tags[k + 1] == h.tags[k] + [h.outcomes[k].value.fullTag]
  {
    assert ReleaseAt(h, k);
    DerivationSucceeds(h.tags[k], h.releases[k].prefix, h.releases[k].bump);
  }

  lemma {:induction false} TagsStay(h: History, i: nat, j: nat, tag: string)
    requires IsHistory(h) && i <= j <= |h.releases| && tag in h.tags[i]
    ensures tag in h.tags[j]
    decreases j
  {
    if i < j {
      TagsStay(h, i, j - 1, tag);
      OneNewTag(h, j - 1);
    }
  }

  /** No tag repeats, in any history of releases under any prefixes and from any tags. */
  lemma TagsNeverRepeat(h: History, i: nat, j: nat)
    requires IsHistory(h) && i < j < |h.releases|
    ensures h.outcomes[i].Ok? && h.outcomes[j].Ok? && h.outcomes[i].value.fullTag != h.outcomes[j].value.fullTag
  {
    OneNewTag(h, i);
    OneNewTag(h, j);
    TagsStay(h, i + 1, j, h.outcomes[i].value.fullTag);
  }

  lemma TagAt(h: History, k: nat)
    requires IsHistory(h) && k < |h.releases|
    ensures h.tags[k + 1] == h.tags[k] + [h.releases[k].prefix + Print(Derived(h, k))]
    ensures h.releases[k].prefix + Print(Derived(h, k)) in h.tags[k + 1]
  {
    assert ReleaseAt(h, k);
    DerivationSucceeds(h.tags[k], h.releases[k].prefix, h.releases[k].bump);
  }

  lemma NextIsAboveTag(tags: seq<string>, prefix: string, bump: BumpType, v: Version)
    requires prefix + Print(v) in tags && v.major >= 0
    ensures Below(v, Next(tags, prefix, bump))
  {
    TagReadsBack(prefix, v);
    NextIsAbove(tags, prefix, bump, prefix + Print(v));
  }

  lemma TagRemains(h: History, i: nat, j: nat, tag: string)
    requires IsHistory(h) && i < j <= |h.releases| && tag == h.releases[i].prefix + Print(Derived(h, i))
    ensures tag in h.tags[j]
  {
    TagAt(h, i);
    TagsStay(h, i + 1, j, tag);
  }

  /** The versions of a prefix go strictly up. */
  lemma VersionsGoUp(h: History, i: nat, j: nat)
    requires IsHistory(h) && i < j < |h.releases| && h.releases[i].prefix == h.releases[j].prefix
    ensures Below(Derived(h, i), Derived(h, j))
  {
    TagRemains(h, i, j, h.releases[i].prefix + Print(Derived(h, i)));
    CurrentMajor(h.tags[i], h.releases[i].prefix);
    NextIsAboveTag(h.tags[j], h.releases[j].prefix, h.releases[j].bump, Derived(h, i));
  }

  // ---------------------------------------------------------------- prefixes are independent

  /** The shape every built prefix has. */
  predicate TagPrefix(p: string) {
    |p| > 2 && p[|p| - 2..] == "/v"
  }

  lemma BuiltPrefixes(scope: string, modulePath: string, configTagPrefix: string)
    ensures var r := BuildTagPrefix(scope, modulePath, configTagPrefix);
            && (r.Ok? ==> TagPrefix(r.value))
            && (r.Ok? ==> r.value[..|r.value| - 2] == if scope == "module" then modulePath else configTagPrefix)
            && (r.Ok? <==> (scope == "module" && modulePath != "") || (scope == "config" && configTagPrefix != ""))
  {
  }

  lemma {:induction false} PartsCoverAll(s: string, c: char)
    requires c in s && c != '.'
    ensures exists i :: 0 <= i < |Split(s)| && c in Split(s)[i]
  {
    var rest := Split(s[1..]);
    if s[0] == c {
      assert c in Split(s)[0];
    } else {
      PartsCoverAll(s[1..], c);
      var i :| 0 <= i < |rest| && c in rest[i];
      if s[0] == '.' {
        assert Split(s)[i + 1] == rest[i];
      } else {
        assert c in Split(s)[i];
      }
    }
  }

  /** A text with a character that no number has is not a version. */
  lemma ForeignCharacter(s: string, c: char)
    requires c in s && c != '.' && !IsDigit(c) && c != '-' && c != '+'
    ensures ParseSemver(s).None?
  {
    PartsCoverAll(s, c);
    var parts := Split(s);
    var i :| 0 <= i < |parts| && c in parts[i];
    NotANumber(parts[i], c);
    BadPart(s, i);
  }

  lemma BadPart(s: string, i: nat)
    requires i < |Split(s)| && ParseInt(Split(s)[i]).None?
    ensures ParseSemver(s).None?
  {
  }

  lemma {:induction false} NotANat(s: string, c: char)
    requires c in s && !IsDigit(c)
    ensures ParseNat(s).None?
  {
    var front, last := s[..|s| - 1], s[|s| - 1];
    assert s == front + [last];
    if last != c {
      NotANat(front, c);
    }
  }

  lemma NotANumber(s: string, c: char)
    requires c in s && !IsDigit(c) && c != '-' && c != '+'
    ensures ParseInt(s).None?
  {
    assert s == [s[0]] + s[1..];
    if s[0] == '-' || s[0] == '+' {
      NotANat(s[1..], c);
    } else {
      NotANat(s, c);
    }
  }

  lemma PrintedChars(v: Version, i: nat)
    requires i < |Print(v)|
    ensures NumberChar(Print(v)[i]) || Print(v)[i] == '.'
  {
    IntChars(v.major);
    IntChars(v.minor);
    IntChars(v.patch);
  }

  lemma LongerPrefix(p: string, q: string, v: Version)
    requires TagPrefix(p) && |p| > |q|
    ensures !(p <= q + Print(v))
  {
    var tag := q + Print(v);
    if p <= tag {
      assert tag[|p| - 1] == p[|p| - 1] == p[|p| - 2..][1];
      PrintedChars(v, |p| - 1 - |q|);
    }
  }

  lemma ShorterPrefix(p: string, q: string, w: string)
    requires TagPrefix(p) && TagPrefix(q) && |p| < |q| && p <= q + w
    ensures '/' in (q + w)[|p|..]
  {
    var tag := q + w;
    assert p[|p| - 1] == p[|p| - 2..][1] && q[|q| - 2] == q[|q| - 2..][0];
    assert tag[|p| - 1] == p[|p| - 1] && tag[|q| - 2] == q[|q| - 2];
    assert tag[|p|..][|q| - 2 - |p|] == tag[|q| - 2];
  }

  /** A tag made for one prefix carries no version for another, even when one prefix extends the other. */
  lemma OtherPrefix(p: string, q: string, v: Version)
    requires TagPrefix(p) && TagPrefix(q) && p != q
    ensures VersionIn(q + Print(v), p).None?
  {
    var tag := q + Print(v);
    if p <= tag {
      if |p| > |q| {
        LongerPrefix(p, q, v);
      } else if |p| < |q| {
        ShorterPrefix(p, q, Print(v));
        ForeignCharacter(tag[|p|..], '/');
      }
    }
  }

  /** Derivation looks at the versions of its prefix only. */
  lemma OnlyOwnVersionsMatter(a: seq<string>, b: seq<string>, prefix: string, bump: BumpType)
    requires VersionsOf(a, prefix) == VersionsOf(b, prefix)
    ensures CalculateNextVersion(a, prefix, bump) == CalculateNextVersion(b, prefix, bump)
  {
    DerivationSucceeds(a, prefix, bump);
    DerivationSucceeds(b, prefix, bump);
  }

  lemma VersionsSnoc(tags: seq<string>, tag: string, prefix: string)
    ensures VersionsOf(tags + [tag], prefix) ==
            VersionsOf(tags, prefix) + if VersionIn(tag, prefix).Some? then [VersionIn(tag, prefix).value] else []
  {
    assert (tags + [tag])[..|tags|] == tags;
  }

  /** The tags as they would be had only the releases of one prefix been made. */
  function OwnTags(h: History, prefix: string, k: nat): seq<string>
    requires k <= |h.releases| == |h.outcomes| && |h.tags| == |h.releases| + 1
  {
    if k == 0 then h.tags[0]
    else if h.releases[k - 1].prefix == prefix then Tagged(OwnTags(h, prefix, k - 1), h.outcomes[k - 1])
    else OwnTags(h, prefix, k - 1)
  }

  lemma {:induction false} OwnVersions(h: History, prefix: string, k: nat)
    requires IsHistory(h) && k <= |h.releases| && TagPrefix(prefix)
    requires forall i :: 0 <= i < |h.releases| ==> TagPrefix(h.releases[i].prefix)
    ensures VersionsOf(h.tags[k], prefix) == VersionsOf(OwnTags(h, prefix, k), prefix)
  {
    if k > 0 {
      OwnVersions(h, prefix, k - 1);
      if h.releases[k - 1].prefix == prefix {
        OneNewTag(h, k - 1);
        SameAddition(h.tags[k - 1], OwnTags(h, prefix, k - 1), h.outcomes[k - 1].value.fullTag, prefix);
      } else {
        OtherRelease(h, prefix, k - 1);
      }
    }
  }

  lemma OtherRelease(h: History, prefix: string, k: nat)
    requires IsHistory(h) && k < |h.releases| && TagPrefix(prefix)
    requires TagPrefix(h.releases[k].prefix) && h.releases[k].prefix != prefix
    ensures VersionsOf(h.tags[k + 1], prefix) == VersionsOf(h.tags[k], prefix)
  {
    TagAt(h, k);
    OtherAddition(h.tags[k], h.releases[k].prefix, Derived(h, k), prefix);
  }

  lemma SameAddition(a: seq<string>, b: seq<string>, tag: string, prefix: string)
    requires VersionsOf(a, prefix) == VersionsOf(b, prefix)
    ensures VersionsOf(a + [tag], prefix) == VersionsOf(b + [tag], prefix)
  {
    VersionsSnoc(a, tag, prefix);
    VersionsSnoc(b, tag, prefix);
  }

  lemma OtherAddition(tags: seq<string>, other: string, v: Version, prefix: string)
    requires TagPrefix(prefix) && TagPrefix(other) && other != prefix
    ensures VersionsOf(tags + [other + Print(v)], prefix) == VersionsOf(tags, prefix)
  {
    OtherPrefix(prefix, other, v);
    VersionsSnoc(tags, other + Print(v), prefix);
  }

  /** What a prefix is given in a history with others is what it would be given alone. */
  lemma PrefixesAreIndependent(h: History, k: nat)
    requires IsHistory(h) && k < |h.releases|
    requires forall i :: 0 <= i < |h.releases| ==> TagPrefix(h.releases[i].prefix)
    ensures var r := h.releases[k];
            h.outcomes[k] == CalculateNextVersion(OwnTags(h, r.prefix, k), r.prefix, r.bump)
  {
    var r := h.releases[k];
    assert ReleaseAt(h, k);
    OwnVersions(h, r.prefix, k);
    OnlyOwnVersionsMatter(h.tags[k], OwnTags(h, r.prefix, k), r.prefix, r.bump);
  }
}
