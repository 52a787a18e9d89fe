/** The include-directory flags in which a scope of units travels between steps
    (scripts/resolve_deploy_role.py, scripts/partition_units_by_account.py). */
module UnitFlags {
  import opened Common

  const TOKEN: string := "--queue-include-dir"

  function NonSpaces(s: string): (n: nat)
    ensures n <= |s|
  {
    if s == [] || IsSpace(s[0]) then 0 else 1 + NonSpaces(s[1..])
  }

  /** A match of the flag pattern: the captured path, and how far the match reaches. */
  datatype Flag = Flag(path: string, length: nat)

  /** The flag pattern at the start of s: the token, white space, a path without white space. */
  function FlagAt(s: string): (f: Option<Flag>)
    ensures f.Some? ==> 0 < f.value.length <= |s|
  {
    if !(TOKEN <= s) then None
    else
      var gap := Spaces(s[|TOKEN|..]);
      var rest := s[|TOKEN| + gap..];
      var n := NonSpaces(rest);
      if gap == 0 || n == 0 then None else Some(Flag(rest[..n], |TOKEN| + gap + n))
  }

  /** Every path in a flags string, from left to right. */
  function Extract(s: string): seq<string>
    decreases |s|
  {
    if s == [] then []
    else
      match FlagAt(s)
      case None => Extract(s[1..])
      case Some(f) => [f.path] + Extract(s[f.length..])
  }

  function Join(parts: seq<string>): string {
    if parts == [] then ""
    else if |parts| == 1 then parts[0]
    else parts[0] + (" " + Join(parts[1..]))
  }

  function Parts(paths: seq<string>): seq<string> {
    if paths == [] then [] else [TOKEN, paths[0]] + Parts(paths[1..])
  }

  function Reassemble(paths: seq<string>): string {
    Join(Parts(paths))
  }

  lemma {:induction false} PartsSnoc(paths: seq<string>, p: string)
    ensures Parts(paths + [p]) == Parts(paths) + [TOKEN, p]
  {
    if paths == [] {
      assert paths + [p] == [p] && Parts([]) == [];
    } else {
      PartsSnoc(paths[1..], p);
      assert (paths + [p])[1..] == paths[1..] + [p];
      Associative([TOKEN, paths[0]], Parts(paths[1..]), [TOKEN, p]);
    }
  }

  method ReassembleFlags(paths: seq<string>) returns (flags: string)
    ensures flags == Reassemble(paths)
  {
    var parts: seq<string> := [];
    for i := 0 to |paths|
      invariant parts == Parts(paths[..i])
    {
      assert paths[..i + 1] == paths[..i] + [paths[i]];
      PartsSnoc(paths[..i], paths[i]);
      parts := parts + [TOKEN, paths[i]];
    }
    assert paths[..|paths|] == paths;
    flags := Join(parts);
  }

  // ---------------------------------------------------------------- round trip

  /** What the pattern can capture. */
  ghost predicate Plain(p: string) {
    p != [] && forall i :: 0 <= i < |p| ==> !IsSpace(p[i])
  }

  ghost predicate AllPlain(paths: seq<string>) {
    forall i :: 0 <= i < |paths| ==> Plain(paths[i])
  }

  lemma {:induction false} NonSpacesOf(s: string, n: nat)
    requires n <= |s| && (forall i :: 0 <= i < n ==> !IsSpace(s[i])) && (n < |s| ==> IsSpace(s[n]))
    ensures NonSpaces(s) == n
  {
    if n > 0 {
      NonSpacesOf(s[1..], n - 1);
    }
  }

  lemma {:induction false} NonSpacesArePlain(s: string)
    ensures forall i :: 0 <= i < NonSpaces(s) ==> !IsSpace(s[i])
  {
    if s != [] && !IsSpace(s[0]) {
      NonSpacesArePlain(s[1..]);
      assert forall i :: 1 <= i < NonSpaces(s) ==> s[i] == s[1..][i - 1];
    }
  }

  lemma FlagArePlain(s: string)
    requires FlagAt(s).Some?
    ensures Plain(FlagAt(s).value.path)
  {
    NonSpacesArePlain(s[|TOKEN| + Spaces(s[|TOKEN|..])..]);
  }

  /** Extracted paths are never empty and hold no white space. */
  lemma {:induction false} ExtractedArePlain(s: string, k: nat)
    requires k < |Extract(s)|
    ensures Plain(Extract(s)[k])
    decreases |s|
  {
    match FlagAt(s) {
      case None => ExtractedArePlain(s[1..], k);
      case Some(f) =>
        if k == 0 {
          FlagArePlain(s);
        } else {
          ExtractedArePlain(s[f.length..], k - 1);
        }
    }
  }

  /** The pattern spelled out: the token, some white space, a path, and white space or the end. */
  ghost predicate MadeOf(s: string, gap: string, p: string, more: string) {
    && s == TOKEN + (gap + (p + more)) && Plain(p) && (more == [] || IsSpace(more[0]))
    && gap != [] && forall i :: 0 <= i < |gap| ==> IsSpace(gap[i])
  }

  lemma {:induction false} SpacesOf(gap: string, rest: string)
    requires (forall i :: 0 <= i < |gap| ==> IsSpace(gap[i])) && (rest == [] || !IsSpace(rest[0]))
    ensures Spaces(gap + rest) == |gap|
  {
    if gap == [] {
      assert gap + rest == rest;
    } else {
      assert (gap + rest)[1..] == gap[1..] + rest;
      SpacesOf(gap[1..], rest);
    }
  }

  lemma {:induction false} SpacesAreSpace(s: string)
    ensures forall i :: 0 <= i < Spaces(s) ==> IsSpace(s[i])
  {
    if s != [] && IsSpace(s[0]) {
      SpacesAreSpace(s[1..]);
      assert forall i :: 1 <= i < Spaces(s) ==> s[i] == s[1..][i - 1];
    }
  }

  /** The match at the start of a text is the pattern: it is found exactly if the text is made so, and it
      reaches to the end of the path. */
  lemma FlagMeaning(s: string, p: string, n: nat)
    ensures FlagAt(s) == Some(Flag(p, n)) <==>
            exists gap, more :: MadeOf(s, gap, p, more) && n == |TOKEN| + |gap| + |p|
  {
    if gap, more :| MadeOf(s, gap, p, more) && n == |TOKEN| + |gap| + |p| {
      PatternIsMatched(s, gap, p, more);
    }
    if FlagAt(s) == Some(Flag(p, n)) {
      MatchIsPattern(s, p, n);
    }
  }

  lemma PatternIsMatched(s: string, gap: string, p: string, more: string)
    requires MadeOf(s, gap, p, more)
    ensures FlagAt(s) == Some(Flag(p, |TOKEN| + |gap| + |p|))
  {
    var back := gap + (p + more);
    Cut(TOKEN, back);
    assert (p + more)[0] == p[0];
    SpacesOf(gap, p + more);
    Cut(gap, p + more);
    assert s[|TOKEN| + |gap|..] == back[|gap|..];
    NonSpacesOf(p + more, |p|);
    Cut(p, more);
  }

  lemma MatchIsPattern(s: string, p: string, n: nat)
    requires FlagAt(s) == Some(Flag(p, n))
    ensures exists gap, more :: MadeOf(s, gap, p, more) && n == |TOKEN| + |gap| + |p|
  {
    var back := s[|TOKEN|..];
    var g := Spaces(back);
    var rest := s[|TOKEN| + g..];
    var gap, more := back[..g], rest[NonSpaces(rest)..];
    FlagArePlain(s);
    SpacesAreSpace(back);
    NonSpacesEnd(rest);
    assert rest == p + more && back == gap + rest && s == TOKEN + back;
    assert MadeOf(s, gap, p, more);
  }

  lemma {:induction false} NonSpacesEnd(s: string)
    ensures NonSpaces(s) < |s| ==> IsSpace(s[NonSpaces(s)])
  {
    if s != [] && !IsSpace(s[0]) {
      NonSpacesEnd(s[1..]);
    }
  }

  /** A printed flag is matched whole, whatever follows its path after a blank. */
  lemma FlagIsFound(p: string, more: string)
    requires Plain(p) && (more == [] || IsSpace(more[0]))
    ensures FlagAt(TOKEN + (" " + (p + more))) == Some(Flag(p, 20 + |p|))
  {
    PatternIsMatched(TOKEN + (" " + (p + more)), " ", p, more);
  }

  lemma ExtractFlag(p: string, more: string)
    requires Plain(p) && (more == [] || IsSpace(more[0]))
    ensures Extract(TOKEN + (" " + (p + more))) == [p] + Extract(more)
  {
    var s := TOKEN + (" " + (p + more));
    FlagIsFound(p, more);
    assert s[20 + |p|..] == more;
  }

  lemma ExtractBlank(s: string)
    ensures Extract(" " + s) == Extract(s)
  {
    assert (" " + s)[0] != TOKEN[0] && (" " + s)[1..] == s;
  }

  /** Reassembling plain paths and extracting them again gives them back, in order: even a path that
      itself contains the token is captured whole. */
  lemma {:induction false} ExtractReassembled(paths: seq<string>)
    requires AllPlain(paths)
    ensures Extract(Reassemble(paths)) == paths
  {
    if paths != [] {
      var p, rest := paths[0], paths[1..];
      ExtractReassembled(rest);
      JoinParts(paths);
      if rest == [] {
        ExtractFlag(p, []);
        assert p + [] == p && paths == [p];
      } else {
        ExtractFlag(p, " " + Reassemble(rest));
        ExtractBlank(Reassemble(rest));
        assert paths == [p] + rest;
      }
    }
  }

  lemma JoinParts(paths: seq<string>)
    requires paths != []
    ensures Reassemble(paths) ==
            TOKEN + (" " + if |paths| == 1 then paths[0] else paths[0] + (" " + Reassemble(paths[1..])))
  {
    var parts, rest := Parts(paths), Parts(paths[1..]);
    var tail := parts[1..];
    assert tail == [paths[0]] + rest && tail[1..] == rest;
    assert Join(parts) == TOKEN + (" " + Join(tail));
    if |paths| == 1 {
      assert rest == [];
    } else {
      assert |tail| > 1 && Join(tail) == tail[0] + (" " + Join(rest));
    }
  }

  /** So flags survive being taken apart and put together, whatever they were. */
  lemma ReassemblyKeepsTheScope(flags: string)
    ensures Extract(Reassemble(Extract(flags))) == Extract(flags)
  {
    forall k | 0 <= k < |Extract(flags)| ensures Plain(Extract(flags)[k]) {
      ExtractedArePlain(flags, k);
    }
    ExtractReassembled(Extract(flags));
  }
}
