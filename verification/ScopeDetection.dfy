/** Classifying a changeset into one release scope (scripts/detect_scope.py). */
module ScopeDetection {
  import opened Common

  /** What a changed file belongs to; documentation in the terragrunt tree belongs to nothing. */
  datatype Label = Nothing | Terragrunt | Module(path: string) | ConfigFile

  datatype Violation =
    | ManyModules(paths: set<string>)
    | MixedScopes(modules: set<string>, terragrunt: bool, config: bool)

  datatype ScopeResult = ScopeResult(scope: string, modulePath: Option<string>, valid: bool, violations: seq<Violation>)

  const MARKDOWN: string := ".md"

  predicate EndsWith(s: string, suffix: string) {
    |s| >= |suffix| && s[|s| - |suffix|..] == suffix
  }

  /** Up to the first slash. */
  function Leaf(s: string): string {
    if s == [] || s[0] == '/' then [] else [s[0]] + Leaf(s[1..])
  }

  function StripSlashes(s: string): string {
    if s != [] && s[|s| - 1] == '/' then StripSlashes(s[..|s| - 1]) else s
  }

  /** None when the file name begins with a slash right after the root, or is the root itself. */
  function FindModulePath(file: string, root: string): Option<string>
    requires root <= file
  {
    var leaf := Leaf(file[|root|..]);
    if leaf == [] then None else Some(StripSlashes(root) + "/" + leaf)
  }

  /** The first root that the file is under. */
  function FirstRoot(file: string, roots: seq<string>): (r: Option<string>)
    ensures r.Some? ==> r.value <= file
  {
    if roots == [] then None else if roots[0] <= file then Some(roots[0]) else FirstRoot(file, roots[1..])
  }

  function LabelOf(file: string, roots: seq<string>, terragruntRoot: string): Label {
    if terragruntRoot <= file then
      if EndsWith(file, MARKDOWN) then Nothing else Terragrunt
    else
      match FirstRoot(file, roots)
      case None => ConfigFile
      case Some(root) =>
        match FindModulePath(file, root)
        case None => ConfigFile
        case Some(path) => Module(path)
  }

  /** Everything a changeset belongs to. */
  function Labels(files: seq<string>, roots: seq<string>, terragruntRoot: string): set<Label> {
    (set f | f in files :: LabelOf(f, roots, terragruntRoot)) - {Nothing}
  }

  function Modules(labels: set<Label>): set<string> {
    set l | l in labels && l.Module? :: l.path
  }

  // ---------------------------------------------------------------- the meaning

  /** At most one scope is touched. */
  ghost predicate OneScope(labels: set<Label>) {
    forall a, b :: a in labels && b in labels ==> a == b
  }

  ghost predicate TwoModules(labels: set<Label>) {
    exists a, b :: a in labels && b in labels && a.Module? && b.Module? && a != b
  }

  /** The result for a set of labels: valid when there is at most one, and then named after it. */
  ghost predicate Classifies(r: ScopeResult, labels: set<Label>) {
    && (r.valid <==> OneScope(labels))
    && (r.valid <==> r.violations == [])
    && (forall m :: r.modulePath == Some(m) <==> r.valid && Module(m) in labels)
    && (r.scope == "module" <==> r.valid && Modules(labels) != {})
    && (r.scope == "terragrunt" <==> r.valid && Terragrunt in labels)
    && (r.scope == "config" <==> r.valid && Modules(labels) == {} && Terragrunt !in labels)
    && (r.scope == "multi-module" <==> TwoModules(labels))
    && (r.scope == "mixed" <==> !r.valid && !TwoModules(labels))
    && (forall v :: v in r.violations ==> v.ManyModules? || v.MixedScopes?)
    && (TwoModules(labels) ==> r.violations == [ManyModules(Modules(labels))])
    && (r.scope == "mixed" ==>
        r.violations == [MixedScopes(Modules(labels), Terragrunt in labels, ConfigFile in labels)])
  }

  // ---------------------------------------------------------------- the classifier

  method FindRoot(file: string, roots: seq<string>) returns (matched: Option<string>)
    ensures matched == FirstRoot(file, roots)
  {
    matched := None;
    for i := 0 to |roots|
      invariant FirstRoot(file, roots) == FirstRoot(file, roots[i..])
    {
      assert roots[i..][1..] == roots[i + 1..];
      if roots[i] <= file {
        return Some(roots[i]);
      }
    }
  }

  /** The three collections of the loop agree with the labels seen so far. */
  ghost predicate Sorted(terragrunt: seq<string>, modules: map<string, seq<string>>, config: seq<string>,
                         labels: set<Label>)
  {
    && (terragrunt != [] <==> Terragrunt in labels)
    && (config != [] <==> ConfigFile in labels)
    && modules.Keys == Modules(labels) && Nothing !in labels
  }

  lemma OneMoreFile(files: seq<string>, i: nat, roots: seq<string>, terragruntRoot: string)
    requires i < |files|
    ensures Labels(files[..i + 1], roots, terragruntRoot) ==
            Labels(files[..i], roots, terragruntRoot) + ({LabelOf(files[i], roots, terragruntRoot)} - {Nothing})
  {
    assert files[..i + 1] == files[..i] + [files[i]];
  }

  lemma OneMoreModule(labels: set<Label>, path: string)
    ensures Modules(labels + {Module(path)}) == Modules(labels) + {path}
    ensures Modules(labels + {Terragrunt}) == Modules(labels) == Modules(labels + {ConfigFile})
  {
    assert Module(path).path in Modules(labels + {Module(path)});
    forall m | m in Modules(labels)
      ensures m in Modules(labels + {Module(path)})
      ensures m in Modules(labels + {Terragrunt}) && m in Modules(labels + {ConfigFile})
    {
      var l :| l in labels && l.Module? && l.path == m;
      assert l in labels + {Module(path)} && l in labels + {Terragrunt} && l in labels + {ConfigFile};
    }
  }

  method DetectScope(files: seq<string>, roots: seq<string>, terragruntRoot: string) returns (r: ScopeResult)
    ensures Classifies(r, Labels(files, roots, terragruntRoot))
  {
    if files == [] {
      r := ScopeResult("config", None, true, []);
      assert Labels(files, roots, terragruntRoot) == {};
      return;
    }
    var terragrunt: seq<string>, modules: map<string, seq<string>>, config: seq<string> := [], map[], [];
    for i := 0 to |files|
      invariant Sorted(terragrunt, modules, config, Labels(files[..i], roots, terragruntRoot))
    {
      ghost var labels := Labels(files[..i], roots, terragruntRoot);
      OneMoreFile(files, i, roots, terragruntRoot);
      var file := files[i];
      if terragruntRoot <= file {
        if !EndsWith(file, MARKDOWN) {
          terragrunt := terragrunt + [file];
          OneMoreModule(labels, "");
        } else {
          assert labels + ({Nothing} - {Nothing}) == labels;
        }
      } else {
        var root := FindRoot(file, roots);
        var path := if root.None? then None else FindModulePath(file, root.value);
        if path.Some? {
          OneMoreModule(labels, path.value);
          modules := modules[path.value := (if path.value in modules then modules[path.value] else []) + [file]];
        } else {
          OneMoreModule(labels, "");
          config := config + [file];
        }
      }
    }
    assert files[..|files|] == files;
    r := Decide(terragrunt, modules, config, Labels(files, roots, terragruntRoot));
  }

  /** The decision table. */
  method Decide(terragrunt: seq<string>, modules: map<string, seq<string>>, config: seq<string>,
                ghost labels: set<Label>)
    returns (r: ScopeResult)
    requires Sorted(terragrunt, modules, config, labels)
    ensures Classifies(r, labels)
  {
    var hasTerragrunt, hasConfig := terragrunt != [], config != [];
    CountModules(labels);
    if |modules.Keys| >= 2 {
      return ScopeResult("multi-module", None, false, [ManyModules(modules.Keys)]);
    }
    if |modules.Keys| >= 1 && (hasTerragrunt || hasConfig) {
      return ScopeResult("mixed", None, false, [MixedScopes(modules.Keys, hasTerragrunt, hasConfig)]);
    }
    if hasTerragrunt && hasConfig {
      return ScopeResult("mixed", None, false, [MixedScopes({}, true, true)]);
    }
    if |modules.Keys| == 1 {
      var path :| path in modules.Keys;
      return ScopeResult("module", Some(path), true, []);
    }
    if hasTerragrunt {
      return ScopeResult("terragrunt", None, true, []);
    }
    return ScopeResult("config", None, true, []);
  }

  /** Counting module paths, and what the counts say about the labels. */
  lemma CountModules(labels: set<Label>)
    ensures |Modules(labels)| >= 2 <==> TwoModules(labels)
    ensures |Modules(labels)| >= 1 <==> exists l :: l in labels && l.Module?
    ensures |Modules(labels)| == 0 <==> Modules(labels) == {}
    ensures forall m :: m in Modules(labels) <==> Module(m) in labels
  {
    forall m ensures m in Modules(labels) <==> Module(m) in labels {
      assert Module(m).path == m;
    }
    var ms := Modules(labels);
    if TwoModules(labels) {
      var a, b :| a in labels && b in labels && a.Module? && b.Module? && a != b;
      SubsetSize({a.path, b.path}, ms);
    }
    if |ms| >= 2 {
      var a := Pick(ms);
      var b := Pick(ms - {a});
      assert Module(a) in labels && Module(b) in labels;
    }
    if exists l :: l in labels && l.Module? {
      var l :| l in labels && l.Module?;
      assert l.path in ms;
    }
    if |ms| >= 1 {
      assert Module(Pick(ms)) in labels;
    }
  }

  // ---------------------------------------------------------------- laws

  lemma {:induction false} LeafOf(leaf: string, rest: string)
    requires '/' !in leaf && (rest == [] || rest[0] == '/')
    ensures Leaf(leaf + rest) == leaf
  {
    if leaf == [] {
      assert leaf + rest == rest;
    } else {
      assert leaf[0] in leaf && forall c :: c in leaf[1..] ==> c in leaf;
      LeafOf(leaf[1..], rest);
      assert (leaf + rest)[1..] == leaf[1..] + rest;
    }
  }

  /** A file belongs to the directory right below the first root it is under, however deep it lies, and a
      file right below the root to a module of its own name. */
  lemma ModuleOfFile(root: string, leaf: string, rest: string)
    requires leaf != [] && '/' !in leaf && (rest == [] || rest[0] == '/')
    ensures FindModulePath(root + (leaf + rest), root) == Some(StripSlashes(root) + "/" + leaf)
  {
    Cut(root, leaf + rest);
    LeafOf(leaf, rest);
  }

  /** The file is under root i and under no root before it. */
  ghost predicate Under(file: string, roots: seq<string>, i: nat) {
    i < |roots| && roots[i] <= file && forall j :: 0 <= j < i ==> !(roots[j] <= file)
  }

  lemma {:induction false} FirstRootMeaning(file: string, roots: seq<string>)
    ensures FirstRoot(file, roots).None? <==> forall j :: 0 <= j < |roots| ==> !(roots[j] <= file)
    ensures forall i: nat :: Under(file, roots, i) ==> FirstRoot(file, roots) == Some(roots[i])
    ensures FirstRoot(file, roots).Some? ==> exists i: nat :: Under(file, roots, i)
  {
    if roots != [] && !(roots[0] <= file) {
      var rest := roots[1..];
      FirstRootMeaning(file, rest);
      forall i: nat | Under(file, roots, i) ensures FirstRoot(file, roots) == Some(roots[i]) {
        assert i > 0 && rest[i - 1] == roots[i];
        forall j | 0 <= j < i - 1 ensures !(rest[j] <= file) {
          assert rest[j] == roots[j + 1];
        }
        assert Under(file, rest, i - 1);
      }
      if FirstRoot(file, roots).Some? {
        var k: nat :| Under(file, rest, k);
        forall j | 0 <= j < k + 1 ensures !(roots[j] <= file) {
          assert j > 0 ==> roots[j] == rest[j - 1];
        }
        assert Under(file, roots, k + 1);
      }
    } else if roots != [] {
      assert Under(file, roots, 0);
    }
  }

  /** A directory name right below the root follows it in the file's path. */
  ghost predicate Below(file: string, root: string) {
    root <= file && |root| < |file| && file[|root|] != '/'
  }

  ghost predicate IsMarkdown(file: string) {
    exists stem: string :: file == stem + MARKDOWN
  }

  /** What every file belongs to: the terragrunt tree if it lies there, its documentation aside and whatever
      the roots are; otherwise a module if a name follows the first root it is under; otherwise nothing
      more than the configuration, documentation included. */
  lemma LabelMeaning(file: string, roots: seq<string>, terragruntRoot: string)
    ensures var l := LabelOf(file, roots, terragruntRoot);
            && (l == Nothing <==> terragruntRoot <= file && IsMarkdown(file))
            && (l == Terragrunt <==> terragruntRoot <= file && !IsMarkdown(file))
            && (l.Module? <==> !(terragruntRoot <= file) &&
                               exists i: nat :: Under(file, roots, i) && Below(file, roots[i]))
            && (l == ConfigFile <==> !(terragruntRoot <= file) &&
                                     !exists i: nat :: Under(file, roots, i) && Below(file, roots[i]))
  {
    FirstRootMeaning(file, roots);
    EndsMeaning(file, MARKDOWN);
  }

  lemma EndsMeaning(s: string, suffix: string)
    ensures EndsWith(s, suffix) <==> exists stem: string :: s == stem + suffix
  {
    if EndsWith(s, suffix) {
      assert s == s[..|s| - |suffix|] + suffix;
    }
  }

  /** The module is named after the first root and the name that follows it. */
  lemma ModuleLabel(roots: seq<string>, i: nat, leaf: string, rest: string, terragruntRoot: string)
    requires i < |roots| && leaf != [] && '/' !in leaf && (rest == [] || rest[0] == '/')
    requires Under(roots[i] + (leaf + rest), roots, i) && !(terragruntRoot <= roots[i] + (leaf + rest))
    ensures LabelOf(roots[i] + (leaf + rest), roots, terragruntRoot) == Module(StripSlashes(roots[i]) + "/" + leaf)
  {
    FirstRootMeaning(roots[i] + (leaf + rest), roots);
    ModuleOfFile(roots[i], leaf, rest);
  }

  /** Only slashes are stripped, and all of them. */
  lemma {:induction false} StripMeaning(s: string)
    ensures StripSlashes(s) <= s && (StripSlashes(s) != [] ==> StripSlashes(s)[|StripSlashes(s)| - 1] != '/')
    ensures forall k :: |StripSlashes(s)| <= k < |s| ==> s[k] == '/'
  {
    if s != [] && s[|s| - 1] == '/' {
      StripMeaning(s[..|s| - 1]);
    }
  }

  /** The labels leave no choice: two results for the same labels are equal. */
  lemma ClassificationIsDetermined(a: ScopeResult, b: ScopeResult, labels: set<Label>)
    requires Classifies(a, labels) && Classifies(b, labels)
    ensures a == b
  {
    CountModules(labels);
    if OneScope(labels) && Modules(labels) != {} {
      var m := Pick(Modules(labels));
      assert a.modulePath == Some(m) && b.modulePath == Some(m);
    }
  }

  /** Order and repetition of the files do not matter, and neither does documentation in the terragrunt tree. */
  lemma OnlyLabelledFilesMatter(files: seq<string>, others: seq<string>, roots: seq<string>, terragruntRoot: string,
                                a: ScopeResult, b: ScopeResult)
    requires forall f :: f in files && !(terragruntRoot <= f && EndsWith(f, MARKDOWN)) ==> f in others
    requires forall f :: f in others && !(terragruntRoot <= f && EndsWith(f, MARKDOWN)) ==> f in files
    requires Classifies(a, Labels(files, roots, terragruntRoot)) && Classifies(b, Labels(others, roots, terragruntRoot))
    ensures a == b
  {
    SameLabels(files, others, roots, terragruntRoot);
    ClassificationIsDetermined(a, b, Labels(files, roots, terragruntRoot));
  }

  lemma SameLabels(files: seq<string>, others: seq<string>, roots: seq<string>, terragruntRoot: string)
    requires forall f :: f in files && !(terragruntRoot <= f && EndsWith(f, MARKDOWN)) ==> f in others
    requires forall f :: f in others && !(terragruntRoot <= f && EndsWith(f, MARKDOWN)) ==> f in files
    ensures Labels(files, roots, terragruntRoot) == Labels(others, roots, terragruntRoot)
  {
    MoreFilesMoreLabels(files, others, roots, terragruntRoot);
    MoreFilesMoreLabels(others, files, roots, terragruntRoot);
  }

  lemma MoreFilesMoreLabels(files: seq<string>, more: seq<string>, roots: seq<string>, terragruntRoot: string)
    requires forall f :: f in files && !(terragruntRoot <= f && EndsWith(f, MARKDOWN)) ==> f in more
    ensures Labels(files, roots, terragruntRoot) <= Labels(more, roots, terragruntRoot)
  {
    forall l | l in Labels(files, roots, terragruntRoot) ensures l in Labels(more, roots, terragruntRoot) {
      var f :| f in files && LabelOf(f, roots, terragruntRoot) == l;
      assert f in more;
    }
  }

  /** Adding files never makes an invalid changeset valid, nor fewer modules out of many. */
  lemma InvalidStaysInvalid(files: seq<string>, more: seq<string>, roots: seq<string>, terragruntRoot: string,
                            a: ScopeResult, b: ScopeResult)
    requires forall f :: f in files ==> f in more
    requires Classifies(a, Labels(files, roots, terragruntRoot)) && Classifies(b, Labels(more, roots, terragruntRoot))
    ensures !a.valid ==> !b.valid
    ensures a.scope == "multi-module" ==> b.scope == "multi-module"
  {
    MoreFilesMoreLabels(files, more, roots, terragruntRoot);
  }
}
