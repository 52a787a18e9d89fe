/** Which headers show their own name: those without a comment, and of the others only what the comment
    itself spells (scripts/check_required_var_wiring.py). */
module HclHeaderComments {
  import opened Common
  import opened HclParse
  import opened HclRoundTrip
  import opened HclBodyLaws
  import opened HclRoundTripLaws
  import opened HclReadBack

  /** A comment stands between the keyword and the brace. */
  predicate HasComment(ps: seq<Piece>) {
    exists i :: 0 <= i < |ps| && !ps[i].Space?
  }

  predicate Commented(v: Piece)
    requires v.Variable?
  {
    HasComment(v.gap) || HasComment(v.space)
  }

  /** A name as Terraform allows it, and more: no quote and no newline. */
  predicate PlainText(s: string) {
    forall i :: 0 <= i < |s| ==> s[i] != '"' && s[i] != '\n'
  }

  // ---------------------------------------------------------------- headers without comments

  lemma {:induction false} SpacesPrintAsTheyAre(ps: seq<Piece>)
    requires PiecesOk(ps) && AllBlank(ps) && !HasComment(ps)
    ensures RenderAll(ps) == MaskedAll(ps)
  {
    if ps != [] {
      TailIsOk(ps);
      assert ps[0].Space?;
      forall i | 0 <= i < |ps[1..]| ensures ps[1..][i].Space? {
        assert ps[i + 1].Space?;
      }
      SpacesPrintAsTheyAre(ps[1..]);
    }
  }

  lemma PlainHeaderIsRead(gap: string, name: string, space: string, rest: string)
    requires gap != [] && AllSpaces(gap) && AllSpaces(space) && PlainText(name)
    ensures FindName(HeaderText(gap, name, space) + rest) == Some(name)
  {
    HeaderChars(gap, name, space, rest);
    NameInPlace(gap, name, space, rest);
    FindsWhatItReads(HeaderText(gap, name, space) + rest, |gap|, |name|, |space|);
  }

  lemma FindsWhatItReads(s: string, gap: nat, name: nat, space: nat)
    requires HeaderParts(s, gap, name, space)
    ensures FindName(s) == Some(s[9 + gap..9 + gap + name])
  {
    HeaderIsRead(s, gap, name, space);
    NameOfHeader(s, Header(11 + gap + name + space, 9 + gap, name));
  }

  lemma NameInPlace(gap: string, name: string, space: string, rest: string)
    ensures (HeaderText(gap, name, space) + rest)[9 + |gap|..9 + |gap| + |name|] == name
  {
    HeaderSpelledOut(gap, name, space);
  }

  /** A header without comments shows its own name. */
  lemma CommentFreeShowsItsName(v: Piece)
    requires v.Variable? && PieceOk(v) && PlainText(NameOf(v)) && !Commented(v)
    ensures OwnName(v)
  {
    BlanksAreSpace(v.gap);
    BlanksAreSpace(v.space);
    SpacesPrintAsTheyAre(v.gap);
    SpacesPrintAsTheyAre(v.space);
    PlainHeaderIsRead(RenderAll(v.gap), NameOf(v), RenderAll(v.space), []);
    assert RawHeader(v) + [] == RawHeader(v);
  }

  // ---------------------------------------------------------------- headers with comments

  /** The first character that is not white space, if any, is neither of the two the pattern looks for. */
  predicate Stopped(s: string) {
    var j := Spaces(s);
    j < |s| && (s[j] == '/' || s[j] == '#')
  }

  lemma {:induction false} StoppedThrough(b: string, m: string)
    requires AllSpaces(b) && Stopped(m)
    ensures Stopped(b + m)
  {
    if b == [] {
      assert b + m == m;
    } else {
      StoppedThrough(b[1..], m);
      assert (b + m)[1..] == b[1..] + m;
    }
  }

  /** A comment stops the search for what comes after white space. */
  lemma {:induction false} CommentStops(ps: seq<Piece>, rest: string)
    requires PiecesOk(ps) && AllBlank(ps) && HasComment(ps)
    ensures Stopped(RenderAll(ps) + rest)
  {
    TailIsOk(ps);
    Associative(Render(ps[0]), RenderAll(ps[1..]), rest);
    if ps[0].Space? {
      var i :| 0 <= i < |ps| && !ps[i].Space?;
      assert ps[1..][i - 1] == ps[i];
      CommentStops(ps[1..], rest);
      StoppedThrough(ps[0].text, RenderAll(ps[1..]) + rest);
    }
  }

  lemma GapStops(gap: string, name: string, space: string)
    requires Stopped(gap + ("\"" + (name + ("\"" + (space + "{")))))
    ensures HeaderAt(HeaderText(gap, name, space)).None?
  {
    var back := gap + ("\"" + (name + ("\"" + (space + "{"))));
    var s := HeaderText(gap, name, space);
    HeaderSpelledOut(gap, name, space);
    Cut(VARIABLE, back);
    HeaderHasAQuote(s);
  }

  /** Where the pattern arrives after the name. */
  lemma AfterNameDecides(s: string, gap: nat, name: nat)
    requires VARIABLE <= s && gap > 0 && SpaceFrom(s, 8, gap) && s[8 + gap] == '"' && NameFrom(s, 9 + gap, name)
    requires Stopped(s[10 + gap + name..])
    ensures HeaderAt(s).None?
  {
    SpacesOf(s, 8, gap);
    NameCharsOf(s, 9 + gap, name);
    var tail := s[10 + gap + name..];
    assert tail[Spaces(tail)] == s[10 + gap + name + Spaces(tail)];
  }

  lemma SpaceStops(gap: string, name: string, space: string)
    requires gap != [] && AllSpaces(gap) && PlainText(name) && Stopped(space + "{")
    ensures HeaderAt(HeaderText(gap, name, space)).None?
  {
    HeaderSpelledOut(gap, name, space);
    var s := HeaderText(gap, name, space);
    assert s[10 + |gap| + |name|..] == space + "{";
    AfterNameDecides(s, |gap|, |name|);
  }

  /** The pattern does not match where the header stands. */
  lemma CommentHidesTheHeader(v: Piece)
    requires v.Variable? && PieceOk(v) && PlainText(NameOf(v)) && Commented(v)
    ensures HeaderAt(RawHeader(v)).None?
  {
    var gap, name, space := RenderAll(v.gap), NameOf(v), RenderAll(v.space);
    if HasComment(v.gap) {
      CommentStops(v.gap, "\"" + (name + ("\"" + (space + "{"))));
      GapStops(gap, name, space);
    } else {
      BlanksAreSpace(v.gap);
      SpacesPrintAsTheyAre(v.gap);
      CommentStops(v.space, "{");
      SpaceStops(gap, name, space);
    }
  }

  /** The keyword occurs in the header once, at its front. */
  ghost predicate KeywordOnce(s: string) {
    forall i :: 0 < i <= |s| ==> !(VARIABLE <= s[i..])
  }

  lemma {:induction false} NoKeywordNoName(s: string)
    requires HeaderAt(s).None? && KeywordOnce(s)
    ensures FindName(s).None?
    decreases |s|
  {
    if s != [] {
      var tail := s[1..];
      assert !(VARIABLE <= s[1..]);
      forall i | 0 < i <= |tail| ensures !(VARIABLE <= tail[i..]) {
        assert tail[i..] == s[i + 1..];
      }
      NoKeywordNoName(tail);
    }
  }

  /** The exact condition on a header in which the keyword does not occur again: it shows its own name if
      and only if no comment stands in it; with one, no name is found at all. */
  lemma CommentsDecide(v: Piece)
    requires v.Variable? && PieceOk(v) && PlainText(NameOf(v)) && KeywordOnce(RawHeader(v))
    ensures OwnName(v) <==> !Commented(v)
    ensures Commented(v) ==> FindName(RawHeader(v)) == None
  {
    if Commented(v) {
      CommentHidesTheHeader(v);
      NoKeywordNoName(RawHeader(v));
    } else {
      CommentFreeShowsItsName(v);
    }
  }

  /** Text in front of the next `v` is passed over in the search for a name. */
  lemma {:induction false} SearchPasses(a: string, b: string)
    requires forall i :: 0 <= i < |a| ==> a[i] != 'v'
    ensures FindName(a + b) == FindName(b)
  {
    if a == [] {
      assert a + b == b;
    } else {
      assert (a + b)[0] == a[0] != VARIABLE[0];
      assert HeaderAt(a + b).None?;
      assert (a + b)[1..] == a[1..] + b;
      SearchPasses(a[1..], b);
    }
  }

  /** A comment right after the keyword, with a header in it. */
  predicate SpellsHeader(v: Piece, before: string, gap: string, name: string, space: string, after: string)
    requires v.Variable?
  {
    && v.gap == [BlockComment(before + (HeaderText(gap, name, space) + after))]
    && gap != [] && AllSpaces(gap) && AllSpaces(space) && PlainText(name)
    && forall i :: 0 <= i < |before| ==> before[i] != 'v'
  }

  /** Then that header's name is taken for the declared one, whatever the declared one is. */
  lemma SpelledNameIsRead(v: Piece, before: string, gap: string, name: string, space: string, after: string)
    requires v.Variable? && PieceOk(v) && SpellsHeader(v, before, gap, name, space, after)
    ensures FindName(RawHeader(v)) == Some(name)
  {
    var inner := HeaderText(gap, name, space);
    var rest := after + ("*/" + AfterComment(v));
    var front := "ariable/*" + before;
    SpelledRaw(v, before, inner, after);
    CommentKeepsNoHeader(before + (inner + rest));
    SearchPasses(front, inner + rest);
    PlainHeaderIsRead(gap, name, space, rest);
  }

  function AfterComment(v: Piece): string
    requires v.Variable?
  {
    "\"" + (NameOf(v) + ("\"" + (RenderAll(v.space) + "{")))
  }

  lemma CommentKeepsNoHeader(tail: string)
    ensures HeaderAt(VARIABLE + ("/*" + tail)).None?
  {
    var s := VARIABLE + ("/*" + tail);
    HeaderHasAQuote(s);
    Cut(VARIABLE, "/*" + tail);
    assert Spaces("/*" + tail) == 0;
  }

  lemma SpelledRaw(v: Piece, before: string, inner: string, after: string)
    requires v.Variable? && v.gap == [BlockComment(before + (inner + after))]
    ensures var rest := after + ("*/" + AfterComment(v));
            && RawHeader(v) == VARIABLE + ("/*" + (before + (inner + rest)))
            && RawHeader(v)[1..] == ("ariable/*" + before) + (inner + rest)
  {
    var text, back := before + (inner + after), AfterComment(v);
    var rest := after + ("*/" + back);
    var comment := "/*" + (text + "*/");
    assert v.gap[1..] == [] && RenderAll(v.gap[1..]) == [];
    assert RenderAll(v.gap) == comment + [] == comment;
    HeaderSpelledOut(comment, NameOf(v), RenderAll(v.space));
    Assoc3("/*", text, "*/", back);
    Assoc3(before, inner, after, "*/" + back);
    Associative("ariable/*", before, inner + rest);
    KeywordTail("/*" + (before + (inner + rest)));
    Associative("ariable", "/*", before + (inner + rest));
    assert "ariable" + "/*" == "ariable/*";
  }

  lemma KeywordTail(back: string)
    ensures (VARIABLE + back)[1..] == "ariable" + back
  {
  }

  // ---------------------------------------------------------------- two inputs

  lemma SingleOutcome(v: Piece)
    requires v.Variable? && PieceOk(v) && v.body == []
    ensures ParseText(RawHeader(v) + "}") ==
            match FindName(RawHeader(v)) case None => Err(NoName) case Some(n) => Ok(map[n := false])
  {
    SinglePrinted(v);
    assert PiecesOk([v]) && [v][1..] == [];
    ParserOutcome([v]);
    OutcomeOfAll([v], map[]);
    assert Variables(v) == [v] + [] && VariablesAll([v]) == [v];
    assert !HasDefault([]);
  }

  lemma SinglePrinted(v: Piece)
    requires v.Variable? && v.body == []
    ensures RenderAll([v]) == RawHeader(v) + "}"
  {
    assert [v][1..] == [] && RenderAll([]) == [];
    assert [] + "}" == "}";
    assert (RawHeader(v) + "}") + [] == RawHeader(v) + "}";
  }

  const HIDDEN: Piece := Variable([Space(" ")], [Plain('x')], [BlockComment("")], [])

  lemma HiddenShape()
    ensures PieceOk(HIDDEN) && NameOf(HIDDEN) == "x" && Commented(HIDDEN)
    ensures RawHeader(HIDDEN) == HeaderText(" ", "x", "/**/")
  {
    var v := HIDDEN;
    assert v.gap[1..] == [] && v.space[1..] == [] && v.name[1..] == [];
    assert RenderAll(v.gap) == " " && RenderAll(v.space) == "/**/" && RenderStr(v.name) == "x";
    assert PiecesOk(v.gap) && PiecesOk(v.space) && PiecesOk([]);
    assert v.space[0].BlockComment?;
  }

  lemma HiddenSpelled()
    ensures HeaderText(" ", "x", "/**/") == ['v'] + "ariable \"x\"/**/{"
  {
    HeaderSpelledOut(" ", "x", "/**/");
    assert VARIABLE == ['v'] + "ariable";
  }

  lemma NoVNoName(tail: string)
    requires HeaderAt(['v'] + tail).None? && forall i :: 0 <= i < |tail| ==> tail[i] != 'v'
    ensures FindName(['v'] + tail).None?
  {
    assert (['v'] + tail)[1..] == tail;
    SearchPasses(tail, []);
    assert tail + [] == tail && HeaderAt([]).None?;
  }

  lemma HiddenChars()
    ensures forall i :: 0 <= i < |"ariable \"x\"/**/{"| ==> "ariable \"x\"/**/{"[i] != 'v'
    ensures (['v'] + "ariable \"x\"/**/{") + "}" == "variable \"x\"/**/{}"
  {
  }

  lemma HiddenSearch(tail: string)
    requires RawHeader(HIDDEN) == ['v'] + tail && forall i :: 0 <= i < |tail| ==> tail[i] != 'v'
    ensures ParseText((['v'] + tail) + "}") == Err(NoName)
  {
    HiddenShape();
    CommentHidesTheHeader(HIDDEN);
    NoVNoName(tail);
    SingleOutcome(HIDDEN);
  }

  /** A comment after the name: the declaration is found and its name is not, so the whole file is refused. */
  lemma CommentAfterNameIsRefused()
    ensures ParseText("variable \"x\"/**/{}") == Err(NoName)
  {
    HiddenShape();
    HiddenSpelled();
    HiddenChars();
    HiddenSearch("ariable \"x\"/**/{");
  }

  const MISREAD: Piece := Variable([BlockComment(" " + (HeaderText(" ", "y", " ") + " "))], [Plain('x')], [], [])

  lemma MisreadShape()
    ensures PieceOk(MISREAD) && SpellsHeader(MISREAD, " ", " ", "y", " ", " ")
  {
    HeaderSpelledOut(" ", "y", " ");
    var text := " " + (HeaderText(" ", "y", " ") + " ");
    assert forall i :: 0 <= i < |text| ==> text[i] != '*';
    assert Unclosed(text);
    assert PiecesOk(MISREAD.gap) && PiecesOk([]);
  }

  lemma MisreadText()
    ensures RawHeader(MISREAD) + "}" == "variable/* variable \"y\" { */\"x\"{}"
  {
    var v := MISREAD;
    SpelledRaw(v, " ", HeaderText(" ", "y", " "), " ");
    assert v.name[1..] == [] && RenderStr(v.name) == "x" && RenderAll(v.space) == [];
    assert AfterComment(v) == "\"x\"{";
    HeaderSpelledOut(" ", "y", " ");
    InnerText();
  }

  lemma InnerText()
    ensures VARIABLE + (" " + ("\"" + ("y" + ("\"" + (" " + "{"))))) == "variable \"y\" {"
    ensures VARIABLE + ("/*" + (" " + ("variable \"y\" {" + (" " + ("*/" + "\"x\"{"))))) + "}" ==
            "variable/* variable \"y\" { */\"x\"{}"
  {
  }

  /** A comment that spells a header: its name is taken for the declared one. */
  lemma NameIsReadFromComment()
    ensures ParseText("variable/* variable \"y\" { */\"x\"{}") == Ok(map["y" := false])
  {
    MisreadShape();
    MisreadText();
    SpelledNameIsRead(MISREAD, " ", " ", "y", " ", " ");
    SingleOutcome(MISREAD);
  }
}
