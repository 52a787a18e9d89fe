/** What the body scan makes of printed text: only a default at the top level of the body shows
    (scripts/check_required_var_wiring.py). */
module HclBodyLaws {
  import opened Common
  import opened HclParse
  import opened HclRoundTrip

  /** Only whether the previous character is part of a word matters. */
  lemma {:induction false} BodyPrev(p: char, q: char, s: string, depth: nat, found: bool)
    requires IsToken(p) == IsToken(q)
    ensures Body(p, s, depth, found) == Body(q, s, depth, found)
  {
  }

  /** What comes before a character that is not part of a word does not matter at all. */
  lemma BodyAfterWord(p: char, q: char, s: string, depth: nat, found: bool)
    requires s == [] || !IsToken(s[0])
    ensures Body(p, s, depth, found) == Body(q, s, depth, found)
  {
  }

  /** No brace and no `d`: nothing for the body scan to react to. */
  predicate Inert(s: string) {
    forall i :: 0 <= i < |s| ==> s[i] !in "{}d"
  }

  lemma {:induction false} BodyInert(prev: char, s: string, rest: string, depth: nat, found: bool)
    requires Inert(s) && depth >= 1 && s != [] && !IsToken(s[|s| - 1])
    ensures Body(prev, s + rest, depth, found) == Body(' ', rest, depth, found)
    decreases |s|
  {
    assert (s + rest)[1..] == s[1..] + rest;
    if |s| == 1 {
      assert s[1..] + rest == rest;
      BodyPrev(s[0], ' ', rest, depth, found);
    } else {
      BodyInert(s[0], s[1..], rest, depth, found);
    }
  }

  /** A keyword cannot run past the end of a word. */
  lemma KeywordFits(k: string, w: string, rest: string)
    requires (forall i :: 0 <= i < |k| ==> IsToken(k[i])) && (rest == [] || !IsToken(rest[0]))
    ensures k <= w + rest ==> k <= w
  {
    var s := w + rest;
    if |w| >= |k| {
      assert w[..|k|] == s[..|k|];
    } else if rest != [] {
      assert s[|w|] == rest[0] && IsToken(k[|w|]);
    }
  }

  // ---------------------------------------------------------------- what follows a word

  predicate NoEqualsNext(m: string) {
    var j := Blanks(m);
    !(j < |m| && m[j] == '=')
  }

  predicate NoQuoteNext(m: string) {
    var j := Spaces(m);
    !(j < |m| && m[j] == '"')
  }

  /** The masked text after a piece leaves it alone: it does not complete a header or an assignment. */
  predicate Clear(p: Piece, m: string) {
    && Fits(p, m)
    && (p.Word? ==> (EndsInVariable(p.text) ==> NoQuoteNext(m)) && (EndsInDefault(p.text) ==> NoEqualsNext(m)))
  }

  lemma BlankIsSpace(p: Piece)
    requires PieceOk(p) && BlankPiece(p)
    ensures AllSpaces(Masked(p)) && Masked(p) != []
  {
  }

  lemma {:induction false} BlanksAreSpace(ps: seq<Piece>)
    requires PiecesOk(ps) && AllBlank(ps)
    ensures AllSpaces(MaskedAll(ps)) && (ps != [] ==> MaskedAll(ps) != [])
  {
    if ps != [] {
      TailIsOk(ps);
      BlankIsSpace(ps[0]);
      BlanksAreSpace(ps[1..]);
    }
  }

  lemma {:induction false} QuoteThrough(b: string, m: string)
    requires AllSpaces(b) && NoQuoteNext(m)
    ensures NoQuoteNext(b + m)
  {
    if b == [] {
      assert b + m == m;
    } else {
      QuoteThrough(b[1..], m);
      assert (b + m)[1..] == b[1..] + m;
    }
  }

  lemma {:induction false} EqualsThrough(b: string, m: string)
    requires AllSpaces(b) && NoEqualsNext(m)
    ensures NoEqualsNext(b + m)
  {
    if b == [] {
      assert b + m == m;
    } else {
      EqualsThrough(b[1..], m);
      assert (b + m)[1..] == b[1..] + m;
    }
  }

  /** The first character of a masked piece that is not blank. */
  lemma FirstChar(p: Piece)
    requires PieceOk(p) && !BlankPiece(p)
    ensures Masked(p) != [] && !IsSpace(Masked(p)[0])
    ensures Masked(p)[0] == '"' ==> p.Quoted?
    ensures Masked(p)[0] == '=' ==> p.Word? && "=" <= p.text
  {
    if p.Variable? {
      HeaderSpelledOut(MaskedAll(p.gap), MaskedStr(p.name), MaskedAll(p.space));
    }
  }

  lemma {:induction false} NextShows(after: seq<Piece>, rest: string)
    requires PiecesOk(after) && (rest == [] || rest[0] == '}')
    ensures !(Next(after).Some? && Next(after).value.Quoted?) ==> NoQuoteNext(MaskedAll(after) + rest)
    ensures !(Next(after).Some? && Next(after).value.Word? && "=" <= Next(after).value.text) ==>
              NoEqualsNext(MaskedAll(after) + rest)
  {
    if after == [] {
      assert MaskedAll(after) + rest == rest;
    } else {
      var m := MaskedAll(after[1..]) + rest;
      TailIsOk(after);
      NextShows(after[1..], rest);
      Associative(Masked(after[0]), MaskedAll(after[1..]), rest);
      if BlankPiece(after[0]) {
        BlankIsSpace(after[0]);
        if NoQuoteNext(m) {
          QuoteThrough(Masked(after[0]), m);
        }
        if NoEqualsNext(m) {
          EqualsThrough(Masked(after[0]), m);
        }
      } else {
        FirstChar(after[0]);
        NothingSkipped(Masked(after[0]) + m);
      }
    }
  }

  lemma NothingSkipped(m: string)
    requires m != [] && !IsSpace(m[0])
    ensures NoQuoteNext(m) <==> m[0] != '"'
    ensures NoEqualsNext(m) <==> m[0] != '='
  {
  }

  /** In a list, the first piece is clear of what follows. */
  lemma TailIsClear(ps: seq<Piece>, rest: string)
    requires ps != [] && PiecesOk(ps) && Closes(ps, rest)
    ensures PieceOk(ps[0]) && PiecesOk(ps[1..]) && Closes(ps[1..], rest) && Clear(ps[0], MaskedAll(ps[1..]) + rest)
  {
    TailFits(ps, rest);
    TailIsOk(ps);
    if ps[0].Word? {
      NextShows(ps[1..], rest);
    }
  }

  // ---------------------------------------------------------------- words

  /** A code word never reads as a default. */
  lemma NoDefaultInWord(prev: char, w: string, i: nat, rest: string)
    requires WordOk(w) && i < |w| && !IsToken(prev) && Clear(Word(w), rest)
    ensures !DefaultAt(if i == 0 then prev else w[i - 1], w[i..] + rest)
  {
    var s := w[i..] + rest;
    KeywordFits(DEFAULT, w[i..], rest);
    if i + 7 < |w| {
      assert s[7] == w[i + 7] && s[7..][0] == w[i + 7] && !IsSpace(w[i + 7]);
      assert DefaultWordAt(w, i) ==> w[i + 7] != '=';
      assert Blanks(s[7..]) == 0;
    } else if i + 7 == |w| {
      assert s[7..] == rest;
      assert rest != [] ==> s[7] == rest[0];
    }
  }

  lemma {:induction false} BodyWord(prev: char, w: string, i: nat, rest: string, depth: nat, found: bool)
    requires WordOk(w) && i <= |w| && depth >= 1 && !IsToken(prev) && Clear(Word(w), rest)
    ensures Body(if i == 0 then prev else w[i - 1], w[i..] + rest, depth, found) == Body(' ', rest, depth, found)
    decreases |w| - i
  {
    var pv, s := if i == 0 then prev else w[i - 1], w[i..] + rest;
    if i == |w| {
      assert s == rest;
      BodyAfterWord(pv, ' ', rest, depth, found);
    } else {
      NoDefaultInWord(prev, w, i, rest);
      BodyWord(prev, w, i + 1, rest, depth, found);
      assert s[0] == w[i] && s[1..] == w[i + 1..] + rest;
    }
  }

  // ---------------------------------------------------------------- strings, comments, defaults, headers

  predicate OnlyBlank(s: string) {
    forall i :: 0 <= i < |s| ==> s[i] == ' ' || s[i] == '\n'
  }

  lemma {:induction false} MaskedStrIsBlank(chars: seq<StrChar>)
    ensures OnlyBlank(MaskedStr(chars))
  {
    if chars != [] {
      MaskedStrIsBlank(chars[1..]);
    }
  }

  /** White space, strings and comments mask to inert text. */
  lemma StringsAndCommentsAreInert(p: Piece)
    requires PieceOk(p) && (p.Space? || p.Quoted? || p.LineComment? || p.BlockComment?)
    ensures var m := Masked(p); Inert(m) && m != [] && !IsToken(m[|m| - 1])
  {
    match p {
      case Space(ws) =>
      case Quoted(chars) =>
        MaskedStrIsBlank(chars);
        assert Masked(p) == "\"" + (MaskedStr(chars) + "\"");
      case LineComment(slashes, text) =>
      case BlockComment(text) =>
    }
  }

  lemma {:induction false} GapIsBlank(gap: seq<Piece>)
    requires PieceOk(Default(gap))
    ensures forall i :: 0 <= i < |MaskedAll(gap)| ==> IsBlank(MaskedAll(gap)[i])
  {
    if gap != [] {
      TailIsOk(gap);
      assert forall i :: 0 <= i < |gap[1..]| ==> gap[1..][i] == gap[i + 1];
      GapIsBlank(gap[1..]);
      assert StaysOnLine(gap[0]);
    }
  }

  lemma DefaultIsSeen(prev: char, gap: string, rest: string)
    requires (forall i :: 0 <= i < |gap| ==> IsBlank(gap[i])) && !IsToken(prev)
    ensures DefaultAt(prev, (DEFAULT + (gap + "=")) + rest)
  {
    var s := (DEFAULT + (gap + "=")) + rest;
    assert s[..7] == DEFAULT;
    assert s[7..] == gap + ("=" + rest);
    BlanksOf(gap, "=" + rest);
    assert s[7 + |gap|] == '=';
  }

  lemma {:induction false} BlanksOf(gap: string, rest: string)
    requires forall i :: 0 <= i < |gap| ==> IsBlank(gap[i])
    requires rest != [] && !IsBlank(rest[0])
    ensures Blanks(gap + rest) == |gap|
  {
    if gap == [] {
      assert gap + rest == rest;
    } else {
      BlanksOf(gap[1..], rest);
      assert (gap + rest)[1..] == gap[1..] + rest;
    }
  }

  lemma BodyDefault(prev: char, gap: string, rest: string, depth: nat, found: bool)
    requires (forall i :: 0 <= i < |gap| ==> IsBlank(gap[i])) && !IsToken(prev) && depth >= 1
    ensures Body(prev, (DEFAULT + (gap + "=")) + rest, depth, found) == Body(' ', rest, depth, found || depth == 1)
  {
    var s := (DEFAULT + (gap + "=")) + rest;
    var tail := "efault" + (gap + "=");
    DefaultIsSeen(prev, gap, rest);
    assert s[0] == 'd' && s[1..] == tail + rest;
    BodyInert('d', tail, rest, depth, found || depth == 1);
  }

  /** A masked header up to its brace. */
  function HeaderFront(gap: string, name: string, space: string): string {
    VARIABLE + (gap + ("\"" + (name + ("\"" + space))))
  }

  lemma FrontAndBrace(gap: string, name: string, space: string, rest: string)
    ensures HeaderText(gap, name, space) + rest == HeaderFront(gap, name, space) + ("{" + rest)
  {
    HeaderGroups(gap, name, space, rest);
    var back := "{" + rest;
    Associative(VARIABLE, gap + ("\"" + (name + ("\"" + space))), back);
    Associative(gap, "\"" + (name + ("\"" + space)), back);
    Assoc3("\"", name, "\"" + space, back);
    Associative("\"", space, back);
  }

  lemma FrontIsInert(gap: string, name: string, space: string)
    requires AllSpaces(gap) && OnlyBlank(name) && AllSpaces(space)
    ensures var front := HeaderFront(gap, name, space); Inert(front) && front != [] && !IsToken(front[|front| - 1])
  {
    var front := HeaderFront(gap, name, space);
    assert space == [] ==> front[|front| - 1] == '"';
    assert space != [] ==> front[|front| - 1] == space[|space| - 1];
  }

  // ---------------------------------------------------------------- pieces

  /** A body has a default at its top level. */
  predicate HasDefault(ps: seq<Piece>) {
    exists i :: 0 <= i < |ps| && ps[i].Default?
  }

  lemma OpenBrace(prev: char, inner: string, depth: nat, found: bool)
    requires depth >= 1
    ensures Body(prev, "{" + inner, depth, found) == Body(' ', inner, depth + 1, found)
  {
    assert ("{" + inner)[1..] == inner;
    BodyPrev('{', ' ', inner, depth + 1, found);
  }

  lemma CloseBrace(rest: string, depth: nat, found: bool)
    requires depth >= 1
    ensures Body(' ', "}" + rest, depth + 1, found) == Body(' ', rest, depth, found)
  {
    assert ("}" + rest)[1..] == rest;
    BodyPrev('}', ' ', rest, depth, found);
  }

  lemma BodyHeader(prev: char, gap: string, name: string, space: string, inner: string, depth: nat, found: bool)
    requires AllSpaces(gap) && OnlyBlank(name) && AllSpaces(space) && depth >= 1
    ensures Body(prev, HeaderText(gap, name, space) + inner, depth, found) == Body(' ', inner, depth + 1, found)
  {
    FrontAndBrace(gap, name, space, inner);
    FrontIsInert(gap, name, space);
    BodyInert(prev, HeaderFront(gap, name, space), "{" + inner, depth, found);
    OpenBrace(' ', inner, depth, found);
  }

  lemma VariableFront(prev: char, v: Piece, rest: string, depth: nat, found: bool)
    requires v.Variable? && PieceOk(v) && depth >= 1
    ensures Body(prev, Masked(v) + rest, depth, found) == Body(' ', MaskedAll(v.body) + ("}" + rest), depth + 1, found)
  {
    var gap, name, space := MaskedAll(v.gap), MaskedStr(v.name), MaskedAll(v.space);
    BlanksAreSpace(v.gap);
    BlanksAreSpace(v.space);
    MaskedStrIsBlank(v.name);
    Assoc3(HeaderText(gap, name, space), MaskedAll(v.body), "}", rest);
    BodyHeader(prev, gap, name, space, MaskedAll(v.body) + ("}" + rest), depth, found);
  }

  /** What one piece does to the body scan: only a default at depth one shows. */
  lemma {:induction false} BodyPiece(prev: char, p: Piece, rest: string, depth: nat, found: bool)
    requires PieceOk(p) && Clear(p, rest) && depth >= 1 && !IsToken(prev)
    ensures Body(prev, Masked(p) + rest, depth, found) == Body(' ', rest, depth, found || (depth == 1 && p.Default?))
    decreases p, 0
  {
    match p {
      case Word(w) =>
        BodyWord(prev, w, 0, rest, depth, found);
        assert w[0..] == w;
      case Nested(body) =>
        Assoc3("{", MaskedAll(body), "}", rest);
        OpenBrace(prev, MaskedAll(body) + ("}" + rest), depth, found);
        BodyPieces(' ', body, "}" + rest, depth + 1, found);
        CloseBrace(rest, depth, found);
      case Default(gap) =>
        GapIsBlank(gap);
        BodyDefault(prev, MaskedAll(gap), rest, depth, found);
      case Variable(gap, name, space, body) =>
        VariableFront(prev, p, rest, depth, found);
        BodyPieces(' ', body, "}" + rest, depth + 1, found);
        CloseBrace(rest, depth, found);
      case _ =>
        StringsAndCommentsAreInert(p);
        BodyInert(prev, Masked(p), rest, depth, found);
    }
  }

  lemma {:induction false} BodyPieces(prev: char, ps: seq<Piece>, rest: string, depth: nat, found: bool)
    requires PiecesOk(ps) && Closes(ps, rest) && depth >= 1 && !IsToken(prev)
    ensures Body(prev, MaskedAll(ps) + rest, depth, found) ==
            Body(' ', rest, depth, found || (depth == 1 && HasDefault(ps)))
    decreases ps, 1
  {
    if ps == [] {
      assert MaskedAll(ps) + rest == rest;
      BodyPrev(prev, ' ', rest, depth, found);
    } else {
      var seen := found || (depth == 1 && ps[0].Default?);
      Associative(Masked(ps[0]), MaskedAll(ps[1..]), rest);
      TailIsClear(ps, rest);
      BodyPiece(prev, ps[0], MaskedAll(ps[1..]) + rest, depth, found);
      BodyPieces(' ', ps[1..], rest, depth, seen);
      HasDefaultSplit(ps);
    }
  }

  lemma HasDefaultSplit(ps: seq<Piece>)
    requires ps != []
    ensures HasDefault(ps) <==> ps[0].Default? || HasDefault(ps[1..])
  {
    if HasDefault(ps[1..]) {
      var i :| 0 <= i < |ps[1..]| && ps[1..][i].Default?;
      assert ps[i + 1].Default?;
    }
    if HasDefault(ps) && !ps[0].Default? {
      var i :| 0 <= i < |ps| && ps[i].Default?;
      assert ps[1..][i - 1].Default?;
    }
  }

  /** The scan of a printed block finds its end and its default. */
  lemma BodyOfBlock(body: seq<Piece>, rest: string)
    requires PiecesOk(body)
    ensures Body('{', MaskedAll(body) + ("}" + rest), 1, false) == Some(HasDefault(body))
  {
    BodyPieces('{', body, "}" + rest, 1, false);
    assert ("}" + rest)[1..] == rest;
  }
}
