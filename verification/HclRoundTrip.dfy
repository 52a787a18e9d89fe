/** Printing variable files: any layout of words, strings, comments, nested blocks and variable blocks,
    and what masking makes of the printed text (scripts/check_required_var_wiring.py). */
module HclRoundTrip {
  import opened Common
  import opened HclMask
  import opened HclParse

  // ---------------------------------------------------------------- abstract files

  /** A character of a string literal, as written: plain, or after a backslash. */
  datatype StrChar = Plain(c: char) | Escaped(c: char)

  /** A file is a list of pieces. */
  datatype Piece =
    | Word(text: string)                         // code without white space, strings, comments or braces
    | Space(text: string)                        // any white space, newlines included
    | Quoted(chars: seq<StrChar>)                // a string literal with any content
    | LineComment(slashes: bool, text: string)   // # or //, to the end of the line
    | BlockComment(text: string)
    | Nested(body: seq<Piece>)                   // { ... }
    | Default(gap: seq<Piece>)                   // default, blanks and comments, an equals sign
    | Variable(gap: seq<Piece>, name: seq<StrChar>, space: seq<Piece>, body: seq<Piece>)
                                                 // variable, its quoted name, its block; comments between

  predicate StrCharOk(c: StrChar) {
    c.Plain? ==> c.c != '"' && c.c != '\\'
  }

  predicate StrOk(chars: seq<StrChar>) {
    forall i :: 0 <= i < |chars| ==> StrCharOk(chars[i])
  }

  /** A name stays on its line, as far as the mask shows. */
  predicate NameOk(chars: seq<StrChar>) {
    StrOk(chars) && forall i :: 0 <= i < |chars| ==> chars[i] != Plain('\n')
  }

  /** Text that is code throughout: no quote, and no way into a comment. */
  predicate CodeOnly(w: string) {
    && (forall i :: 0 <= i < |w| ==> w[i] != '"' && w[i] != '#')
    && (forall i :: 0 < i < |w| && w[i - 1] == '/' ==> w[i] != '/' && w[i] != '*')
  }

  /** A word; an assignment to `default` is not one but a `Default`. */
  predicate WordOk(w: string) {
    && w != [] && CodeOnly(w)
    && (forall i :: 0 <= i < |w| ==> !IsSpace(w[i]) && w[i] != '{' && w[i] != '}')
    && forall i :: 0 <= i < |w| && DefaultWordAt(w, i) && i + 7 < |w| ==> w[i + 7] != '='
  }

  /** `default` stands at i as a whole word. */
  predicate DefaultWordAt(w: string, i: nat)
    requires i <= |w|
  {
    && DEFAULT <= w[i..] && (i == 0 || !IsToken(w[i - 1])) && (i + 7 == |w| || !IsToken(w[i + 7]))
  }

  predicate EndsInSlash(w: string) {
    w != [] && w[|w| - 1] == '/'
  }

  predicate EndsInVariable(w: string) {
    |w| >= 8 && w[|w| - 8..] == VARIABLE
  }

  predicate EndsInDefault(w: string) {
    |w| >= 7 && DefaultWordAt(w, |w| - 7)
  }

  /** Pieces that mask to white space. */
  predicate BlankPiece(p: Piece) {
    p.Space? || p.LineComment? || p.BlockComment?
  }

  /** The first piece that does not. */
  function Next(ps: seq<Piece>): Option<Piece> {
    if ps == [] then None else if BlankPiece(ps[0]) then Next(ps[1..]) else Some(ps[0])
  }

  /** A word is not continued by the next piece, does not turn into a comment with it, and does not with
      the next piece that is code make up the beginning of a header or an assignment to `default`. */
  predicate WordFits(w: string, after: seq<Piece>) {
    && (after != [] ==>
          && !after[0].Word? && !after[0].Default? && !after[0].Variable?
          && (EndsInSlash(w) ==> !(after[0].LineComment? && after[0].slashes) && !after[0].BlockComment?))
    && (EndsInVariable(w) ==> !(Next(after).Some? && Next(after).value.Quoted?))
    && (EndsInDefault(w) ==> !(Next(after).Some? && Next(after).value.Word? && "=" <= Next(after).value.text))
  }

  predicate IsBlank(c: char) {
    c == ' ' || c == '\t'
  }

  /** Between `default` and its equals sign: blanks, and comments that stay on the line. */
  predicate StaysOnLine(p: Piece) {
    match p
    case Space(ws) => forall i :: 0 <= i < |ws| ==> IsBlank(ws[i])
    case BlockComment(text) => '\n' !in text
    case _ => false
  }

  predicate PieceOk(p: Piece)
    decreases p, 0
  {
    match p
    case Word(w) => WordOk(w)
    case Space(ws) => ws != [] && AllSpaces(ws)
    case Quoted(chars) => StrOk(chars)
    case LineComment(_, text) => '\n' !in text
    case BlockComment(text) => Unclosed(text)
    case Nested(body) => PiecesOk(body)
    case Default(gap) => PiecesOk(gap) && forall i :: 0 <= i < |gap| ==> StaysOnLine(gap[i])
    case Variable(gap, name, space, body) =>
      && gap != [] && PiecesOk(gap) && AllBlank(gap) && NameOk(name)
      && PiecesOk(space) && AllBlank(space) && PiecesOk(body)
  }

  predicate PiecesOk(ps: seq<Piece>)
    decreases ps, 1
  {
    && (forall i :: 0 <= i < |ps| ==> PieceOk(ps[i]))
    && forall i :: 0 <= i < |ps| && ps[i].Word? ==> WordFits(ps[i].text, ps[i + 1..])
  }

  predicate AllBlank(ps: seq<Piece>) {
    forall i :: 0 <= i < |ps| ==> BlankPiece(ps[i])
  }

  predicate AllSpaces(s: string) {
    forall i :: 0 <= i < |s| ==> IsSpace(s[i])
  }

  // ---------------------------------------------------------------- printing

  function RenderStr(chars: seq<StrChar>): string {
    if chars == [] then []
    else (match chars[0] case Plain(c) => [c] case Escaped(c) => ['\\', c]) + RenderStr(chars[1..])
  }

  function Render(p: Piece): string
    decreases p, 0
  {
    match p
    case Word(w) => w
    case Space(ws) => ws
    case Quoted(chars) => "\"" + (RenderStr(chars) + "\"")
    case LineComment(slashes, text) => (if slashes then "//" else "#") + (text + "\n")
    case BlockComment(text) => "/*" + (text + "*/")
    case Nested(body) => "{" + (RenderAll(body) + "}")
    case Default(gap) => DEFAULT + (RenderAll(gap) + "=")
    case Variable(gap, name, space, body) =>
      HeaderText(RenderAll(gap), RenderStr(name), RenderAll(space)) + (RenderAll(body) + "}")
  }

  function RenderAll(ps: seq<Piece>): string
    decreases ps, 1
  {
    if ps == [] then [] else Render(ps[0]) + RenderAll(ps[1..])
  }

  function HeaderFields(gap: string, name: string, space: string): seq<string> {
    [VARIABLE, gap, "\"", name, "\"", space, "{"]
  }

  function HeaderText(gap: string, name: string, space: string): (s: string)
    ensures |s| == 11 + |gap| + |name| + |space|
  {
    HeaderSpelledOut(gap, name, space);
    Flatten(HeaderFields(gap, name, space))
  }

  lemma FlattenCons(x: string, rest: seq<string>)
    ensures Flatten([x] + rest) == x + Flatten(rest)
  {
    assert ([x] + rest)[1..] == rest;
  }

  lemma HeaderSpelledOut(gap: string, name: string, space: string)
    ensures Flatten(HeaderFields(gap, name, space)) ==
            VARIABLE + (gap + ("\"" + (name + ("\"" + (space + "{")))))
  {
    var s6, s5, s4 := ["{"], [space, "{"], ["\"", space, "{"];
    var s3, s2 := [name] + s4, ["\"", name] + s4;
    FlattenCons(VARIABLE, [gap] + s2);
    FlattenCons(gap, s2);
    FlattenCons("\"", s3);
    FlattenCons(name, s4);
    FlattenCons("\"", s5);
    FlattenCons(space, s6);
    FlattenCons("{", []);
    assert HeaderFields(gap, name, space) == [VARIABLE] + ([gap] + s2);
    assert s2 == ["\""] + s3 && s4 == ["\""] + s5 && s5 == [space] + s6 && s6 == ["{"] + [];
    assert "{" + [] == "{" && Flatten<char>([]) == [];
  }

  /** The header of a variable block as it is printed. */
  function RawHeader(v: Piece): string
    requires v.Variable?
  {
    HeaderText(RenderAll(v.gap), RenderStr(v.name), RenderAll(v.space))
  }

  // ---------------------------------------------------------------- printed text, masked

  function Spaced(n: nat): string {
    seq(n, i => ' ')
  }

  function MaskedStr(chars: seq<StrChar>): string {
    if chars == [] then []
    else (match chars[0] case Plain(c) => [Blank(c)] case Escaped(c) => [' ', ' ']) + MaskedStr(chars[1..])
  }

  function BlankAll(s: string): string {
    seq(|s|, i requires 0 <= i < |s| => Blank(s[i]))
  }

  function Masked(p: Piece): string
    decreases p, 0
  {
    match p
    case Word(w) => w
    case Space(ws) => ws
    case Quoted(chars) => "\"" + (MaskedStr(chars) + "\"")
    case LineComment(slashes, text) => (if slashes then "  " else " ") + (Spaced(|text|) + "\n")
    case BlockComment(text) => "  " + (BlankAll(text) + "  ")
    case Nested(body) => "{" + (MaskedAll(body) + "}")
    case Default(gap) => DEFAULT + (MaskedAll(gap) + "=")
    case Variable(gap, name, space, body) =>
      HeaderText(MaskedAll(gap), MaskedStr(name), MaskedAll(space)) + (MaskedAll(body) + "}")
  }

  function MaskedAll(ps: seq<Piece>): string
    decreases ps, 1
  {
    if ps == [] then [] else Masked(ps[0]) + MaskedAll(ps[1..])
  }

  /** What may stand after a piece: anything, except that a word is over and its last slash is no comment. */
  predicate Fits(p: Piece, rest: string) {
    p.Word? && rest != [] ==> !IsToken(rest[0]) && (EndsInSlash(p.text) ==> rest[0] != '/' && rest[0] != '*')
  }

  /** What may stand after a list of pieces: the end of a block or of the file, or after blank ones anything. */
  predicate Closes(ps: seq<Piece>, rest: string) {
    rest == [] || rest[0] == '}' || AllBlank(ps)
  }

  /** Code masks to itself, whatever follows. */
  lemma {:induction false} MaskPlain(w: string, rest: string)
    requires CodeOnly(w) && (EndsInSlash(w) && rest != [] ==> rest[0] != '/' && rest[0] != '*')
    ensures Mask(Code, w + rest) == w + Mask(Code, rest)
    decreases |w|
  {
    if w == [] {
      assert w + rest == rest;
    } else {
      var tail := w[1..] + rest;
      assert forall i :: 0 <= i < |w[1..]| ==> w[1..][i] == w[i + 1];
      MaskPlain(w[1..], rest);
      assert w + rest == [w[0]] + tail;
      assert tail != [] ==> tail[0] == if |w| > 1 then w[1] else rest[0];
      OneChar(Code, w[0], tail);
      Associative([w[0]], w[1..], Mask(Code, rest));
      assert w == [w[0]] + w[1..];
    }
  }

  lemma StrFront(c: StrChar, tail: string)
    requires StrCharOk(c)
    ensures Mask(Str, RenderStr([c]) + tail) == MaskedStr([c]) + Mask(Str, tail)
  {
    match c {
      case Plain(x) =>
        assert RenderStr([c]) == [x] && MaskedStr([c]) == [Blank(x)];
        assert ([x] + tail)[1..] == tail;
      case Escaped(x) =>
        assert RenderStr([c]) == ['\\', x] && MaskedStr([c]) == [' ', ' '];
        assert (['\\', x] + tail)[2..] == tail;
    }
  }

  lemma {:induction false} MaskStrChars(chars: seq<StrChar>, rest: string)
    requires StrOk(chars)
    ensures Mask(Str, RenderStr(chars) + ("\"" + rest)) == MaskedStr(chars) + ("\"" + Mask(Code, rest))
  {
    if chars == [] {
      assert RenderStr(chars) + ("\"" + rest) == "\"" + rest;
      assert ("\"" + rest)[1..] == rest;
      assert MaskedStr(chars) + ("\"" + Mask(Code, rest)) == "\"" + Mask(Code, rest);
    } else {
      var c, tail := chars[0], RenderStr(chars[1..]) + ("\"" + rest);
      MaskStrChars(chars[1..], rest);
      StrFront(c, tail);
      StrSplit(chars);
      Associative(RenderStr([c]), RenderStr(chars[1..]), "\"" + rest);
      Associative(MaskedStr([c]), MaskedStr(chars[1..]), "\"" + Mask(Code, rest));
    }
  }

  lemma StrSplit(chars: seq<StrChar>)
    requires chars != []
    ensures RenderStr(chars) == RenderStr([chars[0]]) + RenderStr(chars[1..])
    ensures MaskedStr(chars) == MaskedStr([chars[0]]) + MaskedStr(chars[1..])
  {
    assert RenderStr([]) == [] && MaskedStr([]) == [];
  }

  lemma {:induction false} MaskLine(text: string, rest: string)
    requires '\n' !in text
    ensures Mask(Line, text + ("\n" + rest)) == Spaced(|text|) + ("\n" + Mask(Code, rest))
  {
    if text == [] {
      assert text + ("\n" + rest) == "\n" + rest;
      assert ("\n" + rest)[1..] == rest;
      assert Spaced(0) + ("\n" + Mask(Code, rest)) == "\n" + Mask(Code, rest);
    } else {
      var tail := text[1..] + ("\n" + rest);
      assert text[0] in text && forall c :: c in text[1..] ==> c in text;
      MaskLine(text[1..], rest);
      assert text + ("\n" + rest) == [text[0]] + tail;
      assert ([text[0]] + tail)[1..] == tail;
      assert Spaced(|text|) == [' '] + Spaced(|text| - 1);
      assert Spaced(|text|) + ("\n" + Mask(Code, rest)) == [' '] + (Spaced(|text| - 1) + ("\n" + Mask(Code, rest)));
    }
  }

  lemma BlockFront(c: char, tail: string)
    requires c == '*' && tail != [] ==> tail[0] != '/'
    ensures Mask(Block, [c] + tail) == [Blank(c)] + Mask(Block, tail)
  {
    assert ([c] + tail)[1..] == tail;
  }

  /** No comment end inside. */
  predicate Unclosed(text: string) {
    forall i :: 0 <= i < |text| ==> !ClosesAt(text, i)
  }

  predicate ClosesAt(text: string, i: nat) {
    i + 1 < |text| && text[i] == '*' && text[i + 1] == '/'
  }

  lemma {:induction false} MaskBlock(text: string, rest: string)
    requires Unclosed(text)
    ensures Mask(Block, text + ("*/" + rest)) == BlankAll(text) + ("  " + Mask(Code, rest))
  {
    if text == [] {
      assert text + ("*/" + rest) == "*/" + rest;
      assert ("*/" + rest)[2..] == rest;
      assert BlankAll(text) + ("  " + Mask(Code, rest)) == "  " + Mask(Code, rest);
    } else {
      var tail := text[1..] + ("*/" + rest);
      assert !ClosesAt(text, 0);
      forall i | 0 <= i < |text[1..]| ensures !ClosesAt(text[1..], i) {
        assert !ClosesAt(text, i + 1);
      }
      MaskBlock(text[1..], rest);
      assert text + ("*/" + rest) == [text[0]] + tail;
      assert tail[0] == if |text| > 1 then text[1] else '*';
      BlockFront(text[0], tail);
      assert BlankAll(text) == [Blank(text[0])] + BlankAll(text[1..]);
      Associative([Blank(text[0])], BlankAll(text[1..]), "  " + Mask(Code, rest));
    }
  }

  lemma Assoc3<T>(a: seq<T>, b: seq<T>, c: seq<T>, d: seq<T>)
    ensures (a + (b + c)) + d == a + (b + (c + d))
  {
  }

  /** Every piece masks by itself, whatever may follow it. */
  lemma {:induction false} MaskPiece(p: Piece, rest: string)
    requires PieceOk(p) && Fits(p, rest)
    ensures Mask(Code, Render(p) + rest) == Masked(p) + Mask(Code, rest)
    decreases p, 0
  {
    match p {
      case Word(w) => MaskWord(w, rest);
      case Space(ws) => MaskPlain(ws, rest);
      case Quoted(chars) => MaskQuoted(chars, rest);
      case LineComment(slashes, text) => MaskLineComment(slashes, text, rest);
      case BlockComment(text) => MaskBlockComment(text, rest);
      case Nested(body) =>
        MaskPieces(body, "}" + rest);
        MaskBraces(RenderAll(body), MaskedAll(body), rest);
      case Default(gap) =>
        MaskPieces(gap, "=" + rest);
        MaskDefault(RenderAll(gap), MaskedAll(gap), rest);
      case Variable(gap, name, space, body) =>
        var inner := RenderAll(body) + ("}" + rest);
        MaskPieces(gap, AfterGap(name, RenderAll(space), inner));
        MaskPieces(space, "{" + inner);
        MaskPieces(body, "}" + rest);
        MaskHeader(RenderAll(gap), MaskedAll(gap), name, RenderAll(space), MaskedAll(space), inner);
        MaskVariable(RawHeader(p), HeaderText(MaskedAll(gap), MaskedStr(name), MaskedAll(space)),
                     RenderAll(body), MaskedAll(body), rest);
    }
  }

  /** A header from its opening quote on. */
  function AfterGap(name: seq<StrChar>, space: string, rest: string): string {
    "\"" + (RenderStr(name) + ("\"" + (space + ("{" + rest))))
  }

  lemma MaskWord(w: string, rest: string)
    requires WordOk(w) && Fits(Word(w), rest)
    ensures Mask(Code, w + rest) == w + Mask(Code, rest)
  {
    MaskPlain(w, rest);
  }

  lemma {:induction false} MaskPieces(ps: seq<Piece>, rest: string)
    requires PiecesOk(ps) && Closes(ps, rest)
    ensures Mask(Code, RenderAll(ps) + rest) == MaskedAll(ps) + Mask(Code, rest)
    decreases ps, 1
  {
    if ps == [] {
      assert RenderAll(ps) + rest == rest;
      assert MaskedAll(ps) + Mask(Code, rest) == Mask(Code, rest);
    } else {
      TailFits(ps, rest);
      MaskPiece(ps[0], RenderAll(ps[1..]) + rest);
      MaskPieces(ps[1..], rest);
      Associative(Render(ps[0]), RenderAll(ps[1..]), rest);
      Associative(Masked(ps[0]), MaskedAll(ps[1..]), Mask(Code, rest));
    }
  }

  /** How printed and masked pieces begin, for a word before them. */
  lemma BeginsApart(w: string, q: Piece, after: string)
    requires PieceOk(q) && !q.Word? && !q.Default? && !q.Variable?
    requires EndsInSlash(w) ==> !(q.LineComment? && q.slashes) && !q.BlockComment?
    ensures Fits(Word(w), Render(q) + after) && Fits(Word(w), Masked(q) + after)
  {
    assert Render(q) != [] && !IsToken(Render(q)[0]);
    assert Masked(q) != [] && !IsToken(Masked(q)[0]);
  }

  /** In a list of pieces the first fits before the others, which are well formed and closed as well. */
  lemma TailFits(ps: seq<Piece>, rest: string)
    requires ps != [] && PiecesOk(ps) && Closes(ps, rest)
    ensures PieceOk(ps[0]) && PiecesOk(ps[1..]) && Closes(ps[1..], rest)
    ensures Fits(ps[0], RenderAll(ps[1..]) + rest) && Fits(ps[0], MaskedAll(ps[1..]) + rest)
  {
    var tail := ps[1..];
    TailIsOk(ps);
    if ps[0].Word? {
      assert WordFits(ps[0].text, tail);
      if tail == [] {
        assert RenderAll(tail) + rest == rest && MaskedAll(tail) + rest == rest;
      } else {
        BeginsApart(ps[0].text, tail[0], RenderAll(tail[1..]) + rest);
        BeginsApart(ps[0].text, tail[0], MaskedAll(tail[1..]) + rest);
        Associative(Render(tail[0]), RenderAll(tail[1..]), rest);
        Associative(Masked(tail[0]), MaskedAll(tail[1..]), rest);
      }
    }
  }

  lemma TailIsOk(ps: seq<Piece>)
    requires ps != [] && PiecesOk(ps)
    ensures PieceOk(ps[0]) && PiecesOk(ps[1..])
    ensures forall rest :: Closes(ps, rest) ==> Closes(ps[1..], rest)
    ensures ps[0].Word? ==> WordFits(ps[0].text, ps[1..])
  {
    var tail := ps[1..];
    forall i | 0 <= i < |tail| && tail[i].Word? ensures WordFits(tail[i].text, tail[i + 1..]) {
      assert tail[i + 1..] == ps[i + 2..];
    }
  }

  lemma MaskBraces(inner: string, masked: string, rest: string)
    requires Mask(Code, inner + ("}" + rest)) == masked + Mask(Code, "}" + rest)
    ensures Mask(Code, ("{" + (inner + "}")) + rest) == ("{" + (masked + "}")) + Mask(Code, rest)
  {
    Assoc3("{", inner, "}", rest);
    Assoc3("{", masked, "}", Mask(Code, rest));
    MaskPlain("{", inner + ("}" + rest));
    MaskPlain("}", rest);
  }

  lemma MaskDefault(inner: string, masked: string, rest: string)
    requires Mask(Code, inner + ("=" + rest)) == masked + Mask(Code, "=" + rest)
    ensures Mask(Code, (DEFAULT + (inner + "=")) + rest) == (DEFAULT + (masked + "=")) + Mask(Code, rest)
  {
    Assoc3(DEFAULT, inner, "=", rest);
    Assoc3(DEFAULT, masked, "=", Mask(Code, rest));
    MaskPlain(DEFAULT, inner + ("=" + rest));
    MaskPlain("=", rest);
  }

  lemma MaskVariable(raw: string, header: string, inner: string, masked: string, rest: string)
    requires Mask(Code, raw + (inner + ("}" + rest))) == header + Mask(Code, inner + ("}" + rest))
    requires Mask(Code, inner + ("}" + rest)) == masked + Mask(Code, "}" + rest)
    ensures Mask(Code, (raw + (inner + "}")) + rest) == (header + (masked + "}")) + Mask(Code, rest)
  {
    Assoc3(raw, inner, "}", rest);
    Assoc3(header, masked, "}", Mask(Code, rest));
    MaskPlain("}", rest);
  }

  lemma HeaderGroups(gap: string, name: string, space: string, rest: string)
    ensures HeaderText(gap, name, space) + rest ==
            VARIABLE + (gap + ("\"" + (name + ("\"" + (space + ("{" + rest))))))
  {
    HeaderSpelledOut(gap, name, space);
    var back := "\"" + (space + "{");
    Associative(VARIABLE, gap + ("\"" + (name + back)), rest);
    Associative(gap, "\"" + (name + back), rest);
    Assoc3("\"", name, back, rest);
    Assoc3("\"", space, "{", rest);
  }

  lemma MaskAfterGap(name: seq<StrChar>, space: string, masked: string, rest: string)
    requires StrOk(name) && Mask(Code, space + ("{" + rest)) == masked + Mask(Code, "{" + rest)
    ensures Mask(Code, AfterGap(name, space, rest)) ==
            "\"" + (MaskedStr(name) + ("\"" + (masked + ("{" + Mask(Code, rest)))))
  {
    var last := space + ("{" + rest);
    OneChar(Code, '"', RenderStr(name) + ("\"" + last));
    MaskStrChars(name, last);
    MaskPlain("{", rest);
  }

  /** Masking a header blanks its name and its comments and nothing else. */
  lemma MaskHeader(gap: string, gap': string, name: seq<StrChar>, space: string, space': string, rest: string)
    requires StrOk(name)
    requires var after := AfterGap(name, space, rest); Mask(Code, gap + after) == gap' + Mask(Code, after)
    requires Mask(Code, space + ("{" + rest)) == space' + Mask(Code, "{" + rest)
    ensures Mask(Code, HeaderText(gap, RenderStr(name), space) + rest) ==
            HeaderText(gap', MaskedStr(name), space') + Mask(Code, rest)
  {
    HeaderGroups(gap, RenderStr(name), space, rest);
    HeaderGroups(gap', MaskedStr(name), space', Mask(Code, rest));
    MaskPlain(VARIABLE, gap + AfterGap(name, space, rest));
    MaskAfterGap(name, space, space', rest);
  }

  lemma MaskQuoted(chars: seq<StrChar>, rest: string)
    requires PieceOk(Quoted(chars))
    ensures Mask(Code, Render(Quoted(chars)) + rest) == Masked(Quoted(chars)) + Mask(Code, rest)
  {
    Assoc3("\"", RenderStr(chars), "\"", rest);
    Assoc3("\"", MaskedStr(chars), "\"", Mask(Code, rest));
    OneChar(Code, '"', RenderStr(chars) + ("\"" + rest));
    MaskStrChars(chars, rest);
  }

  lemma MaskLineComment(slashes: bool, text: string, rest: string)
    requires '\n' !in text
    ensures var p := LineComment(slashes, text); Mask(Code, Render(p) + rest) == Masked(p) + Mask(Code, rest)
  {
    var inner := text + ("\n" + rest);
    MaskLine(text, rest);
    Assoc3(if slashes then "//" else "#", text, "\n", rest);
    Assoc3(if slashes then "  " else " ", Spaced(|text|), "\n", Mask(Code, rest));
    EnterComment(slashes, inner);
  }

  lemma EnterComment(slashes: bool, inner: string)
    ensures Mask(Code, (if slashes then "//" else "#") + inner) == (if slashes then "  " else " ") + Mask(Line, inner)
  {
    if slashes {
      var u := "//" + inner;
      assert u[1..] == "/" + inner && u[1..][1..] == inner;
      assert Mask(Line, "/" + inner) == " " + Mask(Line, inner);
      assert " " + (" " + Mask(Line, inner)) == "  " + Mask(Line, inner);
    } else {
      assert ("#" + inner)[1..] == inner;
    }
  }

  lemma MaskBlockComment(text: string, rest: string)
    requires PieceOk(BlockComment(text))
    ensures var p := BlockComment(text); Mask(Code, Render(p) + rest) == Masked(p) + Mask(Code, rest)
  {
    Assoc3("/*", text, "*/", rest);
    Assoc3("  ", BlankAll(text), "  ", Mask(Code, rest));
    EnterBlock(text + ("*/" + rest));
    MaskBlock(text, rest);
  }

  lemma EnterBlock(inner: string)
    ensures Mask(Code, "/*" + inner) == "  " + Mask(Block, inner)
  {
    assert ("/*" + inner)[2..] == inner;
  }
}
