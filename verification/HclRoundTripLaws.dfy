/** The parser on printed files: exactly what it reads, and exactly when that is what was declared
    (scripts/check_required_var_wiring.py). */
module HclRoundTripLaws {
  import opened Common
  import opened HclMask
  import opened HclParse
  import opened HclRoundTrip
  import opened HclBodyLaws

  // ---------------------------------------------------------------- text without headers

  lemma ParseSkip1(t: string, m: string, acc: map<string, bool>)
    requires |t| == |m| && m != [] && HeaderAt(m).None?
    ensures Parse(t, m, acc) == Parse(t[1..], m[1..], acc)
  {
  }

  /** Text without a `v` holds no header. */
  lemma {:induction false} SkipPlain(t: string, m: string, trest: string, mrest: string, acc: map<string, bool>)
    requires |t| == |m| && |trest| == |mrest| && forall i :: 0 <= i < |m| ==> m[i] != 'v'
    ensures Parse(t + trest, m + mrest, acc) == Parse(trest, mrest, acc)
    decreases |m|
  {
    if m == [] {
      assert t + trest == trest && m + mrest == mrest;
    } else {
      assert (m + mrest)[0] == m[0] != VARIABLE[0];
      assert HeaderAt(m + mrest).None?;
      ParseSkip1(t + trest, m + mrest, acc);
      assert (t + trest)[1..] == t[1..] + trest && (m + mrest)[1..] == m[1..] + mrest;
      SkipPlain(t[1..], m[1..], trest, mrest, acc);
    }
  }

  /** What every header has: the keyword, then white space, then a quote. */
  lemma HeaderHasAQuote(s: string)
    ensures HeaderAt(s).Some? ==> VARIABLE <= s && Spaces(s[8..]) > 0 && !NoQuoteNext(s[8..])
  {
    if HeaderAt(s).Some? {
      var gap := Spaces(s[8..]);
      assert s[8..][gap] == s[8 + gap];
    }
  }

  predicate NoSpaces(w: string) {
    forall i :: 0 <= i < |w| ==> !IsSpace(w[i])
  }

  lemma NoGapNoHeader(s: string)
    requires |s| > 8 && !IsSpace(s[8])
    ensures HeaderAt(s).None?
  {
    assert s[8..][0] == s[8];
    assert Spaces(s[8..]) == 0;
  }

  lemma NoQuoteNoHeader(s: string, rest: string)
    requires |s| >= 8 && s[8..] == rest && NoQuoteNext(rest)
    ensures HeaderAt(s).None?
  {
    HeaderHasAQuote(s);
  }

  lemma NoHeaderAt(w: string, rest: string)
    requires w != [] && NoSpaces(w) && (rest == [] || !IsToken(rest[0]))
    requires EndsInVariable(w) ==> NoQuoteNext(rest)
    ensures HeaderAt(w + rest).None?
  {
    if |w| > 8 {
      assert (w + rest)[8] == w[8];
      NoGapNoHeader(w + rest);
    } else if w == VARIABLE {
      Cut(w, rest);
      assert w[|w| - 8..] == w;
      NoQuoteNoHeader(w + rest, rest);
    } else {
      NotTheKeyword(w, rest);
    }
  }

  lemma NotTheKeyword(w: string, rest: string)
    requires |w| <= 8 && w != VARIABLE && (rest == [] || !IsToken(rest[0]))
    ensures !(VARIABLE <= w + rest)
  {
    KeywordFits(VARIABLE, w, rest);
  }

  lemma WordTail(w: string)
    requires w != [] && NoSpaces(w)
    ensures NoSpaces(w[1..]) && (EndsInVariable(w[1..]) ==> EndsInVariable(w))
  {
    assert |w[1..]| >= 8 ==> w[1..][|w[1..]| - 8..] == w[|w| - 8..];
  }

  lemma {:induction false} SkipWord(t: string, w: string, trest: string, mrest: string, acc: map<string, bool>)
    requires NoSpaces(w) && |t| == |w| && |trest| == |mrest| && (mrest == [] || !IsToken(mrest[0]))
    requires EndsInVariable(w) ==> NoQuoteNext(mrest)
    ensures Parse(t + trest, w + mrest, acc) == Parse(trest, mrest, acc)
    decreases |w|
  {
    if w == [] {
      assert w + mrest == mrest && t + trest == trest;
    } else {
      NoHeaderAt(w, mrest);
      ParseSkip1(t + trest, w + mrest, acc);
      OneOff(t, trest);
      OneOff(w, mrest);
      WordTail(w);
      SkipWord(t[1..], w[1..], trest, mrest, acc);
    }
  }

  lemma OneOff(a: string, b: string)
    requires a != []
    ensures (a + b)[1..] == a[1..] + b
  {
  }

  lemma NoVInside(p: Piece)
    requires PieceOk(p) && !p.Word? && !p.Nested? && !p.Variable?
    ensures forall i :: 0 <= i < |Masked(p)| ==> Masked(p)[i] != 'v'
  {
    match p {
      case Quoted(chars) => MaskedStrIsBlank(chars);
      case Default(gap) => GapIsBlank(gap);
      case _ => BlankIsSpace(p);
    }
  }

  // ---------------------------------------------------------------- headers

  ghost predicate SpaceFrom(s: string, at: nat, n: nat) {
    at + n < |s| && !IsSpace(s[at + n]) && forall i :: at <= i < at + n ==> IsSpace(s[i])
  }

  ghost predicate NameFrom(s: string, at: nat, n: nat) {
    at + n < |s| && s[at + n] == '"' && forall i :: at <= i < at + n ==> s[i] != '"' && s[i] != '\n'
  }

  lemma {:induction false} SpacesOf(s: string, at: nat, n: nat)
    requires SpaceFrom(s, at, n)
    ensures Spaces(s[at..]) == n
    decreases n
  {
    if n > 0 {
      SpacesOf(s, at + 1, n - 1);
      assert s[at..][1..] == s[at + 1..];
    }
  }

  lemma {:induction false} NameCharsOf(s: string, at: nat, n: nat)
    requires NameFrom(s, at, n)
    ensures NameChars(s[at..]) == n
    decreases n
  {
    if n > 0 {
      NameCharsOf(s, at + 1, n - 1);
      assert s[at..][1..] == s[at + 1..];
    }
  }

  ghost predicate HeaderParts(s: string, gap: nat, name: nat, space: nat) {
    && VARIABLE <= s && gap > 0 && SpaceFrom(s, 8, gap)
    && s[8 + gap] == '"' && NameFrom(s, 9 + gap, name)
    && SpaceFrom(s, 10 + gap + name, space) && s[10 + gap + name + space] == '{'
  }

  /** What the header pattern reads, field by field. */
  lemma HeaderIsRead(s: string, gap: nat, name: nat, space: nat)
    requires HeaderParts(s, gap, name, space)
    ensures HeaderAt(s) == Some(Header(11 + gap + name + space, 9 + gap, name))
  {
    SpacesOf(s, 8, gap);
    NameCharsOf(s, 9 + gap, name);
    SpacesOf(s, 10 + gap + name, space);
    HeaderUnfolds(s, gap, name, space);
  }

  lemma HeaderUnfolds(s: string, gap: nat, name: nat, space: nat)
    requires VARIABLE <= s && 0 < gap == Spaces(s[8..])
    requires 8 + gap < |s| && s[8 + gap] == '"' && NameChars(s[9 + gap..]) == name
    requires 9 + gap + name < |s| && s[9 + gap + name] == '"' && Spaces(s[10 + gap + name..]) == space
    requires 10 + gap + name + space < |s| && s[10 + gap + name + space] == '{'
    ensures HeaderAt(s) == Some(Header(11 + gap + name + space, 9 + gap, name))
  {
  }

  /** A printed header, character by character. */
  lemma HeaderChars(gap: string, name: string, space: string, rest: string)
    requires gap != [] && AllSpaces(gap) && AllSpaces(space)
    requires forall i :: 0 <= i < |name| ==> name[i] != '"' && name[i] != '\n'
    ensures HeaderParts(HeaderText(gap, name, space) + rest, |gap|, |name|, |space|)
  {
    HeaderSpelledOut(gap, name, space);
  }

  lemma NameOfHeader(s: string, h: Header)
    requires HeaderAt(s) == Some(h)
    ensures FindName(s) == Some(s[h.nameAt..h.nameAt + h.nameLength])
  {
  }

  lemma {:induction false} NameIsHidden(chars: seq<StrChar>)
    requires NameOk(chars)
    ensures forall i :: 0 <= i < |MaskedStr(chars)| ==> MaskedStr(chars)[i] == ' '
  {
    if chars != [] {
      assert forall i :: 0 <= i < |chars[1..]| ==> chars[1..][i] == chars[i + 1];
      NameIsHidden(chars[1..]);
    }
  }

  /** Every printed header is found, whatever stands in it. */
  lemma MaskedHeaderIsFound(v: Piece, rest: string)
    requires v.Variable? && PieceOk(v)
    ensures var mh := HeaderText(MaskedAll(v.gap), MaskedStr(v.name), MaskedAll(v.space));
            HeaderAt(mh + rest).Some? && HeaderAt(mh + rest).value.length == |mh|
  {
    var gap, name, space := MaskedAll(v.gap), MaskedStr(v.name), MaskedAll(v.space);
    BlanksAreSpace(v.gap);
    BlanksAreSpace(v.space);
    NameIsHidden(v.name);
    HeaderChars(gap, name, space, rest);
    HeaderIsRead(HeaderText(gap, name, space) + rest, |gap|, |name|, |space|);
  }

  // ---------------------------------------------------------------- what is read

  type Reading = Result<map<string, bool>, ParseError>

  /** What the parser reads from a piece: each header's name is looked for in its own raw text. */
  function Outcome(p: Piece, acc: map<string, bool>): Reading
    decreases p, 0
  {
    match p
    case Nested(body) => OutcomeAll(body, acc)
    case Variable(gap, name, space, body) =>
      (match FindName(RawHeader(p))
       case None => Err(NoName)
       case Some(n) => OutcomeAll(body, acc[n := HasDefault(body)]))
    case _ => Ok(acc)
  }

  function OutcomeAll(ps: seq<Piece>, acc: map<string, bool>): Reading
    decreases ps, 1
  {
    if ps == [] then Ok(acc)
    else
      var r := Outcome(ps[0], acc);
      if r.Err? then r else OutcomeAll(ps[1..], r.value)
  }

  /** Go on with the rest of the text, unless there was an error. */
  function Then(r: Reading, t: string, m: string): Reading
    requires |t| == |m|
  {
    if r.Err? then r else Parse(t, m, r.value)
  }

  lemma {:induction false} StrLength(chars: seq<StrChar>)
    ensures |RenderStr(chars)| == |MaskedStr(chars)|
  {
    if chars != [] {
      StrLength(chars[1..]);
    }
  }

  lemma {:induction false} SameLength(p: Piece)
    ensures |Render(p)| == |Masked(p)|
    decreases p, 0
  {
    match p {
      case Quoted(chars) => StrLength(chars);
      case Nested(body) => SameLengths(body);
      case Default(gap) => SameLengths(gap);
      case Variable(gap, name, space, body) =>
        SameLengths(gap);
        StrLength(name);
        SameLengths(space);
        SameLengths(body);
      case _ =>
    }
  }

  lemma {:induction false} SameLengths(ps: seq<Piece>)
    ensures |RenderAll(ps)| == |MaskedAll(ps)|
    decreases ps, 1
  {
    if ps != [] {
      SameLength(ps[0]);
      SameLengths(ps[1..]);
    }
  }

  /** One header: its name, if it is found, gets the flag of the body, and reading goes on after the brace. */
  lemma ReadHeader(v: Piece, trest: string, mrest: string, acc: map<string, bool>)
    requires v.Variable? && PieceOk(v) && |trest| == |mrest|
    ensures var raw, mh := RawHeader(v), HeaderText(MaskedAll(v.gap), MaskedStr(v.name), MaskedAll(v.space));
            var tb, mb := RenderAll(v.body) + ("}" + trest), MaskedAll(v.body) + ("}" + mrest);
            && |raw + tb| == |mh + mb| && |tb| == |mb|
            && Parse(raw + tb, mh + mb, acc) ==
               match FindName(raw)
               case None => Err(NoName)
               case Some(n) => Parse(tb, mb, acc[n := HasDefault(v.body)])
  {
    SameLengths(v.gap);
    StrLength(v.name);
    SameLengths(v.space);
    SameLengths(v.body);
    var mb := MaskedAll(v.body) + ("}" + mrest);
    MaskedHeaderIsFound(v, mb);
    BodyOfBlock(v.body, mrest);
    ParseHeader(RawHeader(v), HeaderText(MaskedAll(v.gap), MaskedStr(v.name), MaskedAll(v.space)),
                RenderAll(v.body) + ("}" + trest), mb, HasDefault(v.body), acc);
  }

  lemma ParseHeader(th: string, mh: string, tb: string, mb: string, found: bool, acc: map<string, bool>)
    requires |th| == |mh| && |tb| == |mb|
    requires HeaderAt(mh + mb).Some? && HeaderAt(mh + mb).value.length == |mh|
    requires Body('{', mb, 1, false) == Some(found)
    ensures Parse(th + tb, mh + mb, acc) ==
            match FindName(th)
            case None => Err(NoName)
            case Some(n) => Parse(tb, mb, acc[n := found])
  {
    Cut(th, tb);
    Cut(mh, mb);
  }

  /** Reading one piece and what follows it. */
  lemma {:induction false} ReadPiece(p: Piece, trest: string, mrest: string, acc: map<string, bool>)
    requires PieceOk(p) && Clear(p, mrest) && |trest| == |mrest|
    ensures |Render(p)| == |Masked(p)|
    ensures Parse(Render(p) + trest, Masked(p) + mrest, acc) == Then(Outcome(p, acc), trest, mrest)
    decreases p, 0
  {
    SameLength(p);
    match p {
      case Word(w) => SkipWord(w, w, trest, mrest, acc);
      case Nested(body) => ReadNested(body, trest, mrest, acc);
      case Variable(gap, name, space, body) => ReadVariable(p, trest, mrest, acc);
      case _ =>
        NoVInside(p);
        SkipPlain(Render(p), Masked(p), trest, mrest, acc);
    }
  }

  lemma {:induction false} ReadBlock(body: seq<Piece>, trest: string, mrest: string, acc: map<string, bool>)
    requires PiecesOk(body) && |trest| == |mrest|
    ensures |RenderAll(body)| == |MaskedAll(body)|
    ensures Parse(RenderAll(body) + ("}" + trest), MaskedAll(body) + ("}" + mrest), acc) ==
            Then(OutcomeAll(body, acc), trest, mrest)
    decreases body, 2
  {
    SameLengths(body);
    ReadPieces(body, "}" + trest, "}" + mrest, acc);
    var r := OutcomeAll(body, acc);
    if r.Ok? {
      SkipPlain("}", "}", trest, mrest, r.value);
    }
  }

  lemma {:induction false} ReadNested(body: seq<Piece>, trest: string, mrest: string, acc: map<string, bool>)
    requires PiecesOk(body) && |trest| == |mrest|
    ensures |RenderAll(body)| == |MaskedAll(body)|
    ensures Parse(("{" + (RenderAll(body) + "}")) + trest, ("{" + (MaskedAll(body) + "}")) + mrest, acc) ==
            Then(OutcomeAll(body, acc), trest, mrest)
    decreases body, 3
  {
    ReadBlock(body, trest, mrest, acc);
    Assoc3("{", RenderAll(body), "}", trest);
    Assoc3("{", MaskedAll(body), "}", mrest);
    SkipPlain("{", "{", RenderAll(body) + ("}" + trest), MaskedAll(body) + ("}" + mrest), acc);
  }

  lemma {:induction false} ReadVariable(v: Piece, trest: string, mrest: string, acc: map<string, bool>)
    requires v.Variable? && PieceOk(v) && |trest| == |mrest| && |Render(v)| == |Masked(v)|
    ensures Parse(Render(v) + trest, Masked(v) + mrest, acc) == Then(Outcome(v, acc), trest, mrest)
    decreases v.body, 3
  {
    var raw, mh := RawHeader(v), HeaderText(MaskedAll(v.gap), MaskedStr(v.name), MaskedAll(v.space));
    Assoc3(raw, RenderAll(v.body), "}", trest);
    Assoc3(mh, MaskedAll(v.body), "}", mrest);
    ReadHeader(v, trest, mrest, acc);
    var n := FindName(raw);
    if n.Some? {
      ReadBlock(v.body, trest, mrest, acc[n.value := HasDefault(v.body)]);
    }
  }

  lemma {:induction false} ReadPieces(ps: seq<Piece>, trest: string, mrest: string, acc: map<string, bool>)
    requires PiecesOk(ps) && Closes(ps, mrest) && |trest| == |mrest|
    ensures |RenderAll(ps)| == |MaskedAll(ps)|
    ensures Parse(RenderAll(ps) + trest, MaskedAll(ps) + mrest, acc) == Then(OutcomeAll(ps, acc), trest, mrest)
    decreases ps, 1
  {
    SameLengths(ps);
    if ps == [] {
      assert RenderAll(ps) + trest == trest && MaskedAll(ps) + mrest == mrest;
    } else {
      var tail := ps[1..];
      SameLengths(tail);
      TailIsClear(ps, mrest);
      Associative(Render(ps[0]), RenderAll(tail), trest);
      Associative(Masked(ps[0]), MaskedAll(tail), mrest);
      ReadPiece(ps[0], RenderAll(tail) + trest, MaskedAll(tail) + mrest, acc);
      var r := Outcome(ps[0], acc);
      if r.Ok? {
        ReadPieces(tail, trest, mrest, r.value);
      }
    }
  }

  /** Exactly what the parser reads from any printed file: headers in order, the later one winning, each
      with the name found in its raw text, or an error at the first header without one. */
  lemma ParserOutcome(ps: seq<Piece>)
    requires PiecesOk(ps)
    ensures ParseText(RenderAll(ps)) == OutcomeAll(ps, map[])
  {
    var text := RenderAll(ps);
    MaskPieces(ps, []);
    ReadPieces(ps, [], [], map[]);
    assert text + [] == text && MaskedAll(ps) + [] == MaskedAll(ps) && Mask(Code, []) == [];
  }
}
