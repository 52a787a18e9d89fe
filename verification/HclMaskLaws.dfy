/** What masking does to each character, by how that character is read
    (scripts/check_required_var_wiring.py). */
module HclMaskLaws {
  import opened Common
  import opened HclMask

  /** How the text up to a character leaves the reader: in one of the four modes, or in the middle of a
      comment opening, a comment end or an escape. */
  datatype Reading = InCode | InLine | InBlock | InStr | OpeningBlock | ClosingBlock | InEscape

  /** Reading one character; `next` is the one after it, if any. */
  function Read(r: Reading, c: char, next: Option<char>): Reading {
    match r
    case InCode =>
      if OpensLine(c, next) then InLine
      else if c == '/' && next == Some('*') then OpeningBlock
      else if c == '"' then InStr
      else InCode
    case InLine => if c == '\n' then InCode else InLine
    case InBlock => if c == '*' && next == Some('/') then ClosingBlock else InBlock
    case InStr => if c == '"' then InCode else if c == '\\' && next.Some? then InEscape else InStr
    case OpeningBlock => InBlock
    case ClosingBlock => InCode
    case InEscape => InStr
  }

  predicate OpensLine(c: char, next: Option<char>) {
    c == '#' || (c == '/' && next == Some('/'))
  }

  function CharAt(s: string, k: nat): Option<char> {
    if k < |s| then Some(s[k]) else None
  }

  /** How character k is met, from the left. */
  function ReadingAt(s: string, k: nat): Reading
    requires k <= |s|
  {
    if k == 0 then InCode else Read(ReadingAt(s, k - 1), s[k - 1], CharAt(s, k))
  }

  /** Character k is code, a string's quote, or the newline that ends a line comment. */
  predicate IsCode(s: string, k: nat)
    requires k < |s|
  {
    match ReadingAt(s, k)
    case InCode => !OpensLine(s[k], CharAt(s, k + 1)) && !(s[k] == '/' && CharAt(s, k + 1) == Some('*'))
    case InLine => s[k] == '\n'
    case InStr => s[k] == '"'
    case _ => false
  }

  // ---------------------------------------------------------------- the mask follows the reader

  /** The mask of what is left, by how it is met. */
  ghost predicate Follows(s: string, k: nat)
    requires k <= |s|
  {
    var left, rest := Mask(Code, s)[k..], s[k..];
    match ReadingAt(s, k)
    case InCode => left == Mask(Code, rest)
    case InLine => left == Mask(Line, rest)
    case InBlock => left == Mask(Block, rest)
    case InStr => left == Mask(Str, rest)
    case OpeningBlock => rest != [] && left == [' '] + Mask(Block, rest[1..])
    case ClosingBlock => rest != [] && left == [' '] + Mask(Code, rest[1..])
    case InEscape => rest != [] && left == [' '] + Mask(Str, rest[1..])
  }

  lemma Tails(s: string, k: nat)
    requires k < |s|
    ensures s[k..][0] == s[k] && s[k..][1..] == s[k + 1..]
    ensures Mask(Code, s)[k..][1..] == Mask(Code, s)[k + 1..] && Mask(Code, s)[k..][0] == Mask(Code, s)[k]
    ensures k + 1 < |s| ==> s[k..][1] == s[k + 1] && s[k..][2..] == s[k + 1..][1..]
  {
  }

  /** One character further in code: as code, into a comment, or into a string. */
  lemma CodeStep(rest: string)
    requires rest != []
    ensures var next := CharAt(rest, 1);
            Mask(Code, rest)[1..] ==
            match Read(InCode, rest[0], next)
            case InLine => Mask(Line, rest[1..])
            case OpeningBlock => [' '] + Mask(Block, rest[1..][1..])
            case InStr => Mask(Str, rest[1..])
            case _ => Mask(Code, rest[1..])
    ensures Mask(Code, rest)[0] ==
            if OpensLine(rest[0], CharAt(rest, 1)) || (rest[0] == '/' && CharAt(rest, 1) == Some('*'))
            then ' ' else rest[0]
  {
    if |rest| > 1 {
      assert rest[2..] == rest[1..][1..];
    }
  }

  lemma BlockStep(rest: string)
    requires rest != []
    ensures Mask(Block, rest)[1..] ==
            if Read(InBlock, rest[0], CharAt(rest, 1)) == ClosingBlock then [' '] + Mask(Code, rest[1..][1..])
            else Mask(Block, rest[1..])
    ensures Mask(Block, rest)[0] == Blank(rest[0])
  {
    if rest[0] == '*' && |rest| > 1 && rest[1] == '/' {
      var tail := Mask(Code, rest[2..]);
      assert rest[2..] == rest[1..][1..];
      assert ([' ', ' '] + tail)[1..] == [' '] + tail;
    } else {
      Cut([Blank(rest[0])], Mask(Block, rest[1..]));
    }
  }

  lemma StrStep(rest: string)
    requires rest != []
    ensures Mask(Str, rest)[1..] ==
            match Read(InStr, rest[0], CharAt(rest, 1))
            case InCode => Mask(Code, rest[1..])
            case InEscape => [' '] + Mask(Str, rest[1..][1..])
            case _ => Mask(Str, rest[1..])
    ensures Mask(Str, rest)[0] == if rest[0] == '"' then '"' else Blank(rest[0])
  {
    if |rest| > 1 {
      assert rest[2..] == rest[1..][1..];
    }
  }

  lemma FollowsStep(s: string, k: nat)
    requires k < |s| && Follows(s, k)
    ensures Follows(s, k + 1)
  {
    var rest := s[k..];
    Tails(s, k);
    assert CharAt(rest, 1) == CharAt(s, k + 1);
    match ReadingAt(s, k) {
      case InCode => CodeStep(rest);
      case InBlock => BlockStep(rest);
      case InStr => StrStep(rest);
      case _ =>
    }
  }

  lemma {:induction false} MaskFollows(s: string, k: nat)
    requires k <= |s|
    ensures Follows(s, k)
    decreases k
  {
    if k == 0 {
      assert Mask(Code, s)[0..] == Mask(Code, s) && s[0..] == s;
    } else {
      MaskFollows(s, k - 1);
      FollowsStep(s, k - 1);
    }
  }

  /** The masking law: a character read as code stays as it is, an escaped one becomes a blank, and any
      other character of a comment or string becomes a blank unless it is a newline. */
  lemma MaskAt(s: string, k: nat)
    requires k < |s|
    ensures Mask(Code, s)[k] ==
            if IsCode(s, k) then s[k] else if ReadingAt(s, k) == InEscape then ' ' else Blank(s[k])
  {
    var rest := s[k..];
    MaskFollows(s, k);
    Tails(s, k);
    assert CharAt(rest, 1) == CharAt(s, k + 1);
    match ReadingAt(s, k) {
      case InCode => CodeStep(rest);
      case InBlock => BlockStep(rest);
      case InStr => StrStep(rest);
      case OpeningBlock => OpeningIsAStar(s, k);
      case ClosingBlock => OpeningIsAStar(s, k);
      case _ =>
    }
  }

  /** The second character of a comment opening or end. */
  lemma OpeningIsAStar(s: string, k: nat)
    requires k < |s|
    ensures ReadingAt(s, k) == OpeningBlock ==> s[k] == '*'
    ensures ReadingAt(s, k) == ClosingBlock ==> s[k] == '/'
  {
  }

  /** Newlines survive, if and only if they are not the second character of an escape in a string. */
  lemma NewlineIsLostIff(s: string, k: nat)
    requires k < |s| && s[k] == '\n'
    ensures Mask(Code, s)[k] != '\n' <==> ReadingAt(s, k) == InEscape
    ensures ReadingAt(s, k) == InEscape <==> k > 0 && ReadingAt(s, k - 1) == InStr && s[k - 1] == '\\'
  {
    MaskAt(s, k);
  }

  /** Such a newline: a string that is continued with a backslash at the end of its line. */
  lemma EscapedNewlineIsLost()
    ensures Mask(Code, "\"\\\n\"") == "\"  \""
  {
    var s := "\"\\\n\"";
    assert s[1..] == "\\\n\"" && s[1..][2..] == "\"" && s[1..][2..][1..] == "";
  }
}
