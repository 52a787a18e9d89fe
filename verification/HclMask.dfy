/** Blanking of comments and string contents before variable blocks are scanned
    (scripts/check_required_var_wiring.py). */
module HclMask {

  /** Where the scanner is: in code, in a line comment, in a block comment, inside a string. */
  datatype Mode = Code | Line | Block | Str

  function Blank(c: char): char {
    if c == '\n' then '\n' else ' '
  }

  /** The masked form of a text that starts in the given mode. */
  function Mask(mode: Mode, s: string): (r: string)
    ensures |r| == |s|
    decreases |s|
  {
    if s == [] then []
    else
      match mode
      case Code =>
        if s[0] == '#' || (s[0] == '/' && |s| > 1 && s[1] == '/') then [' '] + Mask(Line, s[1..])
        else if s[0] == '/' && |s| > 1 && s[1] == '*' then [' ', ' '] + Mask(Block, s[2..])
        else if s[0] == '"' then ['"'] + Mask(Str, s[1..])
        else [s[0]] + Mask(Code, s[1..])
      case Line =>
        if s[0] == '\n' then ['\n'] + Mask(Code, s[1..]) else [' '] + Mask(Line, s[1..])
      case Block =>
        if s[0] == '*' && |s| > 1 && s[1] == '/' then [' ', ' '] + Mask(Code, s[2..])
        else [Blank(s[0])] + Mask(Block, s[1..])
      case Str =>
        if s[0] == '"' then ['"'] + Mask(Code, s[1..])
        else if s[0] == '\\' && |s| > 1 then [' ', ' '] + Mask(Str, s[2..])
        else [Blank(s[0])] + Mask(Str, s[1..])
  }

  // ---------------------------------------------------------------- the in-place scanner

  /** The first i characters of `out` are final, the rest untouched, and the scanner is in `mode`. */
  ghost predicate Masking(text: string, out: seq<char>, i: nat, mode: Mode) {
    && i <= |text| == |out| && out[i..] == text[i..]
    && out[..i] + Mask(mode, text[i..]) == Mask(Code, text)
  }

  /** Writing one or two characters of the masked form moves the frontier past them. */
  lemma Write1(text: string, out: seq<char>, i: nat, mode: Mode, c: char, next: Mode)
    requires Masking(text, out, i, mode) && i < |text|
    requires Mask(mode, text[i..]) == [c] + Mask(next, text[i + 1..])
    ensures Masking(text, out[i := c], i + 1, next)
  {
    assert out[i := c][..i + 1] == out[..i] + [c];
    assert out[i := c][i + 1..] == out[i + 1..] == text[i + 1..] by {
      assert out[i + 1..] == out[i..][1..];
      assert text[i + 1..] == text[i..][1..];
    }
    assert out[..i] + ([c] + Mask(next, text[i + 1..])) == (out[..i] + [c]) + Mask(next, text[i + 1..]);
  }

  /** A character that is kept needs no write. */
  lemma Keep1(text: string, out: seq<char>, i: nat, mode: Mode, next: Mode)
    requires Masking(text, out, i, mode) && i < |text|
    requires Mask(mode, text[i..]) == [text[i]] + Mask(next, text[i + 1..])
    ensures Masking(text, out, i + 1, next)
  {
    Write1(text, out, i, mode, text[i], next);
    assert out[i..][0] == text[i..][0];
    assert out[i := text[i]] == out;
  }

  lemma Write2(text: string, out: seq<char>, i: nat, mode: Mode, next: Mode)
    requires Masking(text, out, i, mode) && i + 1 < |text|
    requires Mask(mode, text[i..]) == [' ', ' '] + Mask(next, text[i + 2..])
    ensures Masking(text, out[i := ' '][i + 1 := ' '], i + 2, next)
  {
    var o := out[i := ' '][i + 1 := ' '];
    assert o[..i + 2] == out[..i] + [' ', ' '];
    assert o[i + 2..] == out[i + 2..] == text[i + 2..] by {
      assert out[i + 2..] == out[i..][2..];
      assert text[i + 2..] == text[i..][2..];
    }
    assert out[..i] + ([' ', ' '] + Mask(next, text[i + 2..])) == (out[..i] + [' ', ' ']) + Mask(next, text[i + 2..]);
  }

  /** At the end of the text every mode agrees. */
  lemma AtEnd(text: string, out: seq<char>, mode: Mode)
    requires Masking(text, out, |text|, mode)
    ensures out == Mask(Code, text)
  {
    assert out[..|text|] == out;
  }

  /** To the end of the line. */
  method SkipLineComment(text: string, out: array<char>, start: nat) returns (i: nat)
    requires out.Length == |text| && start < |text| && Masking(text, out[..], start, Line)
    modifies out
    ensures start <= i <= |text| && Masking(text, out[..], i, Line) && (i < |text| ==> text[i] == '\n')
  {
    i := start;
    while i < |text| && text[i] != '\n'
      invariant start <= i <= |text| && Masking(text, out[..], i, Line)
    {
      Unfold(text, i);
      Write1(text, out[..], i, Line, ' ', Line);
      out[i] := ' ';
      i := i + 1;
    }
  }

  lemma Unfold(text: string, i: nat)
    requires i < |text|
    ensures text[i..][0] == text[i] && text[i..][1..] == text[i + 1..]
    ensures i + 1 < |text| ==> text[i..][1] == text[i + 1] && text[i..][2..] == text[i + 2..]
  {
  }

  /** Past the closing marker, or past the end of an unterminated comment. */
  method SkipBlockComment(text: string, out: array<char>, start: nat) returns (i: nat)
    requires out.Length == |text| && start <= |text| && Masking(text, out[..], start, Block)
    modifies out
    ensures start < i
    ensures i < |text| ==> Masking(text, out[..], i, Code)
    ensures i >= |text| ==> out[..] == Mask(Code, text)
  {
    i := start;
    while i < |text| && !(text[i] == '*' && i + 1 < |text| && text[i + 1] == '/')
      invariant start <= i <= |text| && Masking(text, out[..], i, Block)
    {
      Unfold(text, i);
      if text[i] != '\n' {
        Write1(text, out[..], i, Block, ' ', Block);
        out[i] := ' ';
      } else {
        Keep1(text, out[..], i, Block, Block);
      }
      i := i + 1;
    }
    if i < |text| {
      Unfold(text, i);
      Write2(text, out[..], i, Block, Code);
      out[i] := ' ';
      out[i + 1] := ' ';
      if i + 2 == |text| {
        AtEnd(text, out[..], Code);
      }
    } else {
      AtEnd(text, out[..], Block);
    }
    i := i + 2;
  }

  /** One round of the string loop. */
  lemma StringStep(text: string, out: seq<char>, i: nat)
    requires Masking(text, out, i, Str) && i < |text| && text[i] != '"'
    ensures text[i] == '\\' && i + 1 < |text| ==> Masking(text, out[i := ' '][i + 1 := ' '], i + 2, Str)
    ensures !(text[i] == '\\' && i + 1 < |text|) && text[i] != '\n' ==> Masking(text, out[i := ' '], i + 1, Str)
    ensures !(text[i] == '\\' && i + 1 < |text|) && text[i] == '\n' ==> Masking(text, out, i + 1, Str)
  {
    Unfold(text, i);
    if text[i] == '\\' && i + 1 < |text| {
      Write2(text, out, i, Str, Str);
    } else if text[i] != '\n' {
      Write1(text, out, i, Str, ' ', Str);
    } else {
      Keep1(text, out, i, Str, Str);
    }
  }

  /** Past one character of a string, or past an escape. */
  method SkipInString(text: string, out: array<char>, i: nat) returns (next: nat)
    requires out.Length == |text| && i < |text| && text[i] != '"' && Masking(text, out[..], i, Str)
    modifies out
    ensures i < next <= |text| && Masking(text, out[..], next, Str)
  {
    ghost var before := out[..];
    StringStep(text, before, i);
    if text[i] == '\\' && i + 1 < |text| {
      out[i] := ' ';
      out[i + 1] := ' ';
      assert out[..] == before[i := ' '][i + 1 := ' '];
      return i + 2;
    }
    if text[i] != '\n' {
      out[i] := ' ';
      assert out[..] == before[i := ' '];
    }
    next := i + 1;
  }

  /** Past the closing quote, or past the end of an unterminated string. */
  method SkipString(text: string, out: array<char>, start: nat) returns (i: nat)
    requires out.Length == |text| && start <= |text| && Masking(text, out[..], start, Str)
    modifies out
    ensures start < i
    ensures i < |text| ==> Masking(text, out[..], i, Code)
    ensures i >= |text| ==> out[..] == Mask(Code, text)
  {
    i := start;
    while i < |text| && text[i] != '"'
      invariant start <= i <= |text| && Masking(text, out[..], i, Str)
    {
      i := SkipInString(text, out, i);
    }
    StringEnd(text, out[..], i);
    i := i + 1;
  }

  lemma StringEnd(text: string, out: seq<char>, i: nat)
    requires Masking(text, out, i, Str) && (i < |text| ==> text[i] == '"')
    ensures i + 1 < |text| ==> Masking(text, out, i + 1, Code)
    ensures i + 1 >= |text| ==> out == Mask(Code, text)
  {
    if i < |text| {
      Unfold(text, i);
      Keep1(text, out, i, Str, Code);
      if i + 1 == |text| {
        AtEnd(text, out, Code);
      }
    } else {
      AtEnd(text, out, Str);
    }
  }

  /** The scanner overwrites a copy of the text under a moving index; the result is the masked form. */
  method MaskHcl(text: string) returns (masked: string)
    ensures masked == Mask(Code, text)
  {
    var out := new char[|text|](i requires 0 <= i < |text| => text[i]);
    var i: nat := 0;
    assert out[..] == text && text[0..] == text;
    while i < |text|
      invariant i < |text| ==> Masking(text, out[..], i, Code)
      invariant i >= |text| ==> out[..] == Mask(Code, text)
      decreases |text| - i
    {
      var c := text[i];
      Unfold(text, i);
      if c == '#' || (c == '/' && i + 1 < |text| && text[i + 1] == '/') {
        EnterLine(text, out[..], i);
        i := SkipLineComment(text, out, i);
        LeaveLine(text, out[..], i);
      } else if c == '/' && i + 1 < |text| && text[i + 1] == '*' {
        Write2(text, out[..], i, Code, Block);
        out[i] := ' ';
        out[i + 1] := ' ';
        i := SkipBlockComment(text, out, i + 2);
      } else if c == '"' {
        Keep1(text, out[..], i, Code, Str);
        i := SkipString(text, out, i + 1);
      } else {
        Keep1(text, out[..], i, Code, Code);
        i := i + 1;
        if i == |text| {
          AtEnd(text, out[..], Code);
        }
      }
    }
    masked := out[..];
  }

  /** A comment's first character is read as code and as comment alike. */
  lemma EnterLine(text: string, out: seq<char>, i: nat)
    requires Masking(text, out, i, Code) && i < |text|
    requires text[i] == '#' || (text[i] == '/' && i + 1 < |text| && text[i + 1] == '/')
    ensures Masking(text, out, i, Line)
  {
    Unfold(text, i);
  }

  /** The newline after a line comment is read as comment end and as code alike. */
  lemma LeaveLine(text: string, out: seq<char>, i: nat)
    requires Masking(text, out, i, Line) && (i < |text| ==> text[i] == '\n')
    ensures i < |text| ==> Masking(text, out, i, Code)
    ensures i == |text| ==> out == Mask(Code, text)
  {
    if i < |text| {
      Unfold(text, i);
    } else {
      AtEnd(text, out, Line);
    }
  }

  // ---------------------------------------------------------------- laws

  /** In every mode, each character is kept or blanked, and a newline is lost only after a backslash. */
  lemma {:induction false} KeepsOrBlanks(mode: Mode, s: string, k: nat)
    requires k < |s|
    ensures Mask(mode, s)[k] == s[k] || Mask(mode, s)[k] == ' '
    ensures s[k] == '\n' && Mask(mode, s)[k] != '\n' ==> k > 0 && s[k - 1] == '\\'
    decreases |s|
  {
    var wide := (mode.Code? && s[0] == '/' && |s| > 1 && s[1] == '*')
             || (mode.Block? && s[0] == '*' && |s| > 1 && s[1] == '/')
             || (mode.Str? && s[0] == '\\' && |s| > 1);
    if wide && k >= 2 {
      var next := if mode.Code? then Block else if mode.Block? then Code else Str;
      KeepsOrBlanks(next, s[2..], k - 2);
    } else if !wide && k >= 1 {
      var next := match mode
                  case Code => if s[0] == '#' || (s[0] == '/' && |s| > 1 && s[1] == '/') then Line
                               else if s[0] == '"' then Str else Code
                  case Line => if s[0] == '\n' then Code else Line
                  case Block => Block
                  case Str => if s[0] == '"' then Code else Str;
      KeepsOrBlanks(next, s[1..], k - 1);
    }
  }

  /** The mode in which an already masked text is read: comments have vanished, strings have not. */
  function Again(mode: Mode): Mode {
    if mode.Str? then Str else Code
  }

  /** One more character in front, read without a change of mode other than at a quote. */
  lemma OneChar(mode: Mode, c: char, r: string)
    requires mode.Code? || mode.Str?
    requires c == '"' || (mode.Str? && (c == ' ' || c == '\n'))
             || (mode.Code? && c != '#' && (c == '/' && r != [] ==> r[0] != '/' && r[0] != '*'))
    ensures Mask(mode, [c] + r) ==
            [c] + Mask(if c == '"' then (if mode.Code? then Str else Code) else mode, r)
  {
    assert ([c] + r)[1..] == r;
  }

  lemma TwoBlanks(mode: Mode, r: string)
    requires mode.Code? || mode.Str?
    ensures Mask(mode, [' ', ' '] + r) == [' ', ' '] + Mask(mode, r)
  {
    OneChar(mode, ' ', r);
    OneChar(mode, ' ', [' '] + r);
    assert [' ', ' '] + r == [' '] + ([' '] + r);
  }

  /** Masking is idempotent. */
  lemma {:induction false} MaskIsIdempotent(mode: Mode, s: string)
    ensures Mask(Again(mode), Mask(mode, s)) == Mask(mode, s)
    decreases |s|, 1
  {
    if s != [] {
      match mode {
        case Code => CodeIsIdempotent(s);
        case Line =>
          var next := if s[0] == '\n' then Code else Line;
          MaskIsIdempotent(next, s[1..]);
          OneChar(Code, Blank(s[0]), Mask(next, s[1..]));
        case Block =>
          if s[0] == '*' && |s| > 1 && s[1] == '/' {
            MaskIsIdempotent(Code, s[2..]);
            TwoBlanks(Code, Mask(Code, s[2..]));
          } else {
            MaskIsIdempotent(Block, s[1..]);
            OneChar(Code, Blank(s[0]), Mask(Block, s[1..]));
          }
        case Str => StrIsIdempotent(s);
      }
    }
  }

  lemma {:induction false} StrIsIdempotent(s: string)
    requires s != []
    ensures Mask(Str, Mask(Str, s)) == Mask(Str, s)
    decreases |s|, 0
  {
    if s[0] == '"' {
      MaskIsIdempotent(Code, s[1..]);
      OneChar(Str, '"', Mask(Code, s[1..]));
    } else if s[0] == '\\' && |s| > 1 {
      MaskIsIdempotent(Str, s[2..]);
      TwoBlanks(Str, Mask(Str, s[2..]));
    } else {
      MaskIsIdempotent(Str, s[1..]);
      OneChar(Str, Blank(s[0]), Mask(Str, s[1..]));
    }
  }

  lemma {:induction false} CodeIsIdempotent(s: string)
    requires s != []
    ensures Mask(Code, Mask(Code, s)) == Mask(Code, s)
    decreases |s|, 0
  {
    if s[0] == '#' || (s[0] == '/' && |s| > 1 && s[1] == '/') {
      MaskIsIdempotent(Line, s[1..]);
      OneChar(Code, ' ', Mask(Line, s[1..]));
    } else if s[0] == '/' && |s| > 1 && s[1] == '*' {
      MaskIsIdempotent(Block, s[2..]);
      TwoBlanks(Code, Mask(Block, s[2..]));
    } else if s[0] == '"' {
      MaskIsIdempotent(Str, s[1..]);
      OneChar(Code, '"', Mask(Str, s[1..]));
    } else {
      MaskIsIdempotent(Code, s[1..]);
      if |s| > 1 {
        KeepsOrBlanks(Code, s[1..], 0);
      }
      OneChar(Code, s[0], Mask(Code, s[1..]));
    }
  }
}
