/** Scanning masked HCL for variable blocks and their top-level defaults
    (scripts/check_required_var_wiring.py). */
module HclParse {
  import opened Common
  import opened HclMask

  // ---------------------------------------------------------------- characters

  /** The characters of an identifier, for the word test around `default`. */
  predicate IsToken(c: char) {
    'a' <= c <= 'z' || 'A' <= c <= 'Z' || '0' <= c <= '9' || c == '_'
  }

  /** How many leading characters can be inside a name. */
  function NameChars(s: string): (n: nat)
    ensures n <= |s| && (n < |s| ==> s[n] == '"' || s[n] == '\n')
  {
    if s == [] || s[0] == '"' || s[0] == '\n' then 0 else 1 + NameChars(s[1..])
  }

  function Blanks(s: string): (n: nat)
    ensures n <= |s|
  {
    if s == [] || !(s[0] == ' ' || s[0] == '\t') then 0 else 1 + Blanks(s[1..])
  }

  const VARIABLE: string := "variable"
  const DEFAULT: string := "default"

  // ---------------------------------------------------------------- headers

  datatype Header = Header(length: nat, nameAt: nat, nameLength: nat)

  /** The header pattern at the start of s: the keyword, white space, a quoted name, white space, a brace.
      No step can match two ways, so there is nothing to backtrack over. */
  function HeaderAt(s: string): (h: Option<Header>)
    ensures h.Some? ==> 0 < h.value.length <= |s| && h.value.nameAt + h.value.nameLength <= h.value.length
  {
    if !(VARIABLE <= s) then None
    else
      var gap := Spaces(s[8..]);
      var q := 8 + gap;
      if gap == 0 || q >= |s| || s[q] != '"' then None
      else
        var n := NameChars(s[q + 1..]);
        var e := q + 1 + n;
        if e >= |s| || s[e] != '"' then None
        else
          var f := e + 1 + Spaces(s[e + 1..]);
          if f >= |s| || s[f] != '{' then None else Some(Header(f + 1, q + 1, n))
  }

  /** The name in the first header found anywhere in a stretch of the original text. */
  function FindName(s: string): Option<string> {
    match HeaderAt(s)
    case Some(h) => Some(s[h.nameAt..h.nameAt + h.nameLength])
    case None => if s == [] then None else FindName(s[1..])
  }

  // ---------------------------------------------------------------- block bodies

  /** A top-level `default =` begins here; `prev` is the character before. */
  predicate DefaultAt(prev: char, s: string) {
    && DEFAULT <= s && !IsToken(prev) && !(|s| > 7 && IsToken(s[7]))
    && var j := 7 + Blanks(s[7..]);
       j < |s| && s[j] == '='
  }

  /** Scan a block body at the given depth: whether it had a default, or none if braces do not balance. */
  function Body(prev: char, s: string, depth: nat, found: bool): Option<bool>
    decreases |s|
  {
    if depth == 0 then Some(found)
    else if s == [] then None
    else if s[0] == '{' then Body(s[0], s[1..], depth + 1, found)
    else if s[0] == '}' then Body(s[0], s[1..], depth - 1, found)
    else Body(s[0], s[1..], depth, found || (depth == 1 && s[0] == 'd' && DefaultAt(prev, s)))
  }

  // ---------------------------------------------------------------- whole files

  datatype ParseError = NoName | Unbalanced

  /** The declarations in a text, given with its masked form; later ones win. Scanning resumes right
      after each header, so headers inside bodies are found too. */
  function Parse(text: string, masked: string, acc: map<string, bool>): Result<map<string, bool>, ParseError>
    requires |text| == |masked|
    decreases |masked|, 1
  {
    if masked == [] then Ok(acc)
    else
      match HeaderAt(masked)
      case None => Parse(text[1..], masked[1..], acc)
      case Some(h) => AtHeader(text, masked, h.length, acc)
  }

  /** Read the declaration whose header has the given length, and go on after the header. */
  function AtHeader(text: string, masked: string, len: nat, acc: map<string, bool>)
    : Result<map<string, bool>, ParseError>
    requires |text| == |masked| && 0 < len <= |masked|
    decreases |masked|, 0
  {
    match FindName(text[..len])
    case None => Err(NoName)
    case Some(name) =>
      match Body('{', masked[len..], 1, false)
      case None => Err(Unbalanced)
      case Some(found) => Parse(text[len..], masked[len..], acc[name := found])
  }

  function ParseText(text: string): Result<map<string, bool>, ParseError> {
    Parse(text, Mask(Code, text), map[])
  }

  /** The depth-counting loop over one body. */
  method ScanBody(masked: string, start: nat) returns (r: Option<bool>)
    requires 0 < start <= |masked| && masked[start - 1] == '{'
    ensures r == Body('{', masked[start..], 1, false)
  {
    var depth: nat, found, i := 1, false, start;
    while i < |masked| && depth > 0
      invariant start <= i <= |masked|
      invariant Body(masked[i - 1], masked[i..], depth, found) == Body('{', masked[start..], 1, false)
    {
      var c := masked[i];
      ghost var s := masked[i..];
      assert s[0] == c && s[1..] == masked[i + 1..];
      if c == '{' {
        depth := depth + 1;
      } else if c == '}' {
        depth := depth - 1;
      } else if depth == 1 && c == 'd' {
        var here := IsDefaultAt(masked, i);
        found := found || here;
      }
      i := i + 1;
    }
    r := if depth == 0 then Some(found) else None;
  }

  /** The word test and the look-ahead past blanks to the equals sign. */
  method IsDefaultAt(masked: string, i: nat) returns (b: bool)
    requires 0 < i < |masked|
    ensures b == DefaultAt(masked[i - 1], masked[i..])
  {
    ghost var s := masked[i..];
    if i + 7 > |masked| || masked[i..i + 7] != DEFAULT {
      assert i + 7 <= |masked| ==> s[..7] == masked[i..i + 7];
      return false;
    }
    assert s[..7] == masked[i..i + 7];
    if IsToken(masked[i - 1]) || (i + 7 < |masked| && IsToken(masked[i + 7])) {
      return false;
    }
    var j := i + 7;
    assert s[7..] == masked[j..];
    while j < |masked| && (masked[j] == ' ' || masked[j] == '\t')
      invariant i + 7 <= j <= |masked|
      invariant j - i + Blanks(masked[j..]) == 7 + Blanks(s[7..])
    {
      assert masked[j..][1..] == masked[j + 1..];
      j := j + 1;
    }
    b := j < |masked| && masked[j] == '=';
  }

  /** Look for a header at p, and read its declaration if there is one. */
  method Visit(text: string, masked: string, p: nat, acc: map<string, bool>)
    returns (error: Option<ParseError>, next: nat, updated: map<string, bool>)
    requires |text| == |masked| && p < |masked|
    ensures error.Some? ==> Parse(text[p..], masked[p..], acc) == Err(error.value)
    ensures error.None? ==> p < next <= |masked|
    ensures error.None? ==> Parse(text[p..], masked[p..], acc) == Parse(text[next..], masked[next..], updated)
  {
    var header := HeaderAt(masked[p..]);
    ParseStep(text, masked, p, header, acc);
    if header.None? {
      return None, p + 1, acc;
    }
    var end := p + header.value.length;
    var name := FindName(text[p..end]);
    if name.None? {
      return Some(NoName), end, acc;
    }
    var found := ScanBody(masked, end);
    if found.None? {
      return Some(Unbalanced), end, acc;
    }
    return None, end, acc[name.value := found.value];
  }

  /** parse_variable_blocks: mask, then visit every header from left to right. */
  method ParseVariableBlocks(text: string) returns (r: Result<map<string, bool>, ParseError>)
    ensures r == ParseText(text)
  {
    var masked := MaskHcl(text);
    var result: map<string, bool> := map[];
    var p: nat := 0;
    ghost var goal := ParseText(text);
    assert text[0..] == text && masked[0..] == masked;
    while p < |masked|
      invariant p <= |masked| && Parse(text[p..], masked[p..], result) == goal
      decreases |masked| - p
    {
      var error, next, updated := Visit(text, masked, p, result);
      if error.Some? {
        return Err(error.value);
      }
      p, result := next, updated;
    }
    r := Ok(result);
  }

  lemma Shift(s: string, p: nat, n: nat)
    requires p + n <= |s|
    ensures s[p..][..n] == s[p..p + n] && s[p..][n..] == s[p + n..]
  {
  }

  /** One round of the header loop, by index. */
  lemma ParseStep(text: string, masked: string, p: nat, header: Option<Header>, acc: map<string, bool>)
    requires |text| == |masked| && p < |masked| && header == HeaderAt(masked[p..])
    ensures header.None? ==> Parse(text[p..], masked[p..], acc) == Parse(text[p + 1..], masked[p + 1..], acc)
    ensures header.Some? ==>
              var end := p + header.value.length;
              && 0 < end <= |masked| && masked[end - 1] == '{'
              && Parse(text[p..], masked[p..], acc) ==
                 match FindName(text[p..end])
                 case None => Err(NoName)
                 case Some(name) =>
                   match Body('{', masked[end..], 1, false)
                   case None => Err(Unbalanced)
                   case Some(found) => Parse(text[end..], masked[end..], acc[name := found])
  {
    var n := if header.None? then 1 else header.value.length;
    Shift(text, p, n);
    Shift(masked, p, n);
    HeaderEndsInBrace(masked[p..]);
  }

  lemma HeaderEndsInBrace(s: string)
    ensures HeaderAt(s).Some? ==> s[HeaderAt(s).value.length - 1] == '{'
  {
  }

  // ---------------------------------------------------------------- newly required variables

  /** The names that are declared without default in the new text and not declared in the old one; an
      unreadable revision on either side reports nothing. */
  function NewRequired(base: Option<string>, head: string): set<string> {
    match ParseText(head)
    case Err(_) => {}
    case Ok(now) =>
      if base.None? then set n | n in now && !now[n]
      else
        match ParseText(base.value)
        case Err(_) => {}
        case Ok(before) => set n | n in now && !now[n] && n !in before
  }

  // ---------------------------------------------------------------- what the parser looks at

  /** The name the code reads for a header at p. */
  function NameAt(text: string, masked: string, p: nat): Option<string>
    requires |text| == |masked| && p <= |masked|
  {
    match HeaderAt(masked[p..])
    case None => None
    case Some(h) => FindName(text[p..p + h.length])
  }

  /** Both texts have the same name under every header of the masked text. */
  ghost predicate SameNames(a: string, b: string, masked: string)
    requires |a| == |b| == |masked|
  {
    forall p :: 0 <= p <= |masked| ==> NameAt(a, masked, p) == NameAt(b, masked, p)
  }

  lemma NameAtShift(text: string, masked: string, k: nat, p: nat)
    requires |text| == |masked| && k + p <= |masked|
    ensures NameAt(text[k..], masked[k..], p) == NameAt(text, masked, k + p)
  {
    assert masked[k..][p..] == masked[k + p..];
    match HeaderAt(masked[k + p..]) {
      case None =>
      case Some(h) => assert text[k..][p..p + h.length] == text[k + p..k + p + h.length];
    }
  }

  lemma SameNamesShift(a: string, b: string, masked: string, k: nat)
    requires |a| == |b| == |masked| && k <= |masked| && SameNames(a, b, masked)
    ensures SameNames(a[k..], b[k..], masked[k..])
  {
    forall p | 0 <= p <= |masked[k..]| ensures NameAt(a[k..], masked[k..], p) == NameAt(b[k..], masked[k..], p) {
      NameAtShift(a, masked, k, p);
      NameAtShift(b, masked, k, p);
    }
  }

  lemma {:induction false} ParseLooksAtMaskAndNames(a: string, b: string, masked: string, acc: map<string, bool>)
    requires |a| == |b| == |masked| && SameNames(a, b, masked)
    ensures Parse(a, masked, acc) == Parse(b, masked, acc)
    decreases |masked|
  {
    if masked != [] {
      match HeaderAt(masked) {
        case None =>
          SameNamesShift(a, b, masked, 1);
          ParseLooksAtMaskAndNames(a[1..], b[1..], masked[1..], acc);
        case Some(h) =>
          assert masked[0..] == masked && a[0..h.length] == a[..h.length] && b[0..h.length] == b[..h.length];
          assert NameAt(a, masked, 0) == NameAt(b, masked, 0);
          if FindName(a[..h.length]).Some? && Body('{', masked[h.length..], 1, false).Some? {
            SameNamesShift(a, b, masked, h.length);
            ParseLooksAtMaskAndNames(a[h.length..], b[h.length..], masked[h.length..],
              acc[FindName(a[..h.length]).value := Body('{', masked[h.length..], 1, false).value]);
          }
      }
    }
  }

  /** Comments and string contents cannot influence the result: two texts that mask to the same and agree
      on the names in their headers parse to the same, errors included. */
  lemma MaskDecides(a: string, b: string)
    requires Mask(Code, a) == Mask(Code, b) && |a| == |b| && SameNames(a, b, Mask(Code, a))
    ensures ParseText(a) == ParseText(b)
  {
    ParseLooksAtMaskAndNames(a, b, Mask(Code, a), map[]);
  }
}
