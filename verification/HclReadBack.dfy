/** When a printed file is read back as it was declared, and what a comment inside a header does to that
    (scripts/check_required_var_wiring.py). */
module HclReadBack {
  import opened Common
  import opened HclParse
  import opened HclRoundTrip
  import opened HclBodyLaws
  import opened HclRoundTripLaws

  // ---------------------------------------------------------------- the variable blocks of a file

  /** The variable blocks of a piece, in the order of their headers. */
  function Variables(p: Piece): (vs: seq<Piece>)
    ensures AllVariables(vs)
    decreases p, 0
  {
    match p
    case Nested(body) => VariablesAll(body)
    case Variable(gap, name, space, body) => [p] + VariablesAll(body)
    case _ => []
  }

  function VariablesAll(ps: seq<Piece>): (vs: seq<Piece>)
    ensures AllVariables(vs)
    decreases ps, 1
  {
    if ps == [] then [] else Variables(ps[0]) + VariablesAll(ps[1..])
  }

  predicate AllVariables(vs: seq<Piece>) {
    forall i :: 0 <= i < |vs| ==> vs[i].Variable?
  }

  function NameOf(v: Piece): string
    requires v.Variable?
  {
    RenderStr(v.name)
  }

  /** What a list of blocks declares, a later one winning. */
  function DeclareAll(vs: seq<Piece>, acc: map<string, bool>): map<string, bool>
    requires AllVariables(vs)
  {
    if vs == [] then acc else DeclareAll(vs[1..], acc[NameOf(vs[0]) := HasDefault(vs[0].body)])
  }

  function Declared(ps: seq<Piece>): map<string, bool> {
    DeclareAll(VariablesAll(ps), map[])
  }

  /** What is read from them. */
  function ReadAll(vs: seq<Piece>, acc: map<string, bool>): Reading
    requires AllVariables(vs)
  {
    if vs == [] then Ok(acc)
    else
      match FindName(RawHeader(vs[0]))
      case None => Err(NoName)
      case Some(n) => ReadAll(vs[1..], acc[n := HasDefault(vs[0].body)])
  }

  lemma {:induction false} ReadAppend(a: seq<Piece>, b: seq<Piece>, acc: map<string, bool>)
    requires AllVariables(a) && AllVariables(b)
    ensures AllVariables(a + b)
    ensures ReadAll(a + b, acc) == var r := ReadAll(a, acc); if r.Err? then r else ReadAll(b, r.value)
    decreases |a|
  {
    if a == [] {
      assert a + b == b;
    } else {
      assert (a + b)[1..] == a[1..] + b;
      var n := FindName(RawHeader(a[0]));
      if n.Some? {
        ReadAppend(a[1..], b, acc[n.value := HasDefault(a[0].body)]);
      }
    }
  }

  lemma {:induction false} OutcomeOfPiece(p: Piece, acc: map<string, bool>)
    ensures Outcome(p, acc) == ReadAll(Variables(p), acc)
    decreases p, 0
  {
    match p {
      case Nested(body) => OutcomeOfAll(body, acc);
      case Variable(gap, name, space, body) =>
        var n := FindName(RawHeader(p));
        assert ([p] + VariablesAll(body))[1..] == VariablesAll(body);
        if n.Some? {
          OutcomeOfAll(body, acc[n.value := HasDefault(body)]);
        }
      case _ =>
    }
  }

  lemma {:induction false} OutcomeOfAll(ps: seq<Piece>, acc: map<string, bool>)
    ensures OutcomeAll(ps, acc) == ReadAll(VariablesAll(ps), acc)
    decreases ps, 1
  {
    if ps != [] {
      OutcomeOfPiece(ps[0], acc);
      ReadAppend(Variables(ps[0]), VariablesAll(ps[1..]), acc);
      var r := Outcome(ps[0], acc);
      if r.Ok? {
        OutcomeOfAll(ps[1..], r.value);
      }
    }
  }

  // ---------------------------------------------------------------- reading back

  /** The name found in a header is the header's own. */
  predicate OwnName(v: Piece)
    requires v.Variable?
  {
    FindName(RawHeader(v)) == Some(NameOf(v))
  }

  ghost predicate OwnNames(vs: seq<Piece>)
    requires AllVariables(vs)
  {
    forall i :: 0 <= i < |vs| ==> OwnName(vs[i])
  }

  lemma {:induction false} OwnNamesAreDeclared(vs: seq<Piece>, acc: map<string, bool>)
    requires AllVariables(vs) && OwnNames(vs)
    ensures ReadAll(vs, acc) == Ok(DeclareAll(vs, acc))
  {
    if vs != [] {
      assert OwnName(vs[0]);
      assert forall i :: 0 <= i < |vs[1..]| ==> vs[1..][i] == vs[i + 1];
      OwnNamesAreDeclared(vs[1..], acc[NameOf(vs[0]) := HasDefault(vs[0].body)]);
    }
  }

  ghost predicate ReadsBack(ps: seq<Piece>) {
    ParseText(RenderAll(ps)) == Ok(Declared(ps))
  }

  /** Round trip: any layout of words, strings, comments, nested blocks and variable blocks, whatever they
      contain, is read back as it was declared, as long as every header shows its own name. */
  lemma ParserReadsBackThePrinter(ps: seq<Piece>)
    requires PiecesOk(ps) && OwnNames(VariablesAll(ps))
    ensures ReadsBack(ps)
  {
    ParserOutcome(ps);
    OutcomeOfAll(ps, map[]);
    OwnNamesAreDeclared(VariablesAll(ps), map[]);
  }

  // ---------------------------------------------------------------- exactly then

  ghost predicate DistinctNames(vs: seq<Piece>)
    requires AllVariables(vs)
  {
    forall i, j :: 0 <= i < j < |vs| ==> NameOf(vs[i]) != NameOf(vs[j])
  }

  /** The same headers in the same order, over bodies and surroundings of any kind. */
  ghost predicate SameHeaders(vs: seq<Piece>, ws: seq<Piece>)
    requires AllVariables(vs) && AllVariables(ws)
  {
    |vs| == |ws| && forall i :: 0 <= i < |vs| ==> RawHeader(vs[i]) == RawHeader(ws[i]) && NameOf(vs[i]) == NameOf(ws[i])
  }

  ghost predicate AlwaysReadsBack(ps: seq<Piece>) {
    forall qs :: PiecesOk(qs) && SameHeaders(VariablesAll(ps), VariablesAll(qs)) ==> ReadsBack(qs)
  }

  /** The same header over a body that holds a default or nothing. */
  function Bare(v: Piece, flag: bool): (w: Piece)
    requires v.Variable?
    ensures w.Variable? && RawHeader(w) == RawHeader(v) && NameOf(w) == NameOf(v)
  {
    v.(body := if flag then [Default([])] else [])
  }

  /** The same headers, with a default in block j alone. */
  function Rebuilt(vs: seq<Piece>, j: int): (ws: seq<Piece>)
    requires AllVariables(vs)
    ensures |ws| == |vs| && AllVariables(ws) && forall i :: 0 <= i < |vs| ==> ws[i] == Bare(vs[i], i == j)
  {
    if vs == [] then [] else [Bare(vs[0], j == 0)] + Rebuilt(vs[1..], j - 1)
  }

  lemma BareHasDefault(v: Piece, flag: bool)
    requires v.Variable?
    ensures HasDefault(Bare(v, flag).body) == flag
    ensures VariablesAll(Bare(v, flag).body) == []
    ensures PieceOk(v) ==> PieceOk(Bare(v, flag))
  {
    var body := Bare(v, flag).body;
    if flag {
      assert body[0].Default?;
      assert body[1..] == [] && Variables(body[0]) == [];
      assert PiecesOk([]);
    }
  }

  lemma {:induction false} RebuiltVariables(vs: seq<Piece>, j: int)
    requires AllVariables(vs)
    ensures VariablesAll(Rebuilt(vs, j)) == Rebuilt(vs, j)
  {
    if vs != [] {
      RebuiltVariables(vs[1..], j - 1);
      BareHasDefault(vs[0], j == 0);
      var w := Bare(vs[0], j == 0);
      assert Variables(w) == [w] + [];
      assert Rebuilt(vs, j)[1..] == Rebuilt(vs[1..], j - 1);
    }
  }

  lemma {:induction false} VariablesAreOk(ps: seq<Piece>)
    requires PiecesOk(ps)
    ensures forall i :: 0 <= i < |VariablesAll(ps)| ==> PieceOk(VariablesAll(ps)[i])
    decreases ps, 1
  {
    if ps != [] {
      TailIsOk(ps);
      VariablesOfPieceAreOk(ps[0]);
      VariablesAreOk(ps[1..]);
    }
  }

  lemma {:induction false} VariablesOfPieceAreOk(p: Piece)
    requires PieceOk(p)
    ensures forall i :: 0 <= i < |Variables(p)| ==> PieceOk(Variables(p)[i])
    decreases p, 0
  {
    match p {
      case Nested(body) => VariablesAreOk(body);
      case Variable(gap, name, space, body) => VariablesAreOk(body);
      case _ =>
    }
  }

  lemma RebuiltIsOk(vs: seq<Piece>, j: int)
    requires AllVariables(vs) && forall i :: 0 <= i < |vs| ==> PieceOk(vs[i])
    ensures PiecesOk(Rebuilt(vs, j)) && SameHeaders(vs, Rebuilt(vs, j))
  {
    forall i | 0 <= i < |vs| ensures PieceOk(Rebuilt(vs, j)[i]) {
      BareHasDefault(vs[i], i == j);
    }
  }

  /** A default that was read under a name was read from some header with a default. */
  lemma {:induction false} DefaultWasRead(vs: seq<Piece>, acc: map<string, bool>, n: string)
    requires AllVariables(vs) && ReadAll(vs, acc).Ok?
    ensures n in ReadAll(vs, acc).value && ReadAll(vs, acc).value[n] ==>
              || (n in acc && acc[n])
              || exists i :: 0 <= i < |vs| && HasDefault(vs[i].body) && FindName(RawHeader(vs[i])) == Some(n)
  {
    if vs != [] {
      var name := FindName(RawHeader(vs[0])).value;
      var next := acc[name := HasDefault(vs[0].body)];
      DefaultWasRead(vs[1..], next, n);
      var m := ReadAll(vs[1..], next).value;
      if n in m && m[n] && !(n in next && next[n]) {
        var i :| 0 <= i < |vs[1..]| && HasDefault(vs[1..][i].body) && FindName(RawHeader(vs[1..][i])) == Some(n);
        assert vs[i + 1] == vs[1..][i];
      }
    }
  }

  lemma {:induction false} DeclaredKeeps(vs: seq<Piece>, acc: map<string, bool>, n: string)
    requires AllVariables(vs) && forall i :: 0 <= i < |vs| ==> NameOf(vs[i]) != n
    ensures n in DeclareAll(vs, acc) <==> n in acc
    ensures n in acc ==> DeclareAll(vs, acc)[n] == acc[n]
  {
    if vs != [] {
      DeclaredKeeps(vs[1..], acc[NameOf(vs[0]) := HasDefault(vs[0].body)], n);
    }
  }

  lemma {:induction false} DeclaredAt(vs: seq<Piece>, acc: map<string, bool>, k: nat)
    requires AllVariables(vs) && k < |vs| && DistinctNames(vs)
    ensures NameOf(vs[k]) in DeclareAll(vs, acc)
    ensures DeclareAll(vs, acc)[NameOf(vs[k])] == HasDefault(vs[k].body)
  {
    var next := acc[NameOf(vs[0]) := HasDefault(vs[0].body)];
    if k == 0 {
      DeclaredKeeps(vs[1..], next, NameOf(vs[0]));
    } else {
      DeclaredAt(vs[1..], next, k - 1);
    }
  }

  /** If block j alone has a default, a default that was read was read from header j. */
  lemma OnlyDefaultIsRead(ws: seq<Piece>, j: nat, n: string)
    requires AllVariables(ws) && j < |ws| && forall i :: 0 <= i < |ws| ==> (HasDefault(ws[i].body) <==> i == j)
    requires ReadAll(ws, map[]).Ok? && n in ReadAll(ws, map[]).value && ReadAll(ws, map[]).value[n]
    ensures FindName(RawHeader(ws[j])) == Some(n)
  {
    DefaultWasRead(ws, map[], n);
    var i :| 0 <= i < |ws| && HasDefault(ws[i].body) && FindName(RawHeader(ws[i])) == Some(n);
    assert i == j;
  }

  lemma RebuiltRead(vs: seq<Piece>, j: nat)
    requires AllVariables(vs) && (forall i :: 0 <= i < |vs| ==> PieceOk(vs[i])) && ReadsBack(Rebuilt(vs, j))
    ensures ReadAll(Rebuilt(vs, j), map[]) == Ok(DeclareAll(Rebuilt(vs, j), map[]))
  {
    RebuiltIsOk(vs, j);
    RebuiltVariables(vs, j);
    ParserOutcome(Rebuilt(vs, j));
    OutcomeOfAll(Rebuilt(vs, j), map[]);
  }

  lemma RebuiltFlags(vs: seq<Piece>, j: nat, i: nat)
    requires AllVariables(vs) && i < |vs|
    ensures HasDefault(Rebuilt(vs, j)[i].body) <==> i == j
  {
    BareHasDefault(vs[i], i == j);
  }

  /** If the file in which block j alone has a default is read back, header j shows its own name. */
  lemma OneDefaultTells(vs: seq<Piece>, j: nat)
    requires AllVariables(vs) && j < |vs| && DistinctNames(vs)
    requires (forall i :: 0 <= i < |vs| ==> PieceOk(vs[i])) && ReadsBack(Rebuilt(vs, j))
    ensures OwnName(vs[j])
  {
    RebuiltRead(vs, j);
    forall i | 0 <= i < |vs| ensures HasDefault(Rebuilt(vs, j)[i].body) <==> i == j {
      RebuiltFlags(vs, j, i);
    }
    DeclaredAt(Rebuilt(vs, j), map[], j);
    OnlyDefaultIsRead(Rebuilt(vs, j), j, NameOf(vs[j]));
  }

  /** The exact condition: with distinct names, a file is read back as declared whatever its blocks hold, if
      and only if in every header the name found first is the header's own. */
  lemma HeadersDecide(ps: seq<Piece>)
    requires PiecesOk(ps) && DistinctNames(VariablesAll(ps))
    ensures AlwaysReadsBack(ps) <==> OwnNames(VariablesAll(ps))
  {
    var vs := VariablesAll(ps);
    VariablesAreOk(ps);
    if OwnNames(vs) {
      forall qs | PiecesOk(qs) && SameHeaders(vs, VariablesAll(qs)) ensures ReadsBack(qs) {
        forall i | 0 <= i < |vs| ensures OwnName(VariablesAll(qs)[i]) {
          assert OwnName(vs[i]);
        }
        ParserReadsBackThePrinter(qs);
      }
    }
    if AlwaysReadsBack(ps) {
      forall j | 0 <= j < |vs| ensures OwnName(vs[j]) {
        RebuiltIsOk(vs, j);
        RebuiltVariables(vs, j);
        assert ReadsBack(Rebuilt(vs, j));
        OneDefaultTells(vs, j);
      }
    }
  }

  /** The map holds n exactly if it is declared, and every declared name with its own block's flag. */
  ghost predicate HoldsDeclared(m: map<string, bool>, vs: seq<Piece>, n: string)
    requires AllVariables(vs)
  {
    && (n in m <==> exists k :: 0 <= k < |vs| && NameOf(vs[k]) == n)
    && (forall k :: 0 <= k < |vs| ==> NameOf(vs[k]) in m && m[NameOf(vs[k])] == HasDefault(vs[k].body))
  }

  lemma DeclaredExactly(vs: seq<Piece>, n: string)
    requires AllVariables(vs) && DistinctNames(vs)
    ensures HoldsDeclared(DeclareAll(vs, map[]), vs, n)
  {
    var m := DeclareAll(vs, map[]);
    forall k | 0 <= k < |vs| ensures NameOf(vs[k]) in m && m[NameOf(vs[k])] == HasDefault(vs[k].body) {
      DeclaredAt(vs, map[], k);
    }
    if forall k :: 0 <= k < |vs| ==> NameOf(vs[k]) != n {
      DeclaredKeeps(vs, map[], n);
    }
  }

  /** With distinct names, each shown by its header, the parse holds exactly the declared names, each with
      its own block's flag. */
  lemma DistinctNamesAreReadBack(ps: seq<Piece>, n: string)
    requires PiecesOk(ps) && DistinctNames(VariablesAll(ps)) && OwnNames(VariablesAll(ps))
    ensures ParseText(RenderAll(ps)).Ok? && HoldsDeclared(ParseText(RenderAll(ps)).value, VariablesAll(ps), n)
  {
    DeclaredExactly(VariablesAll(ps), n);
    ParserReadsBackThePrinter(ps);
  }

  /** The guard on printed revisions, with or without an old file: nothing if a header of either hides its
      name, otherwise the names read without default in the new one and not at all in the old one. */
  lemma NewRequiredIsExact(base: Option<seq<Piece>>, head: seq<Piece>)
    requires PiecesOk(head) && (base.Some? ==> PiecesOk(base.value))
    ensures var now := ReadAll(VariablesAll(head), map[]);
            var before := if base.Some? then ReadAll(VariablesAll(base.value), map[]) else Ok(map[]);
            NewRequired(if base.Some? then Some(RenderAll(base.value)) else None, RenderAll(head)) ==
            if now.Err? || before.Err? then {}
            else set n | n in now.value && !now.value[n] && n !in before.value
    ensures OwnNames(VariablesAll(head)) && (base.Some? ==> OwnNames(VariablesAll(base.value))) ==>
              var before := if base.Some? then Declared(base.value) else map[];
              NewRequired(if base.Some? then Some(RenderAll(base.value)) else None, RenderAll(head)) ==
              set n | n in Declared(head) && !Declared(head)[n] && n !in before
  {
    ParserOutcome(head);
    OutcomeOfAll(head, map[]);
    if base.Some? {
      ParserOutcome(base.value);
      OutcomeOfAll(base.value, map[]);
    }
    if OwnNames(VariablesAll(head)) && (base.Some? ==> OwnNames(VariablesAll(base.value))) {
      OwnNamesAreDeclared(VariablesAll(head), map[]);
      if base.Some? {
        OwnNamesAreDeclared(VariablesAll(base.value), map[]);
      }
    }
  }
}
