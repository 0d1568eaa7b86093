// What shell lines mean, in terms of their characters: which tokens a text spells, and which
// tree a line of plain words and operators stands for.
module ShellText {
  import opened Common
  import opened ShellSpec

  // ---- Tokens ----

  predicate Blank(c: char) { c == ' ' || c == '\t' || c == '\r' || c == '\n' || c == '\U{0B}' }

  predicate Letter(c: char) {
    !Blank(c) && c != '<' && c != '|' && c != '>' && c != '&' && c != ';' && c != '(' && c != ')'
  }

  predicate AllBlank(s: string) { forall i | 0 <= i < |s| :: Blank(s[i]) }

  predicate PlainTok(t: Tok) {
    match t
    case Sym(c) => c == '<' || c == '|' || c == '>' || c == '&' || c == ';' || c == '(' || c == ')' || c == '+'
    case Word(w) => w != "" && forall i | 0 <= i < |w| :: Letter(w[i])
  }

  predicate PlainToks(ts: seq<Tok>) { forall i | 0 <= i < |ts| :: PlainTok(ts[i]) }

  function Spelling(t: Tok): string {
    match t
    case Sym(c) => if c == '+' then ">>" else [c]
    case Word(w) => w
  }

  // A word goes on as long as it can, and > is not the first half of >>.
  predicate Ends(t: Tok, rest: string) {
    rest == "" || ((t.Word? ==> !Letter(rest[0])) && (t == Sym('>') ==> rest[0] != '>'))
  }

  // The text is the tokens in order, with blanks before, between and after them.
  ghost predicate Spelled(s: string, ts: seq<Tok>)
    decreases |ts|
  {
    if ts == [] then AllBlank(s)
    else exists k, m | 0 <= k <= m <= |s| ::
      AllBlank(s[..k]) && s[k..m] == Spelling(ts[0]) && Ends(ts[0], s[m..]) && Spelled(s[m..], ts[1..])
  }

  lemma CharsAre(c: char)
    ensures Space(c) <==> Blank(c)
    ensures WordChar(c) <==> Letter(c)
    ensures Symbol(c) || c == '+' <==> PlainTok(Sym(c))
  {
  }

  lemma {:induction false} SkipIs(s: string, k: nat)
    requires k <= |s| && AllBlank(s[..k]) && (k < |s| ==> !Blank(s[k]))
    ensures Skip(s) == s[k..]
    decreases k
  {
    if k == 0 {
      if s != "" {
        CharsAre(s[0]);
      }
    } else {
      assert s[..k][0] == s[0];
      CharsAre(s[0]);
      var t := s[1..][..k - 1];
      forall i | 0 <= i < |t|
        ensures Blank(t[i])
      {
        assert t[i] == s[..k][i + 1];
      }
      SkipIs(s[1..], k - 1);
    }
  }

  // How many blanks a text begins with.
  lemma {:induction false} Blanks(s: string) returns (k: nat)
    ensures k <= |s| && AllBlank(s[..k]) && (k < |s| ==> !Blank(s[k]))
  {
    if s == "" || !Blank(s[0]) {
      k := 0;
    } else {
      var j := Blanks(s[1..]);
      k := j + 1;
      forall i | 0 <= i < |s[..k]|
        ensures Blank(s[..k][i])
      {
        assert i > 0 ==> s[i] == s[1..][..j][i - 1];
      }
      assert k < |s| ==> s[k] == s[1..][j];
    }
  }

  // A plain token at the start of a text is the one that is read.
  lemma TokIs(t: Tok, rest: string)
    requires PlainTok(t) && Ends(t, rest)
    ensures
      var s := Spelling(t) + rest;
      s != "" && !Blank(s[0]) && !Space(s[0]) && FirstTok(s) == t && TokLength(s) == |Spelling(t)|
  {
    var s := Spelling(t) + rest;
    assert s[0] == Spelling(t)[0];
    CharsAre(s[0]);
    if rest != "" {
      assert s[|Spelling(t)|] == rest[0];
      CharsAre(rest[0]);
    }
    if t.Word? {
      forall i | 0 <= i < |t.w|
        ensures WordChar(t.w[i])
      {
        CharsAre(t.w[i]);
      }
      WordLengthIs(t.w, rest);
    } else if t.c == '+' {
      assert s[1] == '>';
    }
  }

  // The token that is read is a plain one, spelled so.
  lemma TokSpelled(s: string)
    requires s != "" && !Space(s[0])
    ensures PlainTok(FirstTok(s)) && Spelling(FirstTok(s)) == s[..TokLength(s)] && Ends(FirstTok(s), s[TokLength(s)..])
  {
    CharsAre(s[0]);
    if Symbol(s[0]) {
      if TokLength(s) == 2 {
        assert s[..2] == ">>";
      }
    } else {
      WordLengthStops(s);
      forall i | 0 <= i < WordLength(s)
        ensures Letter(s[i])
      {
        CharsAre(s[i]);
      }
      if WordLength(s) < |s| {
        CharsAre(s[WordLength(s)]);
      }
    }
  }

  lemma {:induction false} WordLengthStops(s: string)
    ensures forall i | 0 <= i < WordLength(s) :: WordChar(s[i])
    ensures WordLength(s) < |s| ==> !WordChar(s[WordLength(s)])
  {
    if s != "" && WordChar(s[0]) {
      WordLengthStops(s[1..]);
      forall i | 0 <= i < WordLength(s)
        ensures WordChar(s[i])
      {
        assert i > 0 ==> s[i] == s[1..][i - 1];
      }
    }
  }

  lemma LexNext(s: string, k: nat)
    requires k < |s| && AllBlank(s[..k]) && !Blank(s[k])
    ensures !Space(s[k..][0]) && Lex(s) == [FirstTok(s[k..])] + Lex(s[k..][TokLength(s[k..])..])
  {
    SkipIs(s, k);
    SkipShortens(s);
  }

  lemma LexNothing(s: string)
    requires AllBlank(s)
    ensures Lex(s) == []
  {
    assert s[..|s|] == s;
    SkipIs(s, |s|);
  }

  lemma {:induction false} SpelledIsLexed(s: string, ts: seq<Tok>)
    requires Spelled(s, ts) && PlainToks(ts)
    ensures Lex(s) == ts
    decreases |ts|
  {
    hide Lex, PlainTok;
    if ts == [] {
      LexNothing(s);
    } else {
      var k, m :| 0 <= k <= m <= |s| && AllBlank(s[..k]) && s[k..m] == Spelling(ts[0]) && Ends(ts[0], s[m..]) &&
                  Spelled(s[m..], ts[1..]);
      SpelledIsLexed(s[m..], ts[1..]);
      OneLexed(s, ts[0], k, m);
    }
  }

  lemma OneLexed(s: string, t: Tok, k: nat, m: nat)
    requires k <= m <= |s| && AllBlank(s[..k]) && s[k..m] == Spelling(t) && Ends(t, s[m..]) && PlainTok(t)
    ensures Lex(s) == [t] + Lex(s[m..])
  {
    hide Lex, AllBlank, Spelling, Ends, PlainTok, FirstTok, TokLength, Blank, Space;
    var u := s[k..];
    assert u == s[k..m] + s[m..];
    TokIs(t, s[m..]);
    assert s[k] == u[0];
    LexNext(s, k);
    assert u[m - k..] == s[m..];
  }

  lemma {:induction false} LexedIsSpelled(s: string)
    ensures Spelled(s, Lex(s)) && PlainToks(Lex(s))
    decreases |s|
  {
    hide Lex;
    var k := Blanks(s);
    if k == |s| {
      assert s[..k] == s;
      LexNothing(s);
    } else {
      var t := s[k..];
      LexNext(s, k);
      TokSpelled(t);
      var m := k + TokLength(t);
      assert s[k..m] == t[..TokLength(t)] && s[m..] == t[TokLength(t)..];
      LexedIsSpelled(s[m..]);
      assert Lex(s)[1..] == Lex(s[m..]);
    }
  }

  // gettoken() splits a text into exactly the plain tokens that it spells.
  lemma LexIff(s: string, ts: seq<Tok>)
    ensures Lex(s) == ts <==> Spelled(s, ts) && PlainToks(ts)
  {
    LexedIsSpelled(s);
    if Spelled(s, ts) && PlainToks(ts) {
      SpelledIsLexed(s, ts);
    }
  }

  // ---- Lines ----

  // Fewer than ten words, each followed by a blank.
  predicate PlainArgs(args: seq<string>) { |args| < 10 && forall i | 0 <= i < |args| :: PlainWord(args[i]) }

  predicate PlainWord(w: string) { w != "" && forall i | 0 <= i < |w| :: Letter(w[i]) && w[i] != '\0' }

  function Line(args: seq<string>): string {
    if args == [] then "" else args[0] + " " + Line(args[1..])
  }

  datatype RedirOp = In(file: string) | Out(file: string) | Append(file: string)

  function OpSign(op: RedirOp): string { if op.In? then "< " else if op.Out? then "> " else ">> " }

  function OpText(op: RedirOp): string { OpSign(op) + op.file + " " }

  function OpsText(ops: seq<RedirOp>): string {
    if ops == [] then "" else OpText(ops[0]) + OpsText(ops[1..])
  }

  // Input is opened for reading as descriptor 0, output created or opened for writing as 1. The
  // first operator is the innermost.
  function OpTree(c: Cmd<string>, op: RedirOp): Cmd<string> {
    match op
    case In(file) => Redir(c, file, 0x000, 0)
    case Out(file) => Redir(c, file, 0x201, 1)
    case Append(file) => Redir(c, file, 0x201, 1)
  }

  function OpsTree(c: Cmd<string>, ops: seq<RedirOp>): Cmd<string>
    decreases |ops|
  {
    if ops == [] then c else OpsTree(OpTree(c, ops[0]), ops[1..])
  }

  predicate PlainOps(ops: seq<RedirOp>) { forall i | 0 <= i < |ops| :: PlainWord(ops[i].file) }

  // -- As tokens

  function OpToks(op: RedirOp): seq<Tok> {
    [Sym(if op.In? then '<' else if op.Out? then '>' else '+'), Word(op.file)]
  }

  function OpsToks(ops: seq<RedirOp>): seq<Tok> {
    if ops == [] then [] else OpToks(ops[0]) + OpsToks(ops[1..])
  }

  function OpRedirs(ops: seq<RedirOp>): seq<Redirection<string>> {
    if ops == [] then []
    else
      var r := if ops[0].In? then Redirection(ops[0].file, 0x000, 0) else Redirection(ops[0].file, 0x201, 1);
      [r] + OpRedirs(ops[1..])
  }

  lemma PlainIsWord(w: string)
    requires PlainWord(w)
    ensures IsWord(w)
  {
    forall i | 0 <= i < |w|
      ensures WordChar(w[i])
    {
      CharsAre(w[i]);
    }
  }

  lemma ArgsAreProper(args: seq<string>)
    requires PlainArgs(args)
    ensures Proper(Exec(args))
  {
    forall i | 0 <= i < |args|
      ensures IsWord(args[i])
    {
      PlainIsWord(args[i]);
    }
  }

  lemma {:induction false} RenderConcat(a: seq<Tok>, b: seq<Tok>)
    ensures Render(a + b) == Render(a) + Render(b)
    decreases |a|
  {
    if a == [] {
      assert a + b == b;
    } else {
      assert (a + b)[1..] == a[1..] + b;
      RenderConcat(a[1..], b);
    }
  }

  lemma RenderOne(t: Tok)
    ensures Render([t]) == TokText(t) + " "
  {
    assert Render([t]) == TokText(t) + " " + Render([]);
  }

  lemma {:induction false} LineIsRendered(args: seq<string>)
    ensures Line(args) == Render(Words(args))
  {
    if args == [] {
    } else {
      LineIsRendered(args[1..]);
      assert Words(args)[1..] == Words(args[1..]);
    }
  }

  lemma {:induction false} OpsAreRendered(ops: seq<RedirOp>)
    requires PlainOps(ops)
    ensures OpsText(ops) == Render(OpsToks(ops)) && ToksOk(OpsToks(ops))
  {
    if ops == [] {
    } else {
      hide OpText, OpToks, Render, TokOk;
      OpsAreRendered(ops[1..]);
      OpIsRendered(ops[0]);
      RenderConcat(OpToks(ops[0]), OpsToks(ops[1..]));
    }
  }

  lemma OpIsRendered(op: RedirOp)
    requires PlainWord(op.file)
    ensures OpText(op) == Render(OpToks(op)) && ToksOk(OpToks(op))
  {
    var c := if op.In? then '<' else if op.Out? then '>' else '+';
    PlainIsWord(op.file);
    CharsAre(c);
    RenderOne(Sym(c));
    RenderOne(Word(op.file));
    assert Render([Sym(c)]) == OpSign(op);
    RenderConcat([Sym(c)], [Word(op.file)]);
    hide Render, IsWord, OpSign;
    assert OpToks(op) == [Sym(c)] + [Word(op.file)];
    assert OpSign(op) + op.file + " " == OpSign(op) + (op.file + " ");
  }

  lemma {:induction false} OpsAreRead(ops: seq<RedirOp>, rest: seq<Tok>)
    requires !Opens(rest, "<>")
    ensures RedirsOf(OpsToks(ops) + rest) == Ok(OpRedirs(ops), rest)
    decreases |ops|
  {
    if ops == [] {
      assert [] + rest == rest;
    } else {
      OpsAreRead(ops[1..], rest);
      var ts, more := OpsToks(ops) + rest, OpsToks(ops[1..]) + rest;
      assert ts == OpToks(ops[0]) + more;
      assert ts[2..] == more && ts[1] == Word(ops[0].file) && Opens(ts, "<>");
    }
  }

  lemma {:induction false} OpsAreWrapped(c: Cmd<string>, ops: seq<RedirOp>)
    ensures Wrap(c, OpRedirs(ops)) == OpsTree(c, ops)
    decreases |ops|
  {
    if ops == [] {
    } else {
      var rs := OpRedirs(ops);
      assert rs[1..] == OpRedirs(ops[1..]);
      OpsAreWrapped(OpTree(c, ops[0]), ops[1..]);
    }
  }

  lemma LineFromExec(ts: seq<Tok>, t: Cmd<string>)
    requires ExecOf(ts) == Ok(t, [])
    ensures LineOf(ts) == Ok(t, [])
  {
    hide ExecOf;
  }

  // Words with redirections before and after them.
  lemma RedirLine(before: seq<RedirOp>, args: seq<string>, after: seq<RedirOp>)
    requires PlainOps(before) && PlainArgs(args) && PlainOps(after) && args != []
    ensures Parse(OpsText(before) + Line(args) + OpsText(after)) == Some(OpsTree(Exec(args), before + after))
  {
    hide Lex, RedirsOf, ArgsOf, ExecOf, Render, OpsTree, OpsText, Line;
    var b, w, a := OpsToks(before), Words(args), OpsToks(after);
    var ts := b + (w + a);
    OpsAreRendered(before);
    OpsAreRendered(after);
    LineIsRendered(args);
    ArgsAreProper(args);
    WordsOk(args);
    RenderConcat(b, w + a);
    RenderConcat(w, a);
    assert OpsText(before) + Line(args) + OpsText(after) == Render(ts);
    LexRender(ts);
    assert w[0] == Word(args[0]);
    OpsAreRead(before, w + a);
    assert a + [] == a && w + a + [] == w + a;
    OpsAreRead(after, []);
    ArgsBack(args, 0, a, OpRedirs(after), []);
    NotABlock(before, w + a);
    SimpleIs(ts, OpRedirs(before), w + a, Args(args, OpRedirs(after)), []);
    OpRedirsConcat(before, after);
    OpsAreWrapped(Exec(args), before + after);
    LineFromExec(ts, OpsTree(Exec(args), before + after));
  }

  lemma NotABlock(ops: seq<RedirOp>, rest: seq<Tok>)
    requires rest != [] && rest[0].Word?
    ensures !Opens(OpsToks(ops) + rest, "(")
  {
  }

  lemma {:induction false} OpRedirsConcat(a: seq<RedirOp>, b: seq<RedirOp>)
    ensures OpRedirs(a + b) == OpRedirs(a) + OpRedirs(b)
    decreases |a|
  {
    if a == [] {
      assert a + b == b;
    } else {
      assert (a + b)[1..] == a[1..] + b;
      OpRedirsConcat(a[1..], b);
    }
  }

  lemma OneRedirection(args: seq<string>, op: RedirOp)
    requires PlainArgs(args) && args != [] && PlainWord(op.file)
    ensures Parse(Line(args) + OpSign(op) + op.file + " ") == Some(OpTree(Exec(args), op))
  {
    hide Parse, Line, OpSign, OpsText, OpsTree, OpTree, PlainWord, PlainArgs;
    RedirLine([], args, [op]);
    OneOp(Exec(args), op);
    assert [] + [op] == [op];
    assert "" + Line(args) + (OpSign(op) + op.file + " ") == Line(args) + OpSign(op) + op.file + " ";
  }

  lemma OneOp(c: Cmd<string>, op: RedirOp)
    ensures OpsText([]) == "" && OpsText([op]) == OpSign(op) + op.file + " " && OpsTree(c, [op]) == OpTree(c, op)
  {
    assert [op][1..] == [];
    assert OpsText([op]) == OpText(op) + OpsText([]);
    assert OpsTree(c, [op]) == OpsTree(OpTree(c, op), []);
  }

  // >> is read as > is.
  lemma RedirectionsMean(args: seq<string>, file: string)
    requires PlainArgs(args) && args != [] && PlainWord(file)
    ensures Parse(Line(args) + "< " + file + " ") == Some(Redir(Exec(args), file, 0x000, 0))
    ensures Parse(Line(args) + "> " + file + " ") == Some(Redir(Exec(args), file, 0x201, 1))
    ensures Parse(Line(args) + ">> " + file + " ") == Some(Redir(Exec(args), file, 0x201, 1))
  {
    hide Parse, Line, PlainWord, PlainArgs;
    OneRedirection(args, In(file));
    OneRedirection(args, Out(file));
    OneRedirection(args, Append(file));
  }

  // -- Pipes, lists, background and blocks

  // A line that renders the tokens of a tree stands for that tree.
  lemma TreeOf(t: Cmd<string>, ts: seq<Tok>, s: string)
    requires Proper(t) && LineToks(t) == ts && s == Render(ts)
    ensures Parse(s) == Some(t)
  {
    ParseUndoesPrint(t);
  }

  // The tokens of a tree, one level down.
  lemma ToksOf(t: Cmd<string>)
    ensures LineToks(t) == if t.Seq? then BackToks(t.left) + [Sym(';')] + LineToks(t.right) else BackToks(t)
    ensures BackToks(t) == if t.Back? then BackToks(t.cmd) + [Sym('&')] else PipeToks(t)
    ensures PipeToks(t) == if t.Pipe? then ExecToks(t.left) + [Sym('|')] + PipeToks(t.right) else ExecToks(t)
    ensures t.Exec? ==> ExecToks(t) == Words(t.args)
  {
  }

  lemma Regroup3<T>(a: seq<T>, b: seq<T>, c: seq<T>, d: seq<T>, e: seq<T>)
    ensures a + b + c + d + e == a + b + (c + d + e)
    ensures a + b + c + d == a + b + (c + d)
  {
  }

  lemma OneOperator(a: seq<string>, c: char, b: seq<string>)
    requires c != '+'
    ensures Render(Words(a) + [Sym(c)] + Words(b)) == Line(a) + [c, ' '] + Line(b)
  {
    hide Render, Line;
    LineIsRendered(a);
    LineIsRendered(b);
    RenderConcat(Words(a) + [Sym(c)], Words(b));
    RenderConcat(Words(a), [Sym(c)]);
    RenderOne(Sym(c));
    assert TokText(Sym(c)) + " " == [c, ' '];
  }

  lemma TwoOperators(a: seq<string>, c: char, b: seq<string>, d: char, e: seq<string>)
    requires c != '+' && d != '+'
    ensures Render(Words(a) + [Sym(c)] + (Words(b) + [Sym(d)] + Words(e)))
            == Line(a) + [c, ' '] + (Line(b) + [d, ' '] + Line(e))
  {
    hide Render, Line;
    OneOperator(b, d, e);
    LineIsRendered(a);
    RenderConcat(Words(a) + [Sym(c)], Words(b) + [Sym(d)] + Words(e));
    RenderConcat(Words(a), [Sym(c)]);
    RenderOne(Sym(c));
    assert TokText(Sym(c)) + " " == [c, ' '];
  }

  // Which trees lines of two commands stand for.
  lemma OperatorsMean(a: seq<string>, b: seq<string>)
    requires PlainArgs(a) && PlainArgs(b)
    ensures Parse(Line(a) + "| " + Line(b)) == Some(Pipe(Exec(a), Exec(b)))
    ensures Parse(Line(a) + "; " + Line(b)) == Some(Seq(Exec(a), Exec(b)))
    ensures Parse(Line(a) + "& ") == Some(Back(Exec(a)))
    ensures Parse("( " + Line(a) + ") ") == Some(Exec(a))
  {
    hide Parse, Line, Proper;
    ArgsAreProper(a);
    ArgsAreProper(b);
    PipeLine(a, b);
    ListLine(a, b);
    BackLine(a);
    BlockLine(a);
  }

  lemma PipeLine(a: seq<string>, b: seq<string>)
    requires Proper(Exec(a)) && Proper(Exec(b))
    ensures Parse(Line(a) + "| " + Line(b)) == Some(Pipe(Exec(a), Exec(b)))
  {
    hide Parse, Render, Line, Words;
    OneOperator(a, '|', b);
    hide LineToks, BackToks, PipeToks, ExecToks;
    ToksOf(Pipe(Exec(a), Exec(b)));
    ToksOf(Exec(b));
    ToksOf(Exec(a));
    TreeOf(Pipe(Exec(a), Exec(b)), Words(a) + [Sym('|')] + Words(b), Line(a) + "| " + Line(b));
  }

  lemma ListLine(a: seq<string>, b: seq<string>)
    requires Proper(Exec(a)) && Proper(Exec(b))
    ensures Parse(Line(a) + "; " + Line(b)) == Some(Seq(Exec(a), Exec(b)))
  {
    hide Parse, Render, Line, Words;
    OneOperator(a, ';', b);
    hide LineToks, BackToks, PipeToks, ExecToks;
    ToksOf(Seq(Exec(a), Exec(b)));
    ToksOf(Exec(b));
    ToksOf(Exec(a));
    TreeOf(Seq(Exec(a), Exec(b)), Words(a) + [Sym(';')] + Words(b), Line(a) + "; " + Line(b));
  }

  lemma BackLine(a: seq<string>)
    requires Proper(Exec(a))
    ensures Parse(Line(a) + "& ") == Some(Back(Exec(a)))
  {
    hide Parse, Render;
    OneOperator(a, '&', []);
    assert Words(a) + [Sym('&')] + Words([]) == Words(a) + [Sym('&')];
    assert Line(a) + ['&', ' '] + Line([]) == Line(a) + "& ";
    hide Line, Words;
    hide LineToks, BackToks, PipeToks, ExecToks;
    ToksOf(Back(Exec(a)));
    ToksOf(Exec(a));
    TreeOf(Back(Exec(a)), Words(a) + [Sym('&')], Line(a) + "& ");
  }

  lemma BlockLine(a: seq<string>)
    requires Proper(Exec(a))
    ensures Parse("( " + Line(a) + ") ") == Some(Exec(a))
  {
    hide Parse, Render, Lex, LineOf, ExecOf, RedirsOf, Line;
    var ts := [Sym('(')] + (Words(a) + [Sym(')')]);
    LineIsRendered(a);
    RenderConcat([Sym('(')], Words(a) + [Sym(')')]);
    RenderConcat(Words(a), [Sym(')')]);
    RenderOne(Sym('('));
    RenderOne(Sym(')'));
    assert "( " + Line(a) + ") " == Render(ts);
    WordsOk(a);
    CharsAre('(');
    CharsAre(')');
    LexRender(ts);
    LineBack(Exec(a), [Sym(')')]);
    ToksOf(Exec(a));
    assert LineToks(Exec(a)) == Words(a);
    assert ts[1..] == Words(a) + [Sym(')')];
    NothingToRedirect();
    assert [Sym(')')] + [] == [Sym(')')];
    BlockIs(ts, Exec(a), [], [], []);
    assert Wrap(Exec(a), []) == Exec(a);
    LineFromExec(ts, Exec(a));
    ParseIs("( " + Line(a) + ") ", ts, Exec(a));
  }

  lemma NothingToRedirect()
    ensures RedirsOf([]) == Ok([], [])
  {
  }

  lemma ParseIs(s: string, ts: seq<Tok>, t: Cmd<string>)
    requires Lex(s) == ts && LineOf(ts) == Ok(t, [])
    ensures Parse(s) == Some(t)
  {
  }

  // Pipes and lists group to the right; | binds tighter than & and ;, and & tighter than ;.
  lemma PrecedenceMeans(a: seq<string>, b: seq<string>, c: seq<string>)
    requires PlainArgs(a) && PlainArgs(b) && PlainArgs(c)
    ensures Parse(Line(a) + "| " + (Line(b) + "| " + Line(c))) == Some(Pipe(Exec(a), Pipe(Exec(b), Exec(c))))
    ensures Parse(Line(a) + "; " + (Line(b) + "; " + Line(c))) == Some(Seq(Exec(a), Seq(Exec(b), Exec(c))))
    ensures Parse(Line(a) + "; " + (Line(b) + "| " + Line(c))) == Some(Seq(Exec(a), Pipe(Exec(b), Exec(c))))
    ensures Parse(Line(a) + "| " + (Line(b) + "; " + Line(c))) == Some(Seq(Pipe(Exec(a), Exec(b)), Exec(c)))
    ensures Parse(Line(a) + "| " + (Line(b) + "& ")) == Some(Back(Pipe(Exec(a), Exec(b))))
    ensures Parse(Line(a) + "& " + ("; " + Line(b))) == Some(Seq(Back(Exec(a)), Exec(b)))
  {
    hide Parse, Line, Proper;
    ArgsAreProper(a);
    ArgsAreProper(b);
    ArgsAreProper(c);
    PipesGroup(a, b, c);
    ListsGroup(a, b, c);
    PipeInList(a, b, c);
    ListOfPipe(a, b, c);
    BackOfPipe(a, b);
    BackInList(a, b);
  }

  lemma PipesGroup(a: seq<string>, b: seq<string>, c: seq<string>)
    requires Proper(Exec(a)) && Proper(Exec(b)) && Proper(Exec(c))
    ensures Parse(Line(a) + "| " + (Line(b) + "| " + Line(c))) == Some(Pipe(Exec(a), Pipe(Exec(b), Exec(c))))
  {
    hide Parse, Render, Line, Words;
    TwoOperators(a, '|', b, '|', c);
    hide LineToks, BackToks, PipeToks, ExecToks;
    ToksOf(Pipe(Exec(a), Pipe(Exec(b), Exec(c))));
    ToksOf(Pipe(Exec(b), Exec(c)));
    ToksOf(Exec(c));
    ToksOf(Exec(b));
    ToksOf(Exec(a));
    TreeOf(Pipe(Exec(a), Pipe(Exec(b), Exec(c))), Words(a) + [Sym('|')] + (Words(b) + [Sym('|')] + Words(c)),
           Line(a) + "| " + (Line(b) + "| " + Line(c)));
  }

  lemma ListsGroup(a: seq<string>, b: seq<string>, c: seq<string>)
    requires Proper(Exec(a)) && Proper(Exec(b)) && Proper(Exec(c))
    ensures Parse(Line(a) + "; " + (Line(b) + "; " + Line(c))) == Some(Seq(Exec(a), Seq(Exec(b), Exec(c))))
  {
    hide Parse, Render, Line, Words;
    TwoOperators(a, ';', b, ';', c);
    hide LineToks, BackToks, PipeToks, ExecToks;
    ToksOf(Seq(Exec(a), Seq(Exec(b), Exec(c))));
    ToksOf(Seq(Exec(b), Exec(c)));
    ToksOf(Exec(c));
    ToksOf(Exec(b));
    ToksOf(Exec(a));
    TreeOf(Seq(Exec(a), Seq(Exec(b), Exec(c))), Words(a) + [Sym(';')] + (Words(b) + [Sym(';')] + Words(c)),
           Line(a) + "; " + (Line(b) + "; " + Line(c)));
  }

  lemma PipeInList(a: seq<string>, b: seq<string>, c: seq<string>)
    requires Proper(Exec(a)) && Proper(Exec(b)) && Proper(Exec(c))
    ensures Parse(Line(a) + "; " + (Line(b) + "| " + Line(c))) == Some(Seq(Exec(a), Pipe(Exec(b), Exec(c))))
  {
    hide Parse, Render, Line, Words;
    TwoOperators(a, ';', b, '|', c);
    hide LineToks, BackToks, PipeToks, ExecToks;
    ToksOf(Seq(Exec(a), Pipe(Exec(b), Exec(c))));
    ToksOf(Pipe(Exec(b), Exec(c)));
    ToksOf(Exec(c));
    ToksOf(Exec(b));
    ToksOf(Exec(a));
    TreeOf(Seq(Exec(a), Pipe(Exec(b), Exec(c))), Words(a) + [Sym(';')] + (Words(b) + [Sym('|')] + Words(c)),
           Line(a) + "; " + (Line(b) + "| " + Line(c)));
  }

  lemma ListOfPipe(a: seq<string>, b: seq<string>, c: seq<string>)
    requires Proper(Exec(a)) && Proper(Exec(b)) && Proper(Exec(c))
    ensures Parse(Line(a) + "| " + (Line(b) + "; " + Line(c))) == Some(Seq(Pipe(Exec(a), Exec(b)), Exec(c)))
  {
    hide Parse, Render, Line, Words;
    TwoOperators(a, '|', b, ';', c);
    Regroup3(Words(a), [Sym('|')], Words(b), [Sym(';')], Words(c));
    hide LineToks, BackToks, PipeToks, ExecToks;
    ToksOf(Seq(Pipe(Exec(a), Exec(b)), Exec(c)));
    ToksOf(Exec(c));
    ToksOf(Pipe(Exec(a), Exec(b)));
    ToksOf(Exec(b));
    ToksOf(Exec(a));
    TreeOf(Seq(Pipe(Exec(a), Exec(b)), Exec(c)), Words(a) + [Sym('|')] + (Words(b) + [Sym(';')] + Words(c)),
           Line(a) + "| " + (Line(b) + "; " + Line(c)));
  }

  lemma BackOfPipe(a: seq<string>, b: seq<string>)
    requires Proper(Exec(a)) && Proper(Exec(b))
    ensures Parse(Line(a) + "| " + (Line(b) + "& ")) == Some(Back(Pipe(Exec(a), Exec(b))))
  {
    hide Parse, Render;
    TwoOperators(a, '|', b, '&', []);
    Regroup3(Words(a), [Sym('|')], Words(b), [Sym('&')], []);
    assert Words(b) + [Sym('&')] + Words([]) == Words(b) + [Sym('&')];
    assert Line(b) + ['&', ' '] + Line([]) == Line(b) + "& ";
    hide Line, Words;
    hide LineToks, BackToks, PipeToks, ExecToks;
    ToksOf(Back(Pipe(Exec(a), Exec(b))));
    ToksOf(Pipe(Exec(a), Exec(b)));
    ToksOf(Exec(b));
    ToksOf(Exec(a));
    TreeOf(Back(Pipe(Exec(a), Exec(b))), Words(a) + [Sym('|')] + (Words(b) + [Sym('&')]),
           Line(a) + "| " + (Line(b) + "& "));
  }

  lemma BackInList(a: seq<string>, b: seq<string>)
    requires Proper(Exec(a)) && Proper(Exec(b))
    ensures Parse(Line(a) + "& " + ("; " + Line(b))) == Some(Seq(Back(Exec(a)), Exec(b)))
  {
    hide Parse, Render;
    TwoOperators(a, '&', [], ';', b);
    Regroup3(Words(a), [Sym('&')], [Sym(';')], Words(b), []);
    assert Words([]) + [Sym(';')] + Words(b) == [Sym(';')] + Words(b);
    assert Line([]) + [';', ' '] + Line(b) == "; " + Line(b);
    hide Line, Words;
    hide LineToks, BackToks, PipeToks, ExecToks;
    ToksOf(Seq(Back(Exec(a)), Exec(b)));
    ToksOf(Exec(b));
    ToksOf(Back(Exec(a)));
    ToksOf(Exec(a));
    TreeOf(Seq(Back(Exec(a)), Exec(b)), Words(a) + [Sym('&')] + ([Sym(';')] + Words(b)),
           Line(a) + "& " + ("; " + Line(b)));
  }

  // -- Errors

  lemma NoParse(s: string, ts: seq<Tok>)
    requires Lex(s) == ts && (LineOf(ts).Panic? || LineOf(ts).rest != [])
    ensures Parse(s).None?
  {
  }

  lemma ExecPanics(ts: seq<Tok>)
    requires ExecOf(ts).Panic?
    ensures LineOf(ts).Panic?
  {
    hide ExecOf;
  }

  // After a word comes an operator without a file, or a block.
  lemma {:induction false} ArgsPanic(args: seq<string>, argc: nat, c: char, rest: seq<Tok>)
    requires args != [] && (c == '(' || ((c == '<' || c == '>' || c == '+') && rest == []))
    ensures ArgsOf(Words(args) + [Sym(c)] + rest, argc).Panic?
    decreases |args|
  {
    var redirs := [Sym(c)] + rest;
    ArgTail(args, redirs, []);
    var ts, tail := Words(args) + [Sym(c)] + rest, Words(args[1..]) + [Sym(c)] + rest;
    assert ts == Words(args) + redirs + [] && tail == Words(args[1..]) + redirs + [];
    if |args| == 1 {
      assert tail == redirs && tail[0] == Sym(c);
    } else {
      ArgsPanic(args[1..], argc + 1, c, rest);
      AtWord(tail);
    }
  }

  lemma WordsPanic(args: seq<string>, c: char, rest: seq<Tok>)
    requires args != [] && (c == '(' || ((c == '<' || c == '>' || c == '+') && rest == []))
    ensures LineOf(Words(args) + [Sym(c)] + rest).Panic?
  {
    var ts := Words(args) + [Sym(c)] + rest;
    ArgsPanic(args, 0, c, rest);
    assert ts[0] == Word(args[0]);
    AtWord(ts);
    ExecPanics(ts);
  }

  lemma PlainLex(args: seq<string>, c: char)
    requires PlainArgs(args) && PlainTok(Sym(c))
    ensures Lex(Line(args) + TokText(Sym(c)) + " ") == Words(args) + [Sym(c)]
    ensures Lex(Line(args)) == Words(args)
    ensures c != '+' ==> Lex([c] + " " + Line(args)) == [Sym(c)] + Words(args)
  {
    hide Lex, Render, Line;
    ArgsAreProper(args);
    WordsOk(args);
    CharsAre(c);
    LineIsRendered(args);
    RenderOne(Sym(c));
    RenderConcat(Words(args), [Sym(c)]);
    RenderConcat([Sym(c)], Words(args));
    LexRender(Words(args) + [Sym(c)]);
    LexRender(Words(args));
    LexRender([Sym(c)] + Words(args));
    assert Line(args) + TokText(Sym(c)) + " " == Line(args) + (TokText(Sym(c)) + " ");
  }

  // A redirection needs a file, a block its closing parenthesis, and a command at most nine
  // words and nothing left over.
  lemma ErrorsMean(args: seq<string>)
    requires PlainArgs(args) && args != []
    ensures Parse(Line(args) + "< ").None? && Parse(Line(args) + "> ").None? && Parse(Line(args) + ">> ").None?
    ensures Parse("( " + Line(args)).None? && Parse(Line(args) + ") ").None? && Parse(Line(args) + "( ").None?
  {
    NoFile(args, '<');
    NoFile(args, '>');
    NoFile(args, '+');
    hide Parse, Line;
    assert Line(args) + "<" + " " == Line(args) + "< ";
    assert Line(args) + ">" + " " == Line(args) + "> ";
    assert Line(args) + ">>" + " " == Line(args) + ">> ";
    Unclosed(args);
    Leftover(args);
    NoFile(args, '(');
    assert Line(args) + "(" + " " == Line(args) + "( ";
  }

  lemma NoFile(args: seq<string>, c: char)
    requires PlainArgs(args) && args != [] && (c == '<' || c == '>' || c == '+' || c == '(')
    ensures Parse(Line(args) + (if c == '+' then ">>" else [c]) + " ").None?
  {
    hide Parse, Line, LineOf, Lex;
    PlainLex(args, c);
    WordsPanic(args, c, []);
    assert Words(args) + [Sym(c)] + [] == Words(args) + [Sym(c)];
    NoParse(Line(args) + TokText(Sym(c)) + " ", Words(args) + [Sym(c)]);
  }

  lemma Unclosed(args: seq<string>)
    requires PlainArgs(args)
    ensures Parse("( " + Line(args)).None?
  {
    hide Parse, Line, LineOf, Lex;
    PlainLex(args, '(');
    ArgsAreProper(args);
    LineBack(Exec(args), []);
    ToksOf(Exec(args));
    assert Words(args) + [] == Words(args);
    var ts := [Sym('(')] + Words(args);
    assert ts[1..] == Words(args);
    BlockPanics(ts, Exec(args));
    assert ['('] + " " + Line(args) == "( " + Line(args);
    NoParse("( " + Line(args), ts);
  }

  lemma BlockPanics(ts: seq<Tok>, c: Cmd<string>)
    requires ts != [] && ts[0] == Sym('(') && LineOf(ts[1..]) == Ok(c, [])
    ensures LineOf(ts).Panic?
  {
    assert ExecOf(ts).Panic?;
    ExecPanics(ts);
  }

  lemma Leftover(args: seq<string>)
    requires PlainArgs(args)
    ensures Parse(Line(args) + ") ").None?
  {
    hide Parse, Line, LineOf, Lex;
    PlainLex(args, ')');
    ArgsAreProper(args);
    LineBack(Exec(args), [Sym(')')]);
    ToksOf(Exec(args));
    assert Line(args) + [')'] + " " == Line(args) + ") ";
    NoParse(Line(args) + ") ", Words(args) + [Sym(')')]);
  }

  lemma WordsMean(args: seq<string>)
    requires forall i | 0 <= i < |args| :: PlainWord(args[i])
    ensures Parse(Line(args)) == if |args| < 10 then Some(Exec(args)) else None
  {
    hide Parse, Line;
    forall i | 0 <= i < |args|
      ensures IsWord(args[i])
    {
      PlainIsWord(args[i]);
    }
    PlainCommand(args);
    LineIsRendered(args);
    ToksOf(Exec(args));
  }
}
