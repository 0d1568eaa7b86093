// The command language of sh.c: its tokens, its grammar, and a canonical text for every
// command tree that parses back to the tree.
module ShellSpec {
  import opened Common

  const MAXARGS: nat := 10
  const O_RDONLY: nat := 0x000
  const O_WRONLY: nat := 0x001
  const O_CREATE: nat := 0x200

  // Command trees. W is what a word is: a string, or a pair of pointers into the text.
  datatype Cmd<W> =
    | Exec(args: seq<W>)
    | Redir(cmd: Cmd<W>, file: W, mode: nat, fd: nat)
    | Pipe(left: Cmd<W>, right: Cmd<W>)
    | Seq(left: Cmd<W>, right: Cmd<W>)
    | Back(cmd: Cmd<W>)

  datatype Redirection<W> = Redirection(file: W, mode: nat, fd: nat)

  // The redirections around a command, the first innermost.
  function Wrap<W>(c: Cmd<W>, rs: seq<Redirection<W>>): Cmd<W>
    decreases |rs|
  {
    if rs == [] then c else Wrap(Redir(c, rs[0].file, rs[0].mode, rs[0].fd), rs[1..])
  }

  // ---- Tokens ----

  // Sym('+') is >>
  datatype Tok = Sym(c: char) | Word(w: string)

  predicate Space(c: char) { c in " \t\r\n\U{0B}" }

  predicate Symbol(c: char) { c in "<|>&;()" }

  predicate WordChar(c: char) { !Space(c) && !Symbol(c) }

  function Skip(s: string): string {
    if s != "" && Space(s[0]) then Skip(s[1..]) else s
  }

  function WordLength(s: string): (n: nat)
    ensures n <= |s|
  {
    if s != "" && WordChar(s[0]) then 1 + WordLength(s[1..]) else 0
  }

  // The length of the token that a string without leading spaces starts with.
  function TokLength(s: string): (n: nat)
    requires s != "" && !Space(s[0])
    ensures 0 < n <= |s|
  {
    if !Symbol(s[0]) then WordLength(s)
    else if s[0] == '>' && |s| > 1 && s[1] == '>' then 2
    else 1
  }

  function FirstTok(s: string): Tok
    requires s != "" && !Space(s[0])
  {
    if !Symbol(s[0]) then Word(s[..WordLength(s)]) else if TokLength(s) == 2 then Sym('+') else Sym(s[0])
  }

  function Lex(s: string): (ts: seq<Tok>)
    decreases |s|
  {
    SkipShortens(s);
    var t := Skip(s);
    if t == "" then [] else [FirstTok(t)] + Lex(t[TokLength(t)..])
  }

  lemma SkipShortens(s: string)
    ensures |Skip(s)| <= |s| && (Skip(s) != "" ==> !Space(Skip(s)[0]))
  {
  }

  // ---- The grammar, on tokens ----

  datatype Result<T> = Panic | Ok(value: T, rest: seq<Tok>)

  predicate Opens(ts: seq<Tok>, toks: string) {
    ts != [] && ts[0].Sym? && (if ts[0].c == '+' then '>' else ts[0].c) in toks
  }

  function RedirectionOf(c: char, file: string): Redirection<string> {
    if c == '<' then Redirection(file, O_RDONLY, 0) else Redirection(file, O_WRONLY + O_CREATE, 1)
  }

  function RedirsOf(ts: seq<Tok>): (r: Result<seq<Redirection<string>>>)
    ensures r.Ok? ==> |r.rest| <= |ts|
    decreases |ts|
  {
    if !Opens(ts, "<>") then Ok([], ts)
    else if |ts| < 2 || ts[1].Sym? then Panic
    else
      var r := RedirsOf(ts[2..]);
      if r.Panic? then Panic else Ok([RedirectionOf(ts[0].c, ts[1].w)] + r.value, r.rest)
  }

  datatype Args = Args(words: seq<string>, redirs: seq<Redirection<string>>)

  // Words and redirections after argc words.
  function ArgsOf(ts: seq<Tok>, argc: nat): (r: Result<Args>)
    ensures r.Ok? ==> |r.rest| <= |ts|
    decreases |ts|
  {
    if ts == [] || Opens(ts, "|)&;") then Ok(Args([], []), ts)
    else if ts[0].Sym? || argc + 1 >= MAXARGS then Panic
    else
      var r := RedirsOf(ts[1..]);
      if r.Panic? then Panic else
      var more := ArgsOf(r.rest, argc + 1);
      if more.Panic? then Panic
      else Ok(Args([ts[0].w] + more.value.words, r.value + more.value.redirs), more.rest)
  }

  function ExecOf(ts: seq<Tok>): (r: Result<Cmd<string>>)
    ensures r.Ok? ==> |r.rest| <= |ts|
    decreases |ts|, 1
  {
    if Opens(ts, "(") then BlockOf(ts) else
    var first := RedirsOf(ts);
    if first.Panic? then Panic else
    var args := ArgsOf(first.rest, 0);
    if args.Panic? then Panic
    else Ok(Wrap(Exec(args.value.words), first.value + args.value.redirs), args.rest)
  }

  function BlockOf(ts: seq<Tok>): (r: Result<Cmd<string>>)
    ensures r.Ok? ==> |r.rest| <= |ts|
    decreases |ts|, 0
  {
    if !Opens(ts, "(") then Panic else
    var inner := LineOf(ts[1..]);
    if inner.Panic? || !Opens(inner.rest, ")") then Panic else
    var r := RedirsOf(inner.rest[1..]);
    if r.Panic? then Panic else Ok(Wrap(inner.value, r.value), r.rest)
  }

  function PipeOf(ts: seq<Tok>): (r: Result<Cmd<string>>)
    ensures r.Ok? ==> |r.rest| <= |ts|
    decreases |ts|, 2
  {
    var left := ExecOf(ts);
    if left.Panic? || !Opens(left.rest, "|") then left else
    var right := PipeOf(left.rest[1..]);
    if right.Panic? then Panic else Ok(Pipe(left.value, right.value), right.rest)
  }

  // The number of leading &.
  function Amps(ts: seq<Tok>): (n: nat)
    ensures n <= |ts|
    decreases |ts|
  {
    if Opens(ts, "&") then 1 + Amps(ts[1..]) else 0
  }

  function Backs<W>(c: Cmd<W>, n: nat): Cmd<W> {
    if n == 0 then c else Back(Backs(c, n - 1))
  }

  function LineOf(ts: seq<Tok>): (r: Result<Cmd<string>>)
    ensures r.Ok? ==> |r.rest| <= |ts|
    decreases |ts|, 3
  {
    var left := PipeOf(ts);
    if left.Panic? then Panic else
    var n := Amps(left.rest);
    var c, rest := Backs(left.value, n), left.rest[n..];
    if !Opens(rest, ";") then Ok(c, rest) else
    var right := LineOf(rest[1..]);
    if right.Panic? then Panic else Ok(Seq(c, right.value), right.rest)
  }

  // What parsecmd() makes of a text; None is a panic.
  function Parse(s: string): Option<Cmd<string>> {
    var r := LineOf(Lex(s));
    if r.Panic? || r.rest != [] then None else Some(r.value)
  }

  // ---- Canonical text ----

  // Nonempty, and free of spaces, symbols and NUL.
  predicate IsWord(w: string) {
    w != "" && forall i | 0 <= i < |w| :: WordChar(w[i]) && w[i] != '\0'
  }

  // The trees that a shell line can stand for.
  predicate Proper(t: Cmd<string>) {
    match t
    case Exec(args) => |args| < MAXARGS && forall i | 0 <= i < |args| :: IsWord(args[i])
    case Redir(c, file, mode, fd) =>
      Proper(c) && IsWord(file) && ((mode == O_RDONLY && fd == 0) || (mode == O_WRONLY + O_CREATE && fd == 1))
    case Pipe(l, r) => Proper(l) && Proper(r)
    case Seq(l, r) => Proper(l) && Proper(r)
    case Back(c) => Proper(c)
  }

  function Words(args: seq<string>): seq<Tok> {
    if args == [] then [] else [Word(args[0])] + Words(args[1..])
  }

  function RedirToks(file: string, fd: nat): seq<Tok> {
    [Sym(if fd == 0 then '<' else '>'), Word(file)]
  }

  // As a simple command or a block with redirections.
  function ExecToks(t: Cmd<string>): seq<Tok>
    decreases t, 0
  {
    match t
    case Exec(args) => Words(args)
    case Redir(c, file, _, fd) => ExecToks(c) + RedirToks(file, fd)
    case Pipe(l, r) => [Sym('(')] + (ExecToks(l) + [Sym('|')] + PipeToks(r)) + [Sym(')')]
    case Seq(l, r) => [Sym('(')] + (BackToks(l) + [Sym(';')] + LineToks(r)) + [Sym(')')]
    case Back(c) => [Sym('(')] + (BackToks(c) + [Sym('&')]) + [Sym(')')]
  }

  function PipeToks(t: Cmd<string>): seq<Tok>
    decreases t, 1
  {
    if t.Pipe? then ExecToks(t.left) + [Sym('|')] + PipeToks(t.right) else ExecToks(t)
  }

  function BackToks(t: Cmd<string>): seq<Tok>
    decreases t, 2
  {
    if t.Back? then BackToks(t.cmd) + [Sym('&')] else PipeToks(t)
  }

  function LineToks(t: Cmd<string>): seq<Tok>
    decreases t, 3
  {
    if t.Seq? then BackToks(t.left) + [Sym(';')] + LineToks(t.right) else BackToks(t)
  }

  function TokText(t: Tok): string {
    match t
    case Sym(c) => if c == '+' then ">>" else [c]
    case Word(w) => w
  }

  // Every token followed by a blank.
  function Render(ts: seq<Tok>): string {
    if ts == [] then "" else TokText(ts[0]) + " " + Render(ts[1..])
  }

  function Print(t: Cmd<string>): string {
    Render(LineToks(t))
  }

  // ---- Parsing undoes printing ----

  lemma ParseUndoesPrint(t: Cmd<string>)
    requires Proper(t)
    ensures Parse(Print(t)) == Some(t)
  {
    LineTokOk(t);
    LexRender(LineToks(t));
    LineBack(t, []);
    assert LineToks(t) + [] == LineToks(t);
  }

  // -- Lexing

  predicate TokOk(t: Tok) {
    match t
    case Sym(c) => Symbol(c) || c == '+'
    case Word(w) => IsWord(w)
  }

  predicate ToksOk(ts: seq<Tok>) { forall i | 0 <= i < |ts| :: TokOk(ts[i]) }

  lemma {:induction false} WordLengthIs(w: string, s: string)
    requires (forall i | 0 <= i < |w| :: WordChar(w[i])) && (s != "" ==> !WordChar(s[0]))
    ensures WordLength(w + s) == |w|
    decreases |w|
  {
    if w == "" {
      assert w + s == s;
    } else {
      assert (w + s)[1..] == w[1..] + s;
      WordLengthIs(w[1..], s);
    }
  }

  lemma FirstTokIs(t: Tok, s: string)
    requires TokOk(t)
    ensures
      var u := TokText(t) + " " + s;
      u != "" && !Space(u[0]) && FirstTok(u) == t && u[TokLength(u)..] == " " + s
  {
    var u := TokText(t) + " " + s;
    assert u == TokText(t) + (" " + s);
    if t.Word? {
      assert u[0] == t.w[0];
      WordLengthIs(t.w, " " + s);
    } else if t.c == '+' {
      assert u[0] == '>' && u[1] == '>';
    } else {
      assert u[0] == t.c && u[1] == ' ';
    }
  }

  lemma {:induction false} LexRender(ts: seq<Tok>)
    requires ToksOk(ts)
    ensures Lex(Render(ts)) == ts
    decreases |ts|
  {
    if ts == [] {
    } else {
      var u, s := Render(ts), Render(ts[1..]);
      FirstTokIs(ts[0], s);
      assert Skip(u) == u;
      assert Lex(u) == [ts[0]] + Lex(" " + s);
      LexBlank(s);
      LexRender(ts[1..]);
    }
  }

  lemma LexBlank(s: string)
    ensures Lex(" " + s) == Lex(s)
  {
  }

  lemma {:induction false} ExecTokOk(t: Cmd<string>)
    requires Proper(t)
    ensures ToksOk(ExecToks(t))
    decreases t, 0
  {
    match t
    case Exec(args) => WordsOk(args);
    case Redir(c, _, _, _) => ExecTokOk(c);
    case Pipe(l, r) => ExecTokOk(l); PipeTokOk(r);
    case Seq(l, r) => BackTokOk(l); LineTokOk(r);
    case Back(c) => BackTokOk(c);
  }

  lemma {:induction false} WordsOk(args: seq<string>)
    requires forall i | 0 <= i < |args| :: IsWord(args[i])
    ensures ToksOk(Words(args))
    decreases |args|
  {
    if args == [] {
    } else {
      WordsOk(args[1..]);
    }
  }

  lemma {:induction false} PipeTokOk(t: Cmd<string>)
    requires Proper(t)
    ensures ToksOk(PipeToks(t))
    decreases t, 1
  {
    if t.Pipe? {
      ExecTokOk(t.left);
      PipeTokOk(t.right);
    } else {
      ExecTokOk(t);
    }
  }

  lemma {:induction false} BackTokOk(t: Cmd<string>)
    requires Proper(t)
    ensures ToksOk(BackToks(t))
    decreases t, 2
  {
    if t.Back? {
      BackTokOk(t.cmd);
    } else {
      PipeTokOk(t);
    }
  }

  lemma {:induction false} LineTokOk(t: Cmd<string>)
    requires Proper(t)
    ensures ToksOk(LineToks(t))
    decreases t, 3
  {
    if t.Seq? {
      BackTokOk(t.left);
      LineTokOk(t.right);
    } else {
      BackTokOk(t);
    }
  }

  // -- Redirections

  function AllRedirToks(rs: seq<Redirection<string>>): seq<Tok> {
    if rs == [] then [] else RedirToks(rs[0].file, rs[0].fd) + AllRedirToks(rs[1..])
  }

  predicate ProperRedir(r: Redirection<string>) {
    (r.mode == O_RDONLY && r.fd == 0) || (r.mode == O_WRONLY + O_CREATE && r.fd == 1)
  }

  predicate ProperRedirs(rs: seq<Redirection<string>>) { forall i | 0 <= i < |rs| :: ProperRedir(rs[i]) }

  lemma RedirsIs(r: Redirection<string>, more: seq<Tok>, rs: seq<Redirection<string>>, rest: seq<Tok>)
    requires ProperRedir(r) && RedirsOf(more) == Ok(rs, rest)
    ensures RedirsOf(RedirToks(r.file, r.fd) + more) == Ok([r] + rs, rest)
  {
  }

  lemma {:induction false} RedirsBack(rs: seq<Redirection<string>>, rest: seq<Tok>)
    requires ProperRedirs(rs) && !Opens(rest, "<>")
    ensures RedirsOf(AllRedirToks(rs) + rest) == Ok(rs, rest)
    decreases |rs|
  {
    if rs == [] {
      assert [] + rest == rest;
    } else {
      RedirsBack(rs[1..], rest);
      var more := AllRedirToks(rs[1..]) + rest;
      assert AllRedirToks(rs) + rest == RedirToks(rs[0].file, rs[0].fd) + more;
      hide RedirsOf, AllRedirToks;
      RedirsIs(rs[0], more, rs[1..], rest);
      assert rs == [rs[0]] + rs[1..];
    }
  }

  // A tree without its outer redirections, and those.
  function Base(t: Cmd<string>): Cmd<string> {
    if t.Redir? then Base(t.cmd) else t
  }

  function Redirs(t: Cmd<string>): seq<Redirection<string>> {
    if t.Redir? then Redirs(t.cmd) + [Redirection(t.file, t.mode, t.fd)] else []
  }

  lemma {:induction false} WrapLast(c: Cmd<string>, rs: seq<Redirection<string>>, r: Redirection<string>)
    ensures Wrap(c, rs + [r]) == Redir(Wrap(c, rs), r.file, r.mode, r.fd)
    decreases |rs|
  {
    if rs == [] {
      assert rs + [r] == [r];
      assert Wrap(c, [r]) == Wrap(Redir(c, r.file, r.mode, r.fd), []);
    } else {
      assert (rs + [r])[1..] == rs[1..] + [r];
      WrapLast(Redir(c, rs[0].file, rs[0].mode, rs[0].fd), rs[1..], r);
    }
  }

  lemma {:induction false} AllRedirToksLast(rs: seq<Redirection<string>>, r: Redirection<string>)
    ensures AllRedirToks(rs + [r]) == AllRedirToks(rs) + RedirToks(r.file, r.fd)
    decreases |rs|
  {
    if rs == [] {
      assert rs + [r] == [r];
      assert AllRedirToks([r]) == RedirToks(r.file, r.fd) + AllRedirToks([]);
    } else {
      assert (rs + [r])[1..] == rs[1..] + [r];
      AllRedirToksLast(rs[1..], r);
    }
  }

  lemma {:induction false} Unwrap(t: Cmd<string>)
    requires Proper(t)
    ensures Wrap(Base(t), Redirs(t)) == t && ProperRedirs(Redirs(t)) && Proper(Base(t)) && !Base(t).Redir?
    ensures ExecToks(t) == ExecToks(Base(t)) + AllRedirToks(Redirs(t))
    ensures if t.Redir? then Size(Base(t)) < Size(t) else Base(t) == t
  {
    if t.Redir? {
      Unwrap(t.cmd);
      var r := Redirection(t.file, t.mode, t.fd);
      WrapLast(Base(t), Redirs(t.cmd), r);
      AllRedirToksLast(Redirs(t.cmd), r);
    } else {
      assert ExecToks(t) + [] == ExecToks(t);
    }
  }

  // -- Simple commands

  predicate EndsExec(rest: seq<Tok>) { rest == [] || Opens(rest, "|)&;") }

  lemma ArgsIs(ts: seq<Tok>, argc: nat, w: string, rs: seq<Redirection<string>>, mid: seq<Tok>, more: Args,
               rest: seq<Tok>)
    requires ts != [] && ts[0] == Word(w) && argc + 1 < MAXARGS
    requires RedirsOf(ts[1..]) == Ok(rs, mid) && ArgsOf(mid, argc + 1) == Ok(more, rest)
    ensures ArgsOf(ts, argc) == Ok(Args([w] + more.words, rs + more.redirs), rest)
  {
  }

  lemma SimpleIs(ts: seq<Tok>, rs: seq<Redirection<string>>, mid: seq<Tok>, more: Args, rest: seq<Tok>)
    requires !Opens(ts, "(") && RedirsOf(ts) == Ok(rs, mid) && ArgsOf(mid, 0) == Ok(more, rest)
    ensures ExecOf(ts) == Ok(Wrap(Exec(more.words), rs + more.redirs), rest)
  {
  }

  // Where a simple command ends, and where a word stands, there is nothing to redirect.
  lemma NoMore(rest: seq<Tok>, argc: nat)
    requires EndsExec(rest)
    ensures ArgsOf(rest, argc) == Ok(Args([], []), rest) && !Opens(rest, "<>") && !Opens(rest, "(")
  {
  }

  lemma AtWord(ts: seq<Tok>)
    requires ts != [] && ts[0].Word?
    ensures RedirsOf(ts) == Ok([], ts) && !Opens(ts, "(")
  {
  }

  lemma {:induction false} ArgTail(args: seq<string>, redirs: seq<Tok>, rest: seq<Tok>)
    requires args != []
    ensures
      var ts, tail := Words(args) + redirs + rest, Words(args[1..]) + redirs + rest;
      && ts != [] && ts[0] == Word(args[0]) && ts[1..] == tail
      && if |args| == 1 then tail == redirs + rest else tail != [] && tail[0] == Word(args[1])
  {
  }

  // Words, with what is read as redirections rs after the last.
  lemma {:induction false} ArgsBack(args: seq<string>, argc: nat, redirs: seq<Tok>, rs: seq<Redirection<string>>,
                                    rest: seq<Tok>)
    requires args != [] && argc + |args| < MAXARGS && RedirsOf(redirs + rest) == Ok(rs, rest) && EndsExec(rest)
    ensures ArgsOf(Words(args) + redirs + rest, argc) == Ok(Args(args, rs), rest)
    decreases |args|
  {
    hide RedirsOf, ArgsOf, Opens, Words, EndsExec;
    var ts := Words(args) + redirs + rest;
    ArgTail(args, redirs, rest);
    if |args| == 1 {
      LastArg(args, argc, ts, rs, rest);
    } else {
      ArgsBack(args[1..], argc + 1, redirs, rs, rest);
      OneMoreArg(args, argc, ts, rs, rest);
    }
  }

  lemma LastArg(args: seq<string>, argc: nat, ts: seq<Tok>, rs: seq<Redirection<string>>, rest: seq<Tok>)
    requires |args| == 1 && argc + 1 < MAXARGS && ts != [] && ts[0] == Word(args[0])
    requires RedirsOf(ts[1..]) == Ok(rs, rest) && EndsExec(rest)
    ensures ArgsOf(ts, argc) == Ok(Args(args, rs), rest)
  {
    hide RedirsOf, ArgsOf, Opens;
    NoMore(rest, argc + 1);
    ArgsIs(ts, argc, args[0], rs, rest, Args([], []), rest);
    assert rs + [] == rs && [args[0]] + [] == args;
  }

  lemma OneMoreArg(args: seq<string>, argc: nat, ts: seq<Tok>, rs: seq<Redirection<string>>, rest: seq<Tok>)
    requires |args| > 1 && argc + 1 < MAXARGS && |ts| > 1 && ts[0] == Word(args[0]) && ts[1].Word?
    requires ArgsOf(ts[1..], argc + 1) == Ok(Args(args[1..], rs), rest)
    ensures ArgsOf(ts, argc) == Ok(Args(args, rs), rest)
  {
    hide RedirsOf, ArgsOf, Opens;
    AtWord(ts[1..]);
    ArgsIs(ts, argc, args[0], [], ts[1..], Args(args[1..], rs), rest);
    assert [] + rs == rs && [args[0]] + args[1..] == args;
  }

  lemma SimpleBack(args: seq<string>, rs: seq<Redirection<string>>, rest: seq<Tok>)
    requires |args| < MAXARGS && ProperRedirs(rs) && EndsExec(rest)
    ensures ExecOf(Words(args) + AllRedirToks(rs) + rest) == Ok(Wrap(Exec(args), rs), rest)
  {
    var ts := Words(args) + AllRedirToks(rs) + rest;
    hide RedirsOf, ArgsOf, ExecOf, AllRedirToks, Opens, Wrap;
    if args == [] {
      assert ts == AllRedirToks(rs) + rest;
      NoMore(rest, 0);
      NoBlock(rs, rest);
      RedirsBack(rs, rest);
      SimpleIs(ts, rs, rest, Args([], []), rest);
      assert rs + [] == rs;
    } else {
      assert ts[0] == Word(args[0]);
      AtWord(ts);
      NoMore(rest, 0);
      RedirsBack(rs, rest);
      ArgsBack(args, 0, AllRedirToks(rs), rs, rest);
      SimpleIs(ts, [], ts, Args(args, rs), rest);
      assert [] + rs == rs;
    }
  }

  lemma NoBlock(rs: seq<Redirection<string>>, rest: seq<Tok>)
    requires EndsExec(rest)
    ensures !Opens(AllRedirToks(rs) + rest, "(")
  {
  }

  // The tenth word of a command is one too many.
  lemma {:induction false} TooManyArgs(args: seq<string>, argc: nat, rest: seq<Tok>)
    requires argc < MAXARGS <= argc + |args|
    ensures ArgsOf(Words(args) + rest, argc).Panic?
    decreases |args|
  {
    var ts := Words(args) + rest;
    assert ts == [Word(args[0])] + (Words(args[1..]) + rest);
    assert ts[1..] == Words(args[1..]) + rest;
    if argc + 1 < MAXARGS {
      assert ts[1] == Word(args[1]);
      assert RedirsOf(ts[1..]) == Ok([], ts[1..]);
      TooManyArgs(args[1..], argc + 1, rest);
    }
  }

  lemma PlainCommand(args: seq<string>)
    requires forall i | 0 <= i < |args| :: IsWord(args[i])
    ensures Parse(Print(Exec(args))) == if |args| < MAXARGS then Some(Exec(args)) else None
  {
    var t := Exec(args);
    if |args| < MAXARGS {
      ParseUndoesPrint(t);
    } else {
      WordsOk(args);
      LexRender(Words(args));
      assert Words(args)[0] == Word(args[0]);
      assert Words(args) + [] == Words(args);
      TooManyArgs(args, 0, []);
      var ts := LineToks(t);
      assert ts == BackToks(t) == PipeToks(t) == Words(args);
      assert RedirsOf(ts) == Ok([], ts);
      assert ExecOf(ts).Panic?;
      assert PipeOf(ts).Panic? && LineOf(ts).Panic?;
    }
  }

  // -- Whole trees

  function Size(t: Cmd<string>): nat {
    match t
    case Exec(_) => 1
    case Redir(c, _, _, _) => 1 + Size(c)
    case Pipe(l, r) => 1 + Size(l) + Size(r)
    case Seq(l, r) => 1 + Size(l) + Size(r)
    case Back(c) => 1 + Size(c)
  }

  // A tree without its outer &, and their number.
  function Core(t: Cmd<string>): Cmd<string> {
    if t.Back? then Core(t.cmd) else t
  }

  function Depth(t: Cmd<string>): nat {
    if t.Back? then 1 + Depth(t.cmd) else 0
  }

  function AmpToks(n: nat): seq<Tok> { seq(n, _ => Sym('&')) }

  lemma {:induction false} Unback(t: Cmd<string>)
    requires Proper(t)
    ensures Backs(Core(t), Depth(t)) == t && Proper(Core(t)) && !Core(t).Back?
    ensures BackToks(t) == PipeToks(Core(t)) + AmpToks(Depth(t))
    ensures if t.Back? then Size(Core(t)) < Size(t) else Core(t) == t
  {
    if t.Back? {
      Unback(t.cmd);
      assert AmpToks(Depth(t)) == AmpToks(Depth(t.cmd)) + [Sym('&')];
    } else {
      assert PipeToks(t) + AmpToks(0) == PipeToks(t);
    }
  }

  lemma {:induction false} AmpsBack(n: nat, rest: seq<Tok>)
    requires !Opens(rest, "&")
    ensures Amps(AmpToks(n) + rest) == n && (AmpToks(n) + rest)[n..] == rest
  {
    if n == 0 {
      assert AmpToks(0) + rest == rest;
    } else {
      assert (AmpToks(n) + rest)[1..] == AmpToks(n - 1) + rest;
      AmpsBack(n - 1, rest);
    }
  }

  lemma {:induction false} ExecBack(t: Cmd<string>, rest: seq<Tok>)
    requires Proper(t) && EndsExec(rest)
    ensures ExecOf(ExecToks(t) + rest) == Ok(t, rest)
    decreases Size(t), if t.Pipe? then 2 else if t.Seq? || t.Back? then 1 else 0
  {
    hide LineOf, ExecOf, BlockOf, RedirsOf, Wrap, AllRedirToks, Base, Redirs, LineToks, Opens;
    Unwrap(t);
    var base, rs := Base(t), Redirs(t);
    if base.Exec? {
      SimpleBack(base.args, rs, rest);
    } else {
      var after := AllRedirToks(rs) + rest;
      FollowSet(after, rest);
      LineBack(base, [Sym(')')] + after);
      BlockToks(base);
      var ts := ExecToks(t) + rest;
      Regroup(ExecToks(base), LineToks(base), AllRedirToks(rs), rest);
      RedirsBack(rs, rest);
      BlockIs(ts, base, after, rs, rest);
    }
  }

  lemma FollowSet(after: seq<Tok>, rest: seq<Tok>)
    requires EndsExec(rest)
    ensures EndsLine([Sym(')')] + after) && !Opens(rest, "<>")
  {
  }

  lemma Regroup(block: seq<Tok>, line: seq<Tok>, redirs: seq<Tok>, rest: seq<Tok>)
    requires block == [Sym('(')] + line + [Sym(')')]
    ensures
      var ts := block + redirs + rest;
      Opens(ts, "(") && ts[1..] == line + ([Sym(')')] + (redirs + rest))
  {
  }

  lemma BlockToks(t: Cmd<string>)
    requires !t.Exec? && !t.Redir?
    ensures ExecToks(t) == [Sym('(')] + LineToks(t) + [Sym(')')]
  {
    if t.Pipe? {
      assert LineToks(t) == BackToks(t) == PipeToks(t);
    } else if t.Back? {
      assert LineToks(t) == BackToks(t);
    }
  }

  lemma BlockIs(ts: seq<Tok>, inner: Cmd<string>, after: seq<Tok>, rs: seq<Redirection<string>>, rest: seq<Tok>)
    requires Opens(ts, "(") && LineOf(ts[1..]) == Ok(inner, [Sym(')')] + after) && RedirsOf(after) == Ok(rs, rest)
    ensures ExecOf(ts) == Ok(Wrap(inner, rs), rest)
  {
  }

  predicate EndsPipe(rest: seq<Tok>) { rest == [] || Opens(rest, ")&;") }

  lemma {:induction false} PipeBack(t: Cmd<string>, rest: seq<Tok>)
    requires Proper(t) && EndsPipe(rest)
    ensures PipeOf(PipeToks(t) + rest) == Ok(t, rest)
    decreases Size(t), if t.Pipe? then 0 else if t.Seq? || t.Back? then 2 else 1
  {
    if t.Pipe? {
      var after := [Sym('|')] + (PipeToks(t.right) + rest);
      assert PipeToks(t) + rest == ExecToks(t.left) + after;
      ExecBack(t.left, after);
      assert after[1..] == PipeToks(t.right) + rest;
      PipeBack(t.right, rest);
    } else {
      ExecBack(t, rest);
    }
  }

  predicate EndsLine(rest: seq<Tok>) { rest == [] || Opens(rest, ")") }

  lemma {:induction false} LineBack(t: Cmd<string>, rest: seq<Tok>)
    requires Proper(t) && EndsLine(rest)
    ensures LineOf(LineToks(t) + rest) == Ok(t, rest)
    decreases Size(t), if t.Pipe? then 1 else if t.Seq? || t.Back? then 0 else 2
  {
    hide LineOf, PipeOf, Amps, Backs, Core, Depth, PipeToks, Opens;
    var first := if t.Seq? then t.left else t;
    var after := if t.Seq? then [Sym(';')] + (LineToks(t.right) + rest) else rest;
    Unback(first);
    var core, n := Core(first), Depth(first);
    assert LineToks(t) + rest == PipeToks(core) + (AmpToks(n) + after);
    FollowAmps(n, after, if t.Seq? then LineToks(t.right) + rest else [], rest);
    PipeBack(core, AmpToks(n) + after);
    AmpsBack(n, after);
    if t.Seq? {
      LineBack(t.right, rest);
      SeqIs(LineToks(t) + rest, core, AmpToks(n) + after, n, LineToks(t.right) + rest, t.right, rest);
    } else {
      LineIs(LineToks(t) + rest, core, AmpToks(n) + after, n, rest);
    }
  }

  lemma FollowAmps(n: nat, after: seq<Tok>, more: seq<Tok>, rest: seq<Tok>)
    requires EndsLine(rest) && (after == rest || after == [Sym(';')] + more)
    ensures EndsPipe(AmpToks(n) + after) && !Opens(after, "&") && !Opens(rest, ";")
  {
  }

  lemma LineIs(ts: seq<Tok>, core: Cmd<string>, mid: seq<Tok>, n: nat, rest: seq<Tok>)
    requires PipeOf(ts) == Ok(core, mid) && Amps(mid) == n && mid[n..] == rest && !Opens(rest, ";")
    ensures LineOf(ts) == Ok(Backs(core, n), rest)
  {
  }

  lemma SeqIs(ts: seq<Tok>, core: Cmd<string>, mid: seq<Tok>, n: nat, more: seq<Tok>, right: Cmd<string>,
              rest: seq<Tok>)
    requires PipeOf(ts) == Ok(core, mid) && Amps(mid) == n && mid[n..] == [Sym(';')] + more
    requires LineOf(more) == Ok(right, rest)
    ensures LineOf(ts) == Ok(Seq(Backs(core, n), right), rest)
  {
  }

  // -- Every text that parses

  lemma {:induction false} WordLengthWord(s: string)
    ensures forall i | 0 <= i < WordLength(s) :: WordChar(s[i])
    ensures WordLength(s) < |s| ==> !WordChar(s[WordLength(s)])
    decreases |s|
  {
    if s != "" && WordChar(s[0]) {
      WordLengthWord(s[1..]);
      forall i | 0 <= i < WordLength(s)
        ensures WordChar(s[i])
      {
        assert i > 0 ==> s[i] == s[1..][i - 1];
      }
      assert WordLength(s) < |s| ==> s[WordLength(s)] == s[1..][WordLength(s) - 1];
    }
  }

  lemma {:induction false} SkipSuffix(s: string)
    requires '\0' !in s
    ensures '\0' !in Skip(s)
    decreases |s|
  {
    if s != "" && Space(s[0]) {
      SkipSuffix(s[1..]);
    }
  }

  lemma {:induction false} LexOk(s: string)
    requires '\0' !in s
    ensures ToksOk(Lex(s))
    decreases |s|
  {
    SkipShortens(s);
    SkipSuffix(s);
    var t := Skip(s);
    if t != "" {
      WordLengthWord(t);
      assert TokOk(FirstTok(t));
      LexOk(t[TokLength(t)..]);
    }
  }

  lemma {:induction false} RedirsProper(ts: seq<Tok>)
    requires ToksOk(ts)
    ensures
      var r := RedirsOf(ts);
      r.Ok? ==> ToksOk(r.rest) && ProperRedirs(r.value) && forall i | 0 <= i < |r.value| :: IsWord(r.value[i].file)
    decreases |ts|
  {
    if Opens(ts, "<>") && |ts| >= 2 && ts[1].Word? {
      assert TokOk(ts[1]);
      RedirsProper(ts[2..]);
    }
  }

  lemma {:induction false} WrapProper(c: Cmd<string>, rs: seq<Redirection<string>>)
    requires Proper(c) && ProperRedirs(rs) && forall i | 0 <= i < |rs| :: IsWord(rs[i].file)
    ensures Proper(Wrap(c, rs))
    decreases |rs|
  {
    if rs == [] {
    } else {
      WrapProper(Redir(c, rs[0].file, rs[0].mode, rs[0].fd), rs[1..]);
    }
  }

  lemma {:induction false} ArgsProper(ts: seq<Tok>, argc: nat)
    requires ToksOk(ts) && argc < MAXARGS
    ensures
      var r := ArgsOf(ts, argc);
      r.Ok? ==>
        && ToksOk(r.rest) && argc + |r.value.words| < MAXARGS
        && (forall i | 0 <= i < |r.value.words| :: IsWord(r.value.words[i]))
        && ProperRedirs(r.value.redirs) && forall i | 0 <= i < |r.value.redirs| :: IsWord(r.value.redirs[i].file)
    decreases |ts|
  {
    if ts != [] && !Opens(ts, "|)&;") && ts[0].Word? && argc + 1 < MAXARGS {
      assert TokOk(ts[0]);
      RedirsProper(ts[1..]);
      var r := RedirsOf(ts[1..]);
      if r.Ok? {
        hide RedirsOf;
        ArgsProper(r.rest, argc + 1);
      }
    }
  }

  lemma {:induction false} ExecProper(ts: seq<Tok>)
    requires ToksOk(ts)
    ensures var r := ExecOf(ts); r.Ok? ==> ToksOk(r.rest) && Proper(r.value)
    decreases |ts|, 0
  {
    hide RedirsOf, ArgsOf, LineOf, ProperRedirs, IsWord;
    if Opens(ts, "(") {
      LineProper(ts[1..]);
      var inner := LineOf(ts[1..]);
      if inner.Ok? && Opens(inner.rest, ")") {
        RedirsProper(inner.rest[1..]);
        var r := RedirsOf(inner.rest[1..]);
        if r.Ok? {
          WrapProper(inner.value, r.value);
        }
      }
    } else {
      RedirsProper(ts);
      var first := RedirsOf(ts);
      if first.Ok? {
        ArgsProper(first.rest, 0);
        var args := ArgsOf(first.rest, 0);
        if args.Ok? {
          BothProper(first.value, args.value.redirs);
          WrapProper(Exec(args.value.words), first.value + args.value.redirs);
        }
      }
    }
  }

  lemma BothProper(a: seq<Redirection<string>>, b: seq<Redirection<string>>)
    requires ProperRedirs(a) && ProperRedirs(b)
    ensures ProperRedirs(a + b)
  {
  }

  lemma {:induction false} PipeProper(ts: seq<Tok>)
    requires ToksOk(ts)
    ensures var r := PipeOf(ts); r.Ok? ==> ToksOk(r.rest) && Proper(r.value)
    decreases |ts|, 1
  {
    hide ExecOf;
    ExecProper(ts);
    var left := ExecOf(ts);
    if left.Ok? && Opens(left.rest, "|") {
      PipeProper(left.rest[1..]);
    }
  }

  lemma {:induction false} BacksProper(c: Cmd<string>, n: nat)
    requires Proper(c)
    ensures Proper(Backs(c, n))
  {
    if n == 0 {
    } else {
      BacksProper(c, n - 1);
    }
  }

  lemma {:induction false} LineProper(ts: seq<Tok>)
    requires ToksOk(ts)
    ensures var r := LineOf(ts); r.Ok? ==> ToksOk(r.rest) && Proper(r.value)
    decreases |ts|, 2
  {
    hide PipeOf, Amps, Backs;
    PipeProper(ts);
    var left := PipeOf(ts);
    if left.Ok? {
      var n := Amps(left.rest);
      BacksProper(left.value, n);
      var rest := left.rest[n..];
      if Opens(rest, ";") {
        LineProper(rest[1..]);
      }
    }
  }

  // The canonical text of what a text parses to means the same as the text.
  lemma PrintUndoesParse(s: string)
    requires '\0' !in s
    ensures Parse(s).Some? ==> Proper(Parse(s).value) && Parse(Print(Parse(s).value)) == Parse(s)
  {
    LexOk(s);
    LineProper(Lex(s));
    if Parse(s).Some? {
      ParseUndoesPrint(Parse(s).value);
    }
  }
}
