// The parser of sh.c as it runs: a cursor moves through the text, words are pairs of
// pointers into it, and nulterminate() writes the string ends into the buffer.
module Shell {
  import opened Common
  import opened ShellSpec

  // q and eq, the first character of a word and the one after its last.
  datatype Span = Span(q: nat, eq: nat)

  // None of the calls return after a panic.
  datatype Parsed<T> = Failed | Done(value: T, next: nat)

  // ---- Words as pointers, words as strings ----

  function Piece(s: string, sp: Span): string {
    if sp.q <= sp.eq <= |s| then s[sp.q..sp.eq] else ""
  }

  function Pieces(s: string, args: seq<Span>): seq<string> {
    seq(|args|, i requires 0 <= i < |args| => Piece(s, args[i]))
  }

  function RedirPieces(s: string, rs: seq<Redirection<Span>>): seq<Redirection<string>> {
    seq(|rs|, i requires 0 <= i < |rs| => Redirection(Piece(s, rs[i].file), rs[i].mode, rs[i].fd))
  }

  function Text(s: string, c: Cmd<Span>): Cmd<string> {
    match c
    case Exec(args) => Exec(Pieces(s, args))
    case Redir(d, file, mode, fd) => Redir(Text(s, d), Piece(s, file), mode, fd)
    case Pipe(l, r) => Pipe(Text(s, l), Text(s, r))
    case Seq(l, r) => Seq(Text(s, l), Text(s, r))
    case Back(d) => Back(Text(s, d))
  }

  // The span is a whole word: it ends where the word ends.
  predicate WordSpan(s: string, sp: Span) {
    && sp.q < sp.eq <= |s|
    && (forall k | sp.q <= k < sp.eq :: WordChar(s[k]))
    && (sp.eq < |s| ==> !WordChar(s[sp.eq]))
  }

  predicate WordArgs(s: string, args: seq<Span>) { forall i | 0 <= i < |args| :: WordSpan(s, args[i]) }

  predicate WordRedirs(s: string, rs: seq<Redirection<Span>>) { forall i | 0 <= i < |rs| :: WordSpan(s, rs[i].file) }

  predicate WordSpans(s: string, c: Cmd<Span>) {
    match c
    case Exec(args) => WordArgs(s, args)
    case Redir(d, file, _, _) => WordSpans(s, d) && WordSpan(s, file)
    case Pipe(l, r) => WordSpans(s, l) && WordSpans(s, r)
    case Seq(l, r) => WordSpans(s, l) && WordSpans(s, r)
    case Back(d) => WordSpans(s, d)
  }

  lemma {:induction false} WrapText(s: string, c: Cmd<Span>, rs: seq<Redirection<Span>>)
    ensures Text(s, Wrap(c, rs)) == Wrap(Text(s, c), RedirPieces(s, rs))
    ensures WordSpans(s, c) && WordRedirs(s, rs) ==> WordSpans(s, Wrap(c, rs))
    decreases |rs|
  {
    if rs == [] {
    } else {
      assert RedirPieces(s, rs)[1..] == RedirPieces(s, rs[1..]);
      WrapText(s, Redir(c, rs[0].file, rs[0].mode, rs[0].fd), rs[1..]);
    }
  }

  lemma {:induction false} BacksText(s: string, c: Cmd<Span>, n: nat)
    ensures Text(s, Backs(c, n)) == Backs(Text(s, c), n)
    ensures WordSpans(s, c) ==> WordSpans(s, Backs(c, n))
  {
    if n == 0 {
    } else {
      BacksText(s, c, n - 1);
    }
  }

  // ---- Tokens ----

  method SkipSpaces(s: CString, ps: nat) returns (next: nat)
    requires ps <= |s|
    ensures ps <= next <= |s| && s[next..] == Skip(s[ps..])
  {
    next := ps;
    while next < |s| && Space(s[next])
      invariant ps <= next <= |s| && Skip(s[next..]) == Skip(s[ps..])
    {
      assert s[next..][1..] == s[next + 1..];
      next := next + 1;
    }
  }

  method ScanWord(s: CString, q: nat) returns (eq: nat)
    requires q <= |s|
    ensures eq == q + WordLength(s[q..])
  {
    eq := q;
    while eq < |s| && !Space(s[eq]) && !Symbol(s[eq])
      invariant q <= eq <= |s| && eq + WordLength(s[eq..]) == q + WordLength(s[q..])
    {
      assert s[eq..][1..] == s[eq + 1..];
      eq := eq + 1;
    }
  }

  lemma LexEmpty()
    ensures Lex("") == []
  {
  }

  lemma {:induction false} LexSkip(s: string)
    ensures Lex(Skip(s)) == Lex(s)
  {
  }

  lemma LexAt(s: string, q: nat)
    requires q < |s| && !Space(s[q])
    ensures Lex(s[q..]) == [FirstTok(s[q..])] + Lex(s[q + TokLength(s[q..])..])
  {
  }

  lemma ScannedWord(s: string, q: nat)
    requires q < |s| && WordChar(s[q])
    ensures
      var sp := Span(q, q + WordLength(s[q..]));
      WordSpan(s, sp) && Piece(s, sp) == s[q..][..WordLength(s[q..])]
  {
    var t := s[q..];
    WordLengthWord(t);
    forall k | q <= k < q + WordLength(t)
      ensures WordChar(s[k])
    {
      assert s[k] == t[k - q];
    }
  }

  // gettoken(): 0 at the end, 'a' for a word, '+' for >>, else the symbol itself.
  method GetToken(s: CString, ps: nat) returns (tok: char, sp: Span, next: nat)
    requires ps <= |s|
    ensures ps <= next <= |s|
    ensures
      var ts := Lex(s[ps..]);
      if ts == [] then tok == '\0' && Lex(s[next..]) == []
      else
        && ps < next && Lex(s[next..]) == ts[1..] && tok != '\0'
        && match ts[0]
           case Sym(c) => tok == c != 'a'
           case Word(w) => tok == 'a' && w == Piece(s, sp) && WordSpan(s, sp)
  {
    hide Lex, WordSpan, Piece;
    var q := SkipSpaces(s, ps);
    LexSkip(s[ps..]);
    SkipShortens(s[ps..]);
    if q == |s| {
      LexEmpty();
      return '\0', Span(q, q), q;
    }
    assert s[q..][0] == s[q];
    LexAt(s, q);
    var end := q;
    if s[q] == '>' {
      end := q + 1;
      tok := '>';
      if end < |s| && s[end] == '>' {
        tok := '+';
        end := end + 1;
      }
    } else if Symbol(s[q]) {
      end := q + 1;
      tok := s[q];
    } else {
      tok := 'a';
      end := ScanWord(s, q);
      ScannedWord(s, q);
    }
    assert end == q + TokLength(s[q..]);
    sp := Span(q, end);
    next := SkipSpaces(s, end);
    LexSkip(s[end..]);
  }

  // peek(): skips spaces and looks at one character. The characters asked for are symbols.
  method Peek(s: CString, ps: nat, toks: string) returns (hit: bool, next: nat)
    requires ps <= |s| && forall i | 0 <= i < |toks| :: Symbol(toks[i])
    ensures ps <= next <= |s| && Lex(s[next..]) == Lex(s[ps..])
    ensures Lex(s[ps..]) == [] ==> next == |s|
    ensures hit <==> Opens(Lex(s[ps..]), toks)
  {
    hide Lex;
    next := SkipSpaces(s, ps);
    LexSkip(s[ps..]);
    SkipShortens(s[ps..]);
    if next == |s| {
      LexEmpty();
      return false, next;
    }
    assert s[next..][0] == s[next];
    LexAt(s, next);
    hit := s[next] in toks;
  }

  // ---- The parser ----

  // A call that starts at ps does what the grammar says about the tokens there.
  ghost predicate Follows(s: string, ps: nat, r: Parsed<Cmd<Span>>, x: Result<Cmd<string>>) {
    && (r.Failed? <==> x.Panic?)
    && (r.Done? && x.Ok? ==>
          ps <= r.next <= |s| && Lex(s[r.next..]) == x.rest && Text(s, r.value) == x.value && WordSpans(s, r.value))
  }

  function RedirOf(tok: char, file: Span): Redirection<Span> {
    if tok == '<' then Redirection(file, O_RDONLY, 0) else Redirection(file, O_WRONLY + O_CREATE, 1)
  }

  function Prepend(rs: seq<Redirection<string>>,
                   x: Result<seq<Redirection<string>>>): Result<seq<Redirection<string>>> {
    if x.Panic? then Panic else Ok(rs + x.value, x.rest)
  }

  // parseredirs(): the redirections in the order in which they are wrapped.
  method ParseRedirs(s: CString, ps: nat) returns (r: Parsed<seq<Redirection<Span>>>)
    requires ps <= |s|
    ensures
      var x := RedirsOf(Lex(s[ps..]));
      && (r.Failed? <==> x.Panic?)
      && (r.Done? && x.Ok? ==>
            ps <= r.next <= |s| && Lex(s[r.next..]) == x.rest && RedirPieces(s, r.value) == x.value &&
            WordRedirs(s, r.value))
  {
    hide Lex, WordSpan, Piece;
    var rs, cur := [], ps;
    ghost var goal := RedirsOf(Lex(s[ps..]));
    if goal.Ok? {
      assert RedirPieces(s, []) + goal.value == goal.value;
    }
    while true
      invariant ps <= cur <= |s| && WordRedirs(s, rs)
      invariant goal == Prepend(RedirPieces(s, rs), RedirsOf(Lex(s[cur..])))
      decreases |s| - cur
    {
      ghost var ts := Lex(s[cur..]);
      var hit, here := Peek(s, cur, "<>");
      if !hit {
        assert RedirPieces(s, rs) + [] == RedirPieces(s, rs);
        return Done(rs, here);
      }
      var tok, _, afterOp := GetToken(s, here);
      var what, file, next := GetToken(s, afterOp);
      if what != 'a' {
        return Failed;
      }
      assert ts[1..][1..] == ts[2..];
      NextRedir(s, rs, tok, file, RedirsOf(ts), RedirsOf(Lex(s[next..])));
      rs := rs + [RedirOf(tok, file)];
      cur := next;
    }
  }

  lemma NextRedir(s: string, rs: seq<Redirection<Span>>, tok: char, file: Span,
                  x: Result<seq<Redirection<string>>>, y: Result<seq<Redirection<string>>>)
    requires x == Prepend([RedirectionOf(tok, Piece(s, file))], y)
    ensures Prepend(RedirPieces(s, rs), x) == Prepend(RedirPieces(s, rs + [RedirOf(tok, file)]), y)
  {
    assert RedirPieces(s, rs + [RedirOf(tok, file)]) == RedirPieces(s, rs) + [RedirectionOf(tok, Piece(s, file))];
    if y.Ok? {
      assert RedirPieces(s, rs) + ([RedirectionOf(tok, Piece(s, file))] + y.value)
          == (RedirPieces(s, rs) + [RedirectionOf(tok, Piece(s, file))]) + y.value;
    }
  }

  function PrependArgs(words: seq<string>, rs: seq<Redirection<string>>, x: Result<Args>): Result<Args> {
    if x.Panic? then Panic else Ok(Args(words + x.value.words, rs + x.value.redirs), x.rest)
  }

  // The loop of parseexec(): words, each followed by redirections. The wrapped command holds
  // the same execcmd all along, whose argv grows.
  method ParseArgs(s: CString, ps: nat) returns (r: Parsed<(seq<Span>, seq<Redirection<Span>>)>)
    requires ps <= |s|
    ensures
      var x := ArgsOf(Lex(s[ps..]), 0);
      && (r.Failed? <==> x.Panic?)
      && (r.Done? && x.Ok? ==>
            && ps <= r.next <= |s| && Lex(s[r.next..]) == x.rest && |r.value.0| < MAXARGS
            && x.value == Args(Pieces(s, r.value.0), RedirPieces(s, r.value.1))
            && WordArgs(s, r.value.0) && WordRedirs(s, r.value.1))
  {
    hide Lex, WordSpan, Piece, RedirsOf;
    var argv, rs, cur := [], [], ps;
    ghost var goal := ArgsOf(Lex(s[ps..]), 0);
    if goal.Ok? {
      assert Pieces(s, []) + goal.value.words == goal.value.words;
      assert RedirPieces(s, []) + goal.value.redirs == goal.value.redirs;
    }
    while true
      invariant ps <= cur <= |s| && |argv| < MAXARGS && WordArgs(s, argv) && WordRedirs(s, rs)
      invariant goal == PrependArgs(Pieces(s, argv), RedirPieces(s, rs), ArgsOf(Lex(s[cur..]), |argv|))
      decreases |s| - cur
    {
      ghost var ts := Lex(s[cur..]);
      var hit, here := Peek(s, cur, "|)&;");
      if hit {
        NoneLeft(s, argv, rs, ts);
        return Done((argv, rs), here);
      }
      var tok, word, next := GetToken(s, here);
      if tok == '\0' {
        NoneLeft(s, argv, rs, ts);
        return Done((argv, rs), next);
      }
      if tok != 'a' {
        return Failed;
      }
      argv := argv + [word];
      if |argv| >= MAXARGS {
        return Failed;
      }
      var more := ParseRedirs(s, next);
      if more.Failed? {
        return Failed;
      }
      NextArg(s, argv[..|argv| - 1], word, rs, more.value, ArgsOf(ts, |argv| - 1), ArgsOf(Lex(s[more.next..]), |argv|));
      assert argv[..|argv| - 1] + [word] == argv;
      rs := rs + more.value;
      cur := more.next;
    }
  }

  lemma NoneLeft(s: string, argv: seq<Span>, rs: seq<Redirection<Span>>, ts: seq<Tok>)
    requires ts == [] || Opens(ts, "|)&;")
    ensures PrependArgs(Pieces(s, argv), RedirPieces(s, rs), ArgsOf(ts, |argv|))
            == Ok(Args(Pieces(s, argv), RedirPieces(s, rs)), ts)
  {
    assert Pieces(s, argv) + [] == Pieces(s, argv) && RedirPieces(s, rs) + [] == RedirPieces(s, rs);
  }

  lemma NextArg(s: string, argv: seq<Span>, word: Span, rs: seq<Redirection<Span>>, more: seq<Redirection<Span>>,
                x: Result<Args>, y: Result<Args>)
    requires x == PrependArgs([Piece(s, word)], RedirPieces(s, more), y)
    ensures PrependArgs(Pieces(s, argv), RedirPieces(s, rs), x)
            == PrependArgs(Pieces(s, argv + [word]), RedirPieces(s, rs + more), y)
  {
    assert Pieces(s, argv + [word]) == Pieces(s, argv) + [Piece(s, word)];
    assert RedirPieces(s, rs + more) == RedirPieces(s, rs) + RedirPieces(s, more);
    if y.Ok? {
      assert Pieces(s,
                    argv) + ([Piece(s, word)] + y.value.words) == (Pieces(s, argv) + [Piece(s, word)]) + y.value.words;
      assert RedirPieces(s,
                         rs) + (RedirPieces(s, more) + y.value.redirs) == (RedirPieces(s, rs) + RedirPieces(s,
                                more)) + y.value.redirs;
    }
  }

  method ParseExec(s: CString, ps: nat) returns (r: Parsed<Cmd<Span>>)
    requires ps <= |s|
    ensures Follows(s, ps, r, ExecOf(Lex(s[ps..])))
    decreases |s| - ps, 1
  {
    hide Lex, WordSpan, Piece, RedirsOf, ArgsOf, BlockOf, Wrap;
    var block, here := Peek(s, ps, "(");
    if block {
      r := ParseBlock(s, here);
      return;
    }
    var first := ParseRedirs(s, here);
    if first.Failed? {
      return Failed;
    }
    var rest := ParseArgs(s, first.next);
    if rest.Failed? {
      return Failed;
    }
    var rs := first.value + rest.value.1;
    assert RedirPieces(s, rs) == RedirPieces(s, first.value) + RedirPieces(s, rest.value.1);
    WrapText(s, Exec(rest.value.0), rs);
    r := Done(Wrap(Exec(rest.value.0), rs), rest.next);
  }

  method ParseBlock(s: CString, ps: nat) returns (r: Parsed<Cmd<Span>>)
    requires ps <= |s|
    ensures Follows(s, ps, r, BlockOf(Lex(s[ps..])))
    decreases |s| - ps, 0
  {
    hide Lex, WordSpan, Piece, RedirsOf, LineOf, Wrap;
    var open, here := Peek(s, ps, "(");
    if !open {
      return Failed;
    }
    var _, _, inside := GetToken(s, here);
    var inner := ParseLine(s, inside);
    if inner.Failed? {
      return Failed;
    }
    var close, there := Peek(s, inner.next, ")");
    if !close {
      return Failed;
    }
    var _, _, next := GetToken(s, there);
    var rs := ParseRedirs(s, next);
    if rs.Failed? {
      return Failed;
    }
    WrapText(s, inner.value, rs.value);
    r := Done(Wrap(inner.value, rs.value), rs.next);
  }

  method ParsePipe(s: CString, ps: nat) returns (r: Parsed<Cmd<Span>>)
    requires ps <= |s|
    ensures Follows(s, ps, r, PipeOf(Lex(s[ps..])))
    decreases |s| - ps, 2
  {
    hide Lex, WordSpan, Piece, ExecOf;
    var left := ParseExec(s, ps);
    if left.Failed? {
      return Failed;
    }
    var bar, here := Peek(s, left.next, "|");
    if !bar {
      return Done(left.value, here);
    }
    var _, _, next := GetToken(s, here);
    var right := ParsePipe(s, next);
    if right.Failed? {
      return Failed;
    }
    r := Done(Pipe(left.value, right.value), right.next);
  }

  // The & after a pipeline, each of which wraps the command once more.
  method ParseAmps(s: CString, ps: nat, c: Cmd<Span>) returns (d: Cmd<Span>, next: nat)
    requires ps <= |s|
    ensures ps <= next <= |s| && d == Backs(c, Amps(Lex(s[ps..])))
    ensures Lex(s[next..]) == Lex(s[ps..])[Amps(Lex(s[ps..]))..]
  {
    hide Lex, WordSpan, Piece;
    d, next := c, ps;
    ghost var ts, n := Lex(s[ps..]), 0;
    while true
      invariant ps <= next <= |s| && n <= |ts| && Lex(s[next..]) == ts[n..]
      invariant d == Backs(c, n) && n + Amps(ts[n..]) == Amps(ts)
      decreases |s| - next
    {
      var hit, here := Peek(s, next, "&");
      if !hit {
        return d, here;
      }
      var _, _, after := GetToken(s, here);
      assert ts[n..][1..] == ts[n + 1..];
      d, next, n := Back(d), after, n + 1;
    }
  }

  method ParseLine(s: CString, ps: nat) returns (r: Parsed<Cmd<Span>>)
    requires ps <= |s|
    ensures Follows(s, ps, r, LineOf(Lex(s[ps..])))
    decreases |s| - ps, 3
  {
    hide Lex, WordSpan, Piece, PipeOf, Amps, Backs;
    var left := ParsePipe(s, ps);
    if left.Failed? {
      return Failed;
    }
    var c, afterAmps := ParseAmps(s, left.next, left.value);
    BacksText(s, left.value, Amps(Lex(s[left.next..])));
    var semi, here := Peek(s, afterAmps, ";");
    if !semi {
      return Done(c, here);
    }
    var _, _, next := GetToken(s, here);
    var right := ParseLine(s, next);
    if right.Failed? {
      return Failed;
    }
    r := Done(Seq(c, right.value), right.next);
  }

  // ---- String ends ----

  // The C string at q.
  function StringAt(b: string, q: nat): string
    decreases |b| - q
  {
    if q < |b| && b[q] != '\0' then [b[q]] + StringAt(b, q + 1) else ""
  }

  // The command as the rest of the shell sees it: a word is the C string at its pointer.
  function Strings(b: string, c: Cmd<Span>): Cmd<string> {
    match c
    case Exec(args) => Exec(seq(|args|, i requires 0 <= i < |args| => StringAt(b, args[i].q)))
    case Redir(d, file, mode, fd) => Redir(Strings(b, d), StringAt(b, file.q), mode, fd)
    case Pipe(l, r) => Pipe(Strings(b, l), Strings(b, r))
    case Seq(l, r) => Seq(Strings(b, l), Strings(b, r))
    case Back(d) => Back(Strings(b, d))
  }

  function Ends(c: Cmd<Span>): set<nat> {
    match c
    case Exec(args) => set i | 0 <= i < |args| :: args[i].eq
    case Redir(d, file, _, _) => Ends(d) + {file.eq}
    case Pipe(l, r) => Ends(l) + Ends(r)
    case Seq(l, r) => Ends(l) + Ends(r)
    case Back(d) => Ends(d)
  }

  // nulterminate(): NUL at every word end and nowhere else.
  method NulTerminate(buf: array<char>, c: Cmd<Span>)
    requires forall e | e in Ends(c) :: e < buf.Length
    modifies buf
    ensures forall k | 0 <= k < buf.Length :: buf[k] == if k in Ends(c) then '\0' else old(buf[k])
  {
    match c
    case Exec(args) =>
      var i := 0;
      while i < |args|
        invariant 0 <= i <= |args|
        invariant forall k | 0 <= k < buf.Length ::
                    buf[k] == if exists j | 0 <= j < i :: args[j].eq == k then '\0' else old(buf[k])
      {
        assert args[i].eq in Ends(c);
        buf[args[i].eq] := '\0';
        i := i + 1;
      }
    case Redir(d, file, _, _) =>
      assert Ends(d) <= Ends(c);
      NulTerminate(buf, d);
      assert file.eq in Ends(c);
      buf[file.eq] := '\0';
    case Pipe(l, r) =>
      assert Ends(l) <= Ends(c) && Ends(r) <= Ends(c);
      NulTerminate(buf, l);
      NulTerminate(buf, r);
    case Seq(l, r) =>
      assert Ends(l) <= Ends(c) && Ends(r) <= Ends(c);
      NulTerminate(buf, l);
      NulTerminate(buf, r);
    case Back(d) =>
      assert Ends(d) <= Ends(c);
      NulTerminate(buf, d);
  }

  // No string end is written inside a word.
  lemma {:induction false} EndsOutside(s: string, c: Cmd<Span>, e: nat)
    requires WordSpans(s, c) && e in Ends(c)
    ensures e <= |s| && (e < |s| ==> !WordChar(s[e]))
  {
    match c
    case Exec(args) =>
      var i :| 0 <= i < |args| && args[i].eq == e;
      assert WordSpan(s, args[i]);
    case Redir(d, file, _, _) =>
      if e in Ends(d) {
        EndsOutside(s, d, e);
      }
    case Pipe(l, r) =>
      if e in Ends(l) { EndsOutside(s, l, e); } else { EndsOutside(s, r, e); }
    case Seq(l, r) =>
      if e in Ends(l) { EndsOutside(s, l, e); } else { EndsOutside(s, r, e); }
    case Back(d) => EndsOutside(s, d, e);
  }

  lemma {:induction false} StringAtIs(b: string, q: nat, e: nat)
    requires q <= e < |b| && b[e] == '\0' && forall k | q <= k < e :: b[k] != '\0'
    ensures StringAt(b, q) == b[q..e]
    decreases e - q
  {
    if q < e {
      StringAtIs(b, q + 1, e);
      assert b[q..e] == [b[q]] + b[q + 1..e];
    }
  }

  // The buffer agrees with the text outside the word ends in `ends`, and holds NUL there.
  ghost predicate Terminated(s: string, b: string, ends: set<nat>) {
    && |s| < |b|
    && (forall e | e in ends :: e <= |s| && (e < |s| ==> !WordChar(s[e])) && b[e] == '\0')
    && (forall k | 0 <= k < |s| && k !in ends :: b[k] == s[k])
  }

  lemma SpanReads(s: CString, b: string, ends: set<nat>, sp: Span)
    requires Terminated(s, b, ends) && WordSpan(s, sp) && sp.eq in ends
    ensures StringAt(b, sp.q) == Piece(s, sp)
  {
    forall k | sp.q <= k < sp.eq
      ensures b[k] == s[k] != '\0'
    {
      assert WordChar(s[k]);
      assert s[k] in s;
    }
    StringAtIs(b, sp.q, sp.eq);
    assert b[sp.q..sp.eq] == s[sp.q..sp.eq];
  }

  lemma {:induction false} CommandReads(s: CString, b: string, ends: set<nat>, c: Cmd<Span>)
    requires Terminated(s, b, ends) && WordSpans(s, c) && Ends(c) <= ends
    ensures Strings(b, c) == Text(s, c)
  {
    hide Terminated, WordSpan, Piece, StringAt;
    match c
    case Exec(args) =>
      forall i | 0 <= i < |args|
        ensures StringAt(b, args[i].q) == Piece(s, args[i])
      {
        assert args[i].eq in Ends(c);
        SpanReads(s, b, ends, args[i]);
      }
      assert Strings(b, c).args == Pieces(s, args);
    case Redir(d, file, _, _) =>
      assert file.eq in Ends(c);
      CommandReads(s, b, ends, d);
      SpanReads(s, b, ends, file);
    case Pipe(l, r) => CommandReads(s, b, ends, l); CommandReads(s, b, ends, r);
    case Seq(l, r) => CommandReads(s, b, ends, l); CommandReads(s, b, ends, r);
    case Back(d) => CommandReads(s, b, ends, d);
  }

  // strlen()
  method Strlen(buf: array<char>) returns (n: nat)
    requires '\0' in buf[..]
    ensures n < buf.Length && buf[n] == '\0' && '\0' !in buf[..n] && StringAt(buf[..], 0) == buf[..n]
  {
    n := 0;
    while buf[n] != '\0'
      invariant n < buf.Length && '\0' !in buf[..n] && '\0' in buf[n..]
      decreases buf.Length - n
    {
      assert buf[n..] == [buf[n]] + buf[n + 1..];
      assert buf[..n + 1] == buf[..n] + [buf[n]];
      n := n + 1;
    }
    forall k | 0 <= k < n
      ensures buf[..][k] != '\0'
    {
      assert buf[..n][k] in buf[..n];
    }
    StringAtIs(buf[..], 0, n);
    assert buf[..][0..n] == buf[..n];
  }

  // parsecmd(): afterwards the command's C strings are the words that the grammar finds.
  method ParseCmd(buf: array<char>) returns (r: Option<Cmd<Span>>)
    requires '\0' in buf[..]
    modifies buf
    ensures
      var parse := Parse(StringAt(old(buf[..]), 0));
      && (r.None? <==> parse.None?)
      && (r.None? ==> buf[..] == old(buf[..]))
      && (r.Some? && parse.Some? ==> Strings(buf[..], r.value) == parse.value)
  {
    hide Lex, WordSpan, Piece, LineOf, StringAt;
    var n := Strlen(buf);
    var s: CString := buf[..n];
    assert s[0..] == s;
    var line := ParseLine(s, 0);
    if line.Failed? {
      return None;
    }
    var _, next := Peek(s, line.next, "");
    if next != |s| {
      return None;
    }
    LexEmpty();
    assert s[next..] == "";
    var c := line.value;
    forall e | e in Ends(c)
      ensures e <= n && (e < n ==> !WordChar(s[e]))
    {
      EndsOutside(s, c, e);
    }
    NulTerminate(buf, c);
    assert Terminated(s, buf[..], Ends(c));
    CommandReads(s, buf[..], Ends(c), c);
    return Some(c);
  }
}
