/** sh.c's parser: a line is split into tokens, the tokens into a command tree, and the words of the
    tree are ended in place by writing NULs into the line. */
module Shell {

  const MAXARGS: nat := 10
  const O_RDONLY: nat := 0x000
  const O_WRONLY: nat := 0x001
  const O_CREATE: nat := 0x200
  const NUL: char := '\0'

  /** A word of the line, as the pair of pointers (q, eq). */
  datatype Word = Word(start: nat, end: nat)

  datatype Redirection = Redirection(file: Word, mode: nat, fd: nat)

  datatype Cmd =
    | Exec(argv: seq<Word>)
    | Redir(cmd: Cmd, to: Redirection)
    | Pipe(left: Cmd, right: Cmd)
    | List(left: Cmd, right: Cmd)
    | Back(cmd: Cmd)

  datatype Token = W(w: Word) | S(c: char)   // S('+') is >>

  predicate White(c: char) { c == ' ' || c == '\t' || c == '\r' || c == '\n' || c == '\U{0B}' }
  predicate Symbol(c: char) {
    c == '<' || c == '|' || c == '>' || c == '&' || c == ';' || c == '(' || c == ')'
  }
  predicate InWord(c: char) { !White(c) && !Symbol(c) }

  // --- what the characters mean: the tokens from position i on ---

  function SkipWhite(s: string, i: nat): (r: nat)
    requires i <= |s|
    ensures i <= r <= |s|
    decreases |s| - i
  {
    if i < |s| && White(s[i]) then SkipWhite(s, i + 1) else i
  }

  function WordEnd(s: string, i: nat): (r: nat)
    requires i <= |s|
    ensures i <= r <= |s| && (i < |s| && InWord(s[i]) ==> i < r)
    decreases |s| - i
  {
    if i < |s| && InWord(s[i]) then WordEnd(s, i + 1) else i
  }

  function TokenEnd(s: string, q: nat): (r: nat)
    requires q < |s| && !White(s[q])
    ensures q < r <= |s|
  {
    if InWord(s[q]) then WordEnd(s, q)
    else if s[q] == '>' && q + 1 < |s| && s[q + 1] == '>' then q + 2
    else q + 1
  }

  function TokenAt(s: string, q: nat): Token
    requires q < |s| && !White(s[q])
  {
    if InWord(s[q]) then W(Word(q, WordEnd(s, q)))
    else if s[q] == '>' && q + 1 < |s| && s[q + 1] == '>' then S('+')
    else S(s[q])
  }

  lemma SkipStops(s: string, i: nat)
    requires i <= |s|
    ensures SkipWhite(s, i) < |s| ==> !White(s[SkipWhite(s, i)])
    decreases |s| - i
  {
    if i < |s| && White(s[i]) { SkipStops(s, i + 1); }
  }

  function Lex(s: string, i: nat): seq<Token>
    requires i <= |s|
    decreases |s| - i
  {
    var q := SkipWhite(s, i);
    SkipStops(s, i);
    if q == |s| then [] else [TokenAt(s, q)] + Lex(s, TokenEnd(s, q))
  }

  // --- what the tokens mean ---

  datatype Parse = Ok(cmd: Cmd, rest: seq<Token>) | Panic

  datatype Redirs = Redirs(list: seq<Redirection>, rest: seq<Token>) | Missing

  predicate Starts(ts: seq<Token>, toks: string) {
    ts != [] && ts[0].S? && (if ts[0].c == '+' then '>' else ts[0].c) in toks
  }

  function RedirTo(c: char, file: Word): Redirection {
    if c == '<' then Redirection(file, O_RDONLY, 0) else Redirection(file, O_WRONLY + O_CREATE, 1)
  }

  function Wrap(cmd: Cmd, rs: seq<Redirection>): Cmd
    decreases |rs|
  {
    if rs == [] then cmd else Wrap(Redir(cmd, rs[0]), rs[1..])
  }

  function ParseRedirs(rs: seq<Redirection>, ts: seq<Token>): (r: Redirs)
    ensures r.Redirs? ==> |r.rest| <= |ts|
    decreases |ts|
  {
    if !Starts(ts, "<>") then Redirs(rs, ts)
    else if |ts| < 2 || !ts[1].W? then Missing
    else ParseRedirs(rs + [RedirTo(ts[0].c, ts[1].w)], ts[2..])
  }

  function ParseArgs(argv: seq<Word>, rs: seq<Redirection>, ts: seq<Token>): (r: Parse)
    ensures r.Ok? ==> |r.rest| <= |ts|
    decreases |ts|
  {
    if ts == [] || Starts(ts, "|)&;") then Ok(Wrap(Exec(argv), rs), ts)
    else if !ts[0].W? || |argv| + 1 >= MAXARGS then Panic
    else
      var more := ParseRedirs(rs, ts[1..]);
      if more.Missing? then Panic else ParseArgs(argv + [ts[0].w], more.list, more.rest)
  }

  function ParseExec(ts: seq<Token>): (r: Parse)
    ensures r.Ok? ==> |r.rest| <= |ts|
    decreases |ts|, 0
  {
    if Starts(ts, "(") then
      var block := ParseLine(ts[1..]);
      if block.Panic? || !Starts(block.rest, ")") then Panic
      else
        var redirs := ParseRedirs([], block.rest[1..]);
        if redirs.Missing? then Panic else Ok(Wrap(block.cmd, redirs.list), redirs.rest)
    else
      var redirs := ParseRedirs([], ts);
      if redirs.Missing? then Panic else ParseArgs([], redirs.list, redirs.rest)
  }

  function ParsePipe(ts: seq<Token>): (r: Parse)
    ensures r.Ok? ==> |r.rest| <= |ts|
    decreases |ts|, 1
  {
    var first := ParseExec(ts);
    if first.Panic? || !Starts(first.rest, "|") then first
    else
      var next := ParsePipe(first.rest[1..]);
      if next.Panic? then Panic else Ok(Pipe(first.cmd, next.cmd), next.rest)
  }

  function ParseBacks(cmd: Cmd, ts: seq<Token>): (r: Parse)
    ensures r.Ok? && |r.rest| <= |ts|
    decreases |ts|
  {
    if Starts(ts, "&") then ParseBacks(Back(cmd), ts[1..]) else Ok(cmd, ts)
  }

  function ParseLine(ts: seq<Token>): (r: Parse)
    ensures r.Ok? ==> |r.rest| <= |ts|
    decreases |ts|, 2
  {
    var pipe := ParsePipe(ts);
    if pipe.Panic? then Panic
    else
      var first := ParseBacks(pipe.cmd, pipe.rest);
      if !Starts(first.rest, ";") then first
      else
        var next := ParseLine(first.rest[1..]);
        if next.Panic? then Panic else Ok(List(first.cmd, next.cmd), next.rest)
  }

  // --- the parser itself, over the characters ---

  ghost predicate NoNul(s: string) { NUL !in s }

  function At(s: string, i: nat): char
    requires i <= |s|
  {
    if i < |s| then s[i] else NUL
  }

  method Skip(s: string, pos: nat) returns (p: nat)
    requires pos <= |s|
    ensures pos <= p <= |s| && p == SkipWhite(s, pos) == SkipWhite(s, p)
  {
    p := pos;
    while p < |s| && White(s[p])
      invariant pos <= p <= |s| && SkipWhite(s, p) == SkipWhite(s, pos)
    {
      p := p + 1;
    }
  }

  method Scan(s: string, q: nat) returns (ret: char, eq: nat)
    requires q < |s| && NoNul(s) && !White(s[q])
    ensures eq == TokenEnd(s, q) && ret != NUL
    ensures TokenAt(s, q) == if ret == 'a' then W(Word(q, eq)) else S(ret)
  {
    ret := s[q];
    eq := q;
    match ret {
      case '|' | '(' | ')' | ';' | '&' | '<' => eq := eq + 1;
      case '>' =>
        eq := eq + 1;
        if At(s, eq) == '>' {
          ret := '+';
          eq := eq + 1;
        }
      case _ =>
        ret := 'a';
        while eq < |s| && InWord(s[eq])
          invariant q <= eq <= |s| && WordEnd(s, eq) == WordEnd(s, q)
        {
          eq := eq + 1;
        }
    }
  }

  /** The next token, with the pointers to its first character and past its last one. */
  method Gettoken(s: string, pos: nat) returns (ret: char, q: nat, eq: nat, next: nat)
    requires pos <= |s| && NoNul(s)
    ensures pos <= next <= |s|
    ensures ret == NUL ==> Lex(s, pos) == [] && Lex(s, next) == []
    ensures ret != NUL ==> pos < next && Lex(s, pos) == [if ret == 'a' then W(Word(q, eq)) else S(ret)] + Lex(s, next)
  {
    q := Skip(s, pos);
    SkipStops(s, pos);
    if q == |s| {
      return NUL, q, q, q;
    }
    ret, eq := Scan(s, q);
    next := Skip(s, eq);
    assert Lex(s, next) == Lex(s, eq);
  }

  method Peek(s: string, pos: nat, toks: string) returns (found: bool, next: nat)
    requires pos <= |s| && NoNul(s) && forall c | c in toks :: Symbol(c)
    ensures pos <= next <= |s| && Lex(s, next) == Lex(s, pos) && (next < |s| ==> !White(s[next]))
    ensures found <==> Starts(Lex(s, pos), toks)
  {
    next := Skip(s, pos);
    SkipStops(s, pos);
    found := At(s, next) != NUL && At(s, next) in toks;
  }

  datatype Got = Got(cmd: Cmd, pos: nat) | Fail   // Fail is panic(...)

  /** The parser, run from `pos`, did what `p` says about the tokens from there. */
  ghost predicate Agrees(s: string, pos: nat, r: Got, p: Parse) {
    match p
    case Panic => r.Fail?
    case Ok(cmd, rest) => r.Got? && r.cmd == cmd && pos <= r.pos <= |s| && Lex(s, r.pos) == rest
  }

  method Parseline(s: string, pos: nat) returns (r: Got)
    requires pos <= |s| && NoNul(s)
    ensures Agrees(s, pos, r, ParseLine(Lex(s, pos)))
    decreases |s| - pos, 3
  {
    r := Parsepipe(s, pos);
    if r.Fail? {
      return;
    }
    var cmd, p := r.cmd, r.pos;
    ghost var first := ParseBacks(cmd, Lex(s, p));
    var found;
    while true
      invariant pos <= p <= |s| && ParseBacks(cmd, Lex(s, p)) == first
      decreases |s| - p
    {
      found, p := Peek(s, p, "&");
      if !found {
        break;
      }
      var _, _, _, next := Gettoken(s, p);
      p, cmd := next, Back(cmd);
    }
    assert first == Ok(cmd, Lex(s, p));
    found, p := Peek(s, p, ";");
    if !found {
      return Got(cmd, p);
    }
    var _, _, _, next := Gettoken(s, p);
    r := Parseline(s, next);
    if r.Got? {
      r := Got(List(cmd, r.cmd), r.pos);
    }
  }

  method Parsepipe(s: string, pos: nat) returns (r: Got)
    requires pos <= |s| && NoNul(s)
    ensures Agrees(s, pos, r, ParsePipe(Lex(s, pos)))
    decreases |s| - pos, 2
  {
    r := Parseexec(s, pos);
    if r.Fail? {
      return;
    }
    var cmd := r.cmd;
    var found, p := Peek(s, r.pos, "|");
    if !found {
      return Got(cmd, p);
    }
    var _, _, _, next := Gettoken(s, p);
    r := Parsepipe(s, next);
    if r.Got? {
      r := Got(Pipe(cmd, r.cmd), r.pos);
    }
  }

  /** parseredirs, returning the redirections it wraps around its command. */
  method Parseredirs(rs0: seq<Redirection>, s: string, pos: nat) returns (ok: bool, rs: seq<Redirection>, p: nat)
    requires pos <= |s| && NoNul(s)
    ensures pos <= p <= |s|
    ensures !ok <==> ParseRedirs(rs0, Lex(s, pos)).Missing?
    ensures ok ==> ParseRedirs(rs0, Lex(s, pos)) == Redirs(rs, Lex(s, p))
  {
    rs, p := rs0, pos;
    while true
      invariant pos <= p <= |s| && ParseRedirs(rs, Lex(s, p)) == ParseRedirs(rs0, Lex(s, pos))
      decreases |s| - p
    {
      var found;
      found, p := Peek(s, p, "<>");
      if !found {
        return true, rs, p;
      }
      var tok, _, _, mid := Gettoken(s, p);
      var ret, q, eq, next := Gettoken(s, mid);
      assert Lex(s, p)[1..] == Lex(s, mid);
      if ret != 'a' {
        return false, rs, p;
      }
      assert Lex(s, p)[2..] == Lex(s, next);
      rs, p := rs + [RedirTo(tok, Word(q, eq))], next;
    }
  }

  method Parseblock(s: string, pos: nat) returns (r: Got)
    requires pos <= |s| && NoNul(s)
    ensures !Starts(Lex(s, pos), "(") ==> r == Fail
    ensures Starts(Lex(s, pos), "(") ==> Agrees(s, pos, r, ParseExec(Lex(s, pos)))
    decreases |s| - pos, 0
  {
    var open, start := Peek(s, pos, "(");
    if !open {
      return Fail;
    }
    var _, _, _, next := Gettoken(s, start);
    assert Lex(s, pos)[1..] == Lex(s, next);
    r := Parseline(s, next);
    if r.Fail? {
      return;
    }
    var cmd := r.cmd;
    var found, p := Peek(s, r.pos, ")");
    if !found {
      return Fail;
    }
    var _, _, _, after := Gettoken(s, p);
    assert Lex(s, p)[1..] == Lex(s, after);
    var ok, rs, end := Parseredirs([], s, after);
    return if ok then Got(Wrap(cmd, rs), end) else Fail;
  }

  method Parseexec(s: string, pos: nat) returns (r: Got)
    requires pos <= |s| && NoNul(s)
    ensures Agrees(s, pos, r, ParseExec(Lex(s, pos)))
    decreases |s| - pos, 1
  {
    var found, start := Peek(s, pos, "(");
    if found {
      r := Parseblock(s, start);
      return;
    }
    var argv: seq<Word> := [];
    var ok, rs, p := Parseredirs([], s, start);
    if !ok {
      return Fail;
    }
    ghost var whole := ParseArgs([], rs, Lex(s, p));
    while true
      invariant pos <= p <= |s| && ParseArgs(argv, rs, Lex(s, p)) == whole
      decreases |s| - p
    {
      found, p := Peek(s, p, "|)&;");
      if found {
        break;
      }
      var tok, q, eq, next := Gettoken(s, p);
      if tok == NUL {
        p := next;
        break;
      }
      if tok != 'a' {
        return Fail;
      }
      assert Lex(s, p)[1..] == Lex(s, next);
      argv := argv + [Word(q, eq)];
      if |argv| >= MAXARGS {
        return Fail;
      }
      ok, rs, p := Parseredirs(rs, s, next);
      if !ok {
        return Fail;
      }
    }
    return Got(Wrap(Exec(argv), rs), p);
  }

  // --- every tree can be written down, and only one way of reading it back exists ---

  /** Standard input opened for reading, or standard output for writing (0x201: also to be created). */
  ghost predicate Shaped(r: Redirection) {
    (r.fd == 0 && r.mode == 0) || (r.fd == 1 && r.mode == 0x201)
  }

  /** One redirection. The sign >> is read like >. */
  lemma RedirMeans(rs: seq<Redirection>, c: char, file: Word, rest: seq<Token>)
    requires (c == '<' || c == '>' || c == '+') && !Starts(rest, "<>")
    ensures ParseRedirs(rs, [S(c), W(file)] + rest) ==
      Redirs(rs + [if c == '<' then Redirection(file, 0, 0) else Redirection(file, 0x201, 1)], rest)
  {
    var ts := [S(c), W(file)] + rest;
    assert ts[2..] == rest;
  }

  /** The trees the grammar has: few enough arguments, and the two kinds of redirection. */
  ghost predicate Sayable(c: Cmd) {
    match c
    case Exec(argv) => |argv| < MAXARGS
    case Redir(cmd, to) => Sayable(cmd) && Shaped(to)
    case Pipe(left, right) => Sayable(left) && Sayable(right)
    case List(left, right) => Sayable(left) && Sayable(right)
    case Back(cmd) => Sayable(cmd)
  }

  // Binding strength: 0 a line, 1 a line without ;, 2 a pipeline, 3 a single command.
  function Level(c: Cmd): nat {
    if c.List? then 0 else if c.Back? then 1 else if c.Pipe? then 2 else 3
  }

  function RedirTokens(rs: seq<Redirection>): seq<Token> {
    if rs == [] then []
    else [S(if rs[0].fd == 0 then '<' else '>'), W(rs[0].file)] + RedirTokens(rs[1..])
  }

  function WordTokens(argv: seq<Word>): seq<Token> {
    if argv == [] then [] else [W(argv[0])] + WordTokens(argv[1..])
  }

  /** A tree written as tokens that may stand where something of strength `l` is expected. */
  function Show(l: nat, c: Cmd): seq<Token>
    requires l <= 3
    decreases c, (Level(c) - l) % 4
  {
    if Level(c) == l then
      match c
      case Exec(argv) => WordTokens(argv)
      case Redir(cmd, to) => Show(3, cmd) + RedirTokens([to])
      case Pipe(left, right) => Show(3, left) + [S('|')] + Show(2, right)
      case List(left, right) => Show(1, left) + [S(';')] + Show(0, right)
      case Back(cmd) => Show(1, cmd) + [S('&')]
    else if l == 3 then [S('(')] + Show(0, c) + [S(')')]
    else Show(l + 1, c)
  }

  ghost predicate Follows(l: nat, ts: seq<Token>) {
    || ts == []
    || ts[0] == S(')')
    || (ts[0] == S(';') && l >= 1)
    || (ts[0] == S('&') && l >= 2)
    || (ts[0] == S('|') && l >= 3)
  }

  lemma {:induction false} ReadRedirs(acc: seq<Redirection>, rs: seq<Redirection>, rest: seq<Token>)
    requires (forall i | 0 <= i < |rs| :: Shaped(rs[i])) && !Starts(rest, "<>")
    ensures ParseRedirs(acc, RedirTokens(rs) + rest) == Redirs(acc + rs, rest)
    decreases |rs|
  {
    var ts := RedirTokens(rs) + rest;
    if rs == [] {
      assert ts == rest && acc + rs == acc;
    } else {
      assert ts[2..] == RedirTokens(rs[1..]) + rest;
      assert acc + rs == acc + [rs[0]] + rs[1..];
      ReadRedirs(acc + [rs[0]], rs[1..], rest);
    }
  }

  lemma OneArg(argv: seq<Word>, a: Word, rs: seq<Redirection>, ts: seq<Token>, rest: seq<Token>)
    requires |argv| + 1 < MAXARGS && ParseRedirs([], ts) == Redirs(rs, rest)
    ensures ParseArgs(argv, [], [W(a)] + ts) == ParseArgs(argv + [a], rs, rest)
  {
    assert ([W(a)] + ts)[1..] == ts;
  }

  lemma {:induction false} ReadArgs(argv: seq<Word>, args: seq<Word>, rs: seq<Redirection>, rest: seq<Token>)
    requires args != [] && |argv| + |args| < MAXARGS
    requires (forall i | 0 <= i < |rs| :: Shaped(rs[i])) && Follows(3, rest)
    ensures ParseArgs(argv, [], WordTokens(args) + (RedirTokens(rs) + rest)) == Ok(Wrap(Exec(argv + args), rs), rest)
    decreases |args|
  {
    var tail := RedirTokens(rs) + rest;
    var next := WordTokens(args[1..]) + tail;
    assert WordTokens(args) + tail == [W(args[0])] + next;
    assert argv + args == argv + [args[0]] + args[1..];
    if |args| == 1 {
      assert next == tail && argv + args == argv + [args[0]] && [] + rs == rs;
      ReadRedirs([], rs, rest);
      OneArg(argv, args[0], rs, tail, rest);
    } else {
      OneArg(argv, args[0], [], next, next);
      ReadArgs(argv + [args[0]], args[1..], rs, rest);
    }
  }

  lemma ParsePlain(ts: seq<Token>, rs: seq<Redirection>, rest: seq<Token>)
    requires !Starts(ts, "(") && ParseRedirs([], ts) == Redirs(rs, rest)
    ensures ParseExec(ts) == ParseArgs([], rs, rest)
  {
  }

  lemma ReadSimple(argv: seq<Word>, rs: seq<Redirection>, rest: seq<Token>)
    requires |argv| < MAXARGS && (forall i | 0 <= i < |rs| :: Shaped(rs[i])) && Follows(3, rest)
    ensures ParseExec(WordTokens(argv) + (RedirTokens(rs) + rest)) == Ok(Wrap(Exec(argv), rs), rest)
  {
    var tail := RedirTokens(rs) + rest;
    assert [] + rs == rs && [] + argv == argv;
    if argv == [] {
      assert WordTokens(argv) + tail == tail;
      ReadRedirs([], rs, rest);
      ParsePlain(tail, rs, rest);
    } else {
      var ts := WordTokens(argv) + tail;
      assert ts[0] == W(argv[0]);
      ReadArgs([], argv, rs, rest);
      ParsePlain(ts, [], ts);
    }
  }

  lemma ReadBlock(c: Cmd, ts: seq<Token>, rs: seq<Redirection>, rest: seq<Token>)
    requires (forall i | 0 <= i < |rs| :: Shaped(rs[i])) && Follows(3, rest)
    requires ParseLine(ts) == Ok(c, [S(')')] + (RedirTokens(rs) + rest))
    ensures ParseExec([S('(')] + ts) == Ok(Wrap(c, rs), rest)
  {
    var tail := RedirTokens(rs) + rest;
    assert ([S('(')] + ts)[1..] == ts && ([S(')')] + tail)[1..] == tail && [] + rs == rs;
    ReadRedirs([], rs, rest);
  }

  lemma ShowRedir(c: Cmd, rs: seq<Redirection>, rest: seq<Token>)
    requires c.Redir?
    ensures Show(3, c) + (RedirTokens(rs) + rest) == Show(3, c.cmd) + (RedirTokens([c.to] + rs) + rest)
    ensures Wrap(c.cmd, [c.to] + rs) == Wrap(c, rs)
  {
    assert ([c.to] + rs)[1..] == rs && [c.to][1..] == [];
    assert RedirTokens([c.to] + rs) == RedirTokens([c.to]) + RedirTokens(rs);
  }

  lemma ShowBlock(c: Cmd, tail: seq<Token>)
    requires Level(c) != 3
    ensures Show(3, c) + tail == [S('(')] + (Show(0, c) + ([S(')')] + tail))
  {
  }

  lemma {:induction false} ReadExec(c: Cmd, rs: seq<Redirection>, rest: seq<Token>)
    requires Sayable(c) && (forall i | 0 <= i < |rs| :: Shaped(rs[i])) && Follows(3, rest)
    ensures ParseExec(Show(3, c) + (RedirTokens(rs) + rest)) == Ok(Wrap(c, rs), rest)
    decreases c, (Level(c) - 3) % 4
  {
    var tail := RedirTokens(rs) + rest;
    if c.Exec? {
      ReadSimple(c.argv, rs, rest);
    } else if c.Redir? {
      ShowRedir(c, rs, rest);
      ReadExec(c.cmd, [c.to] + rs, rest);
    } else {
      ShowBlock(c, tail);
      ReadLine(c, [S(')')] + tail);
      ReadBlock(c, Show(0, c) + ([S(')')] + tail), rs, rest);
    }
  }

  lemma ShowPipe(c: Cmd, rest: seq<Token>)
    requires c.Pipe?
    ensures Show(2, c) + rest == Show(3, c.left) + (RedirTokens([]) + ([S('|')] + (Show(2, c.right) + rest)))
  {
    assert RedirTokens([]) == [];
  }

  lemma {:induction false} ReadPipe(c: Cmd, rest: seq<Token>)
    requires Sayable(c) && Follows(2, rest)
    ensures ParsePipe(Show(2, c) + rest) == Ok(c, rest)
    decreases c, (Level(c) - 2) % 4
  {
    var ts := Show(2, c) + rest;
    if c.Pipe? {
      var tail := Show(2, c.right) + rest;
      ShowPipe(c, rest);
      ReadExec(c.left, [], [S('|')] + tail);
      assert ([S('|')] + tail)[1..] == tail;
      ReadPipe(c.right, rest);
    } else {
      assert ts == Show(3, c) + (RedirTokens([]) + rest);
      ReadExec(c, [], rest);
    }
  }

  lemma {:induction false} ReadBacks(c: Cmd, rest: seq<Token>)
    requires Sayable(c) && Follows(2, rest)
    ensures ParsePipe(Show(1, c) + rest).Ok?
    ensures var p := ParsePipe(Show(1, c) + rest); ParseBacks(p.cmd, p.rest) == ParseBacks(c, rest)
    decreases c, (Level(c) - 1) % 4
  {
    var ts := Show(1, c) + rest;
    if c.Back? {
      assert ts == Show(1, c.cmd) + ([S('&')] + rest);
      ReadBacks(c.cmd, [S('&')] + rest);
      assert ([S('&')] + rest)[1..] == rest;
    } else {
      ReadPipe(c, rest);
    }
  }

  lemma {:induction false} ReadLine(c: Cmd, rest: seq<Token>)
    requires Sayable(c) && Follows(0, rest)
    ensures ParseLine(Show(0, c) + rest) == Ok(c, rest)
    decreases c, Level(c) % 4
  {
    var ts := Show(0, c) + rest;
    if c.List? {
      var tail := Show(0, c.right) + rest;
      assert ts == Show(1, c.left) + ([S(';')] + tail);
      ReadBacks(c.left, [S(';')] + tail);
      assert ([S(';')] + tail)[1..] == tail;
      ReadLine(c.right, rest);
    } else {
      ReadBacks(c, rest);
    }
  }

  /** Reading back what was written gives the same tree, with nothing left over. */
  lemma RoundTrip(c: Cmd)
    requires Sayable(c)
    ensures ParseLine(Show(0, c)) == Ok(c, [])
  {
    assert Show(0, c) + [] == Show(0, c);
    ReadLine(c, []);
  }
}
