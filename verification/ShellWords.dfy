/** The words of a parsed line: every word of the line is stored once, and each reads as itself after
    sh.c has ended the words in place. */
module ShellWords {
  import opened Shell

  // --- which words a tree, a list of tokens or a line has ---

  ghost function InRedirs(rs: seq<Redirection>, w: Word): nat {
    if rs == [] then 0 else (if rs[0].file == w then 1 else 0) + InRedirs(rs[1..], w)
  }

  ghost function InTokens(ts: seq<Token>, w: Word): nat {
    if ts == [] then 0 else (if ts[0] == W(w) then 1 else 0) + InTokens(ts[1..], w)
  }

  ghost function InTree(c: Cmd, w: Word): nat {
    match c
    case Exec(argv) => multiset(argv)[w]
    case Redir(cmd, to) => InTree(cmd, w) + (if to.file == w then 1 else 0)
    case Pipe(left, right) => InTree(left, w) + InTree(right, w)
    case List(left, right) => InTree(left, w) + InTree(right, w)
    case Back(cmd) => InTree(cmd, w)
  }

  /** A longest run of word characters. */
  ghost predicate Run(s: string, w: Word) {
    && w.start < w.end <= |s|
    && (forall i | w.start <= i < w.end :: InWord(s[i]))
    && (w.start == 0 || !InWord(s[w.start - 1]))
    && (w.end == |s| || !InWord(s[w.end]))
  }

  // --- the lexer finds every run once ---

  ghost predicate Boundary(s: string, i: nat) {
    i == 0 || i >= |s| || !InWord(s[i - 1]) || !InWord(s[i])
  }

  lemma {:induction false} SkipsWhite(s: string, i: nat)
    requires i <= |s|
    ensures forall k | i <= k < SkipWhite(s, i) :: White(s[k])
    decreases |s| - i
  {
    if i < |s| && White(s[i]) { SkipsWhite(s, i + 1); }
  }

  lemma {:induction false} WordReaches(s: string, i: nat)
    requires i <= |s|
    ensures forall k | i <= k < WordEnd(s, i) :: InWord(s[k])
    ensures WordEnd(s, i) == |s| || !InWord(s[WordEnd(s, i)])
    decreases |s| - i
  {
    if i < |s| && InWord(s[i]) { WordReaches(s, i + 1); }
  }

  /** The only run that starts between a boundary and the end of the next token is that token. */
  lemma RunHere(s: string, i: nat, w: Word)
    requires i <= |s| && Boundary(s, i) && SkipWhite(s, i) < |s| && !White(s[SkipWhite(s, i)])
    ensures var q := SkipWhite(s, i); var e := TokenEnd(s, q);
      && Boundary(s, e)
      && (Run(s, w) && i <= w.start < e <==> TokenAt(s, q) == W(w))
  {
    var q := SkipWhite(s, i);
    SkipsWhite(s, i);
    WordReaches(s, q);
    if Run(s, w) && i <= w.start < TokenEnd(s, q) {
      assert InWord(s[w.start]);
    }
  }

  lemma {:induction false} LexFindsRuns(s: string, i: nat, w: Word)
    requires i <= |s| && Boundary(s, i)
    ensures InTokens(Lex(s, i), w) == if Run(s, w) && i <= w.start then 1 else 0
    decreases |s| - i
  {
    var q := SkipWhite(s, i);
    SkipStops(s, i);
    SkipsWhite(s, i);
    assert Run(s, w) ==> InWord(s[w.start]);
    if q < |s| {
      RunHere(s, i, w);
      var e := TokenEnd(s, q);
      LexFindsRuns(s, e, w);
      assert Lex(s, i)[1..] == Lex(s, e);
    }
  }

  // --- the parser neither loses nor doubles a word, and builds only trees that can be written ---

  ghost predicate AllShaped(rs: seq<Redirection>) {
    forall i | 0 <= i < |rs| :: Shaped(rs[i])
  }

  lemma {:induction false} RedirAdded(rs: seq<Redirection>, r: Redirection, w: Word)
    ensures InRedirs(rs + [r], w) == InRedirs(rs, w) + (if r.file == w then 1 else 0)
    decreases |rs|
  {
    if rs == [] {
      assert (rs + [r])[1..] == [];
    } else {
      assert (rs + [r])[1..] == rs[1..] + [r];
      RedirAdded(rs[1..], r, w);
    }
  }

  lemma {:induction false} WrapKeeps(c: Cmd, rs: seq<Redirection>, w: Word)
    requires Sayable(c) && AllShaped(rs)
    ensures InTree(Wrap(c, rs), w) == InTree(c, w) + InRedirs(rs, w) && Sayable(Wrap(c, rs))
    decreases |rs|
  {
    if rs != [] { WrapKeeps(Redir(c, rs[0]), rs[1..], w); }
  }

  lemma {:induction false} RedirsKeep(rs: seq<Redirection>, ts: seq<Token>, w: Word)
    requires AllShaped(rs)
    ensures var p := ParseRedirs(rs, ts); p.Redirs? ==>
      InRedirs(p.list, w) + InTokens(p.rest, w) == InRedirs(rs, w) + InTokens(ts, w) && AllShaped(p.list)
    decreases |ts|
  {
    if Starts(ts, "<>") && |ts| >= 2 && ts[1].W? {
      var r := RedirTo(ts[0].c, ts[1].w);
      RedirAdded(rs, r, w);
      assert ts[1..][1..] == ts[2..];
      assert InTokens(ts, w) == InTokens(ts[2..], w) + (if r.file == w then 1 else 0);
      RedirsKeep(rs + [r], ts[2..], w);
    }
  }

  lemma {:induction false} ArgsKeep(argv: seq<Word>, rs: seq<Redirection>, ts: seq<Token>, w: Word)
    requires |argv| < MAXARGS && AllShaped(rs)
    ensures var p := ParseArgs(argv, rs, ts); p.Ok? ==>
      InTree(p.cmd, w) + InTokens(p.rest, w) == multiset(argv)[w] + InRedirs(rs, w) + InTokens(ts, w) && Sayable(p.cmd)
    decreases |ts|
  {
    if ts == [] || Starts(ts, "|)&;") {
      WrapKeeps(Exec(argv), rs, w);
    } else if ts[0].W? && |argv| + 1 < MAXARGS {
      RedirsKeep(rs, ts[1..], w);
      var more := ParseRedirs(rs, ts[1..]);
      if more.Redirs? {
        ArgsKeep(argv + [ts[0].w], more.list, more.rest, w);
      }
    }
  }

  lemma {:induction false} ExecKeeps(ts: seq<Token>, w: Word)
    ensures var p := ParseExec(ts); p.Ok? ==>
      InTree(p.cmd, w) + InTokens(p.rest, w) == InTokens(ts, w) && Sayable(p.cmd)
    decreases |ts|, 0
  {
    if Starts(ts, "(") {
      LineKeeps(ts[1..], w);
      var block := ParseLine(ts[1..]);
      if block.Ok? && Starts(block.rest, ")") {
        RedirsKeep([], block.rest[1..], w);
        var redirs := ParseRedirs([], block.rest[1..]);
        if redirs.Redirs? {
          WrapKeeps(block.cmd, redirs.list, w);
        }
      }
    } else {
      RedirsKeep([], ts, w);
      var redirs := ParseRedirs([], ts);
      if redirs.Redirs? {
        ArgsKeep([], redirs.list, redirs.rest, w);
      }
    }
  }

  lemma {:induction false} PipeKeeps(ts: seq<Token>, w: Word)
    ensures var p := ParsePipe(ts); p.Ok? ==>
      InTree(p.cmd, w) + InTokens(p.rest, w) == InTokens(ts, w) && Sayable(p.cmd)
    decreases |ts|, 1
  {
    ExecKeeps(ts, w);
    var first := ParseExec(ts);
    if first.Ok? && Starts(first.rest, "|") {
      PipeKeeps(first.rest[1..], w);
    }
  }

  lemma {:induction false} BacksKeep(cmd: Cmd, ts: seq<Token>, w: Word)
    requires Sayable(cmd)
    ensures var p := ParseBacks(cmd, ts);
      InTree(p.cmd, w) + InTokens(p.rest, w) == InTree(cmd, w) + InTokens(ts, w) && Sayable(p.cmd)
    decreases |ts|
  {
    if Starts(ts, "&") { BacksKeep(Back(cmd), ts[1..], w); }
  }

  lemma {:induction false} LineKeeps(ts: seq<Token>, w: Word)
    ensures var p := ParseLine(ts); p.Ok? ==>
      InTree(p.cmd, w) + InTokens(p.rest, w) == InTokens(ts, w) && Sayable(p.cmd)
    decreases |ts|, 2
  {
    PipeKeeps(ts, w);
    var pipe := ParsePipe(ts);
    if pipe.Ok? {
      BacksKeep(pipe.cmd, pipe.rest, w);
      var first := ParseBacks(pipe.cmd, pipe.rest);
      if Starts(first.rest, ";") {
        LineKeeps(first.rest[1..], w);
      }
    }
  }

  /** What a line parses to holds each of its words exactly once, and nothing else. */
  lemma EveryWordOnce(s: string, c: Cmd, w: Word)
    requires ParseLine(Lex(s, 0)) == Ok(c, [])
    ensures InTree(c, w) == if Run(s, w) then 1 else 0
  {
    LineKeeps(Lex(s, 0), w);
    LexFindsRuns(s, 0, w);
  }

  // --- nulterminate ---

  /** A C string in a buffer. */
  ghost function CString(b: seq<char>, i: nat): string
    decreases |b| - i
  {
    if i < |b| && b[i] != NUL then [b[i]] + CString(b, i + 1) else ""
  }

  ghost predicate EndsAt(c: Cmd, k: int) {
    exists w :: InTree(c, w) > 0 && w.end == k
  }

  lemma {:induction false} CStringIs(b: seq<char>, i: nat, e: nat)
    requires i <= e < |b| && b[e] == NUL && forall k | i <= k < e :: b[k] != NUL
    ensures CString(b, i) == b[i..e]
    decreases e - i
  {
    if i < e { CStringIs(b, i + 1, e); }
  }

  /** Ends the words of a tree: the places past their ends become NUL and nothing else changes. */
  method Nulterminate(cmd: Cmd, buf: array<char>)
    requires forall w | InTree(cmd, w) > 0 :: w.end < buf.Length
    modifies buf
    ensures forall k | 0 <= k < buf.Length :: buf[k] == if EndsAt(cmd, k) then NUL else old(buf[k])
    decreases cmd
  {
    match cmd
    case Exec(argv) =>
      forall i | 0 <= i < |argv| ensures argv[i].end < buf.Length { assert InTree(cmd, argv[i]) > 0; }
      var i := 0;
      while i < |argv|
        invariant 0 <= i <= |argv|
        invariant forall k | 0 <= k < buf.Length ::
          buf[k] == if exists j :: 0 <= j < i && argv[j].end == k then NUL else old(buf[k])
      {
        buf[argv[i].end] := NUL;
        i := i + 1;
      }
      forall k | 0 <= k < buf.Length ensures EndsAt(cmd, k) <==> exists j :: 0 <= j < |argv| && argv[j].end == k {
        if EndsAt(cmd, k) {
          var w :| InTree(cmd, w) > 0 && w.end == k;
          assert w in argv;
        }
        if j :| 0 <= j < |argv| && argv[j].end == k {
          assert InTree(cmd, argv[j]) > 0;
        }
      }
    case Redir(sub, to) =>
      assert InTree(cmd, to.file) > 0;
      forall w | InTree(sub, w) > 0 ensures w.end < buf.Length { assert InTree(cmd, w) > 0; }
      Nulterminate(sub, buf);
      buf[to.file.end] := NUL;
      forall k ensures EndsAt(cmd, k) <==> EndsAt(sub, k) || to.file.end == k { RedirEnds(cmd, k); }
    case Pipe(left, right) =>
      Both(cmd, left, right);
      Nulterminate(left, buf);
      Nulterminate(right, buf);
    case List(left, right) =>
      Both(cmd, left, right);
      Nulterminate(left, buf);
      Nulterminate(right, buf);
    case Back(sub) =>
      forall w ensures InTree(cmd, w) == InTree(sub, w) {}
      Nulterminate(sub, buf);
  }

  lemma RedirEnds(cmd: Cmd, k: int)
    requires cmd.Redir?
    ensures EndsAt(cmd, k) <==> EndsAt(cmd.cmd, k) || cmd.to.file.end == k
  {
    if EndsAt(cmd, k) {
      var w :| InTree(cmd, w) > 0 && w.end == k;
    }
    if EndsAt(cmd.cmd, k) {
      var w :| InTree(cmd.cmd, w) > 0 && w.end == k;
      assert InTree(cmd, w) > 0;
    }
    assert InTree(cmd, cmd.to.file) > 0;
  }

  lemma Both(cmd: Cmd, left: Cmd, right: Cmd)
    requires cmd == Pipe(left, right) || cmd == List(left, right)
    ensures forall w :: InTree(cmd, w) == InTree(left, w) + InTree(right, w)
    ensures forall k :: EndsAt(cmd, k) <==> EndsAt(left, k) || EndsAt(right, k)
  {
    forall k ensures EndsAt(cmd, k) <==> EndsAt(left, k) || EndsAt(right, k) {
      if EndsAt(cmd, k) {
        var w :| InTree(cmd, w) > 0 && w.end == k;
      }
      if EndsAt(left, k) {
        var w :| InTree(left, w) > 0 && w.end == k;
        assert InTree(cmd, w) > 0;
      }
      if EndsAt(right, k) {
        var w :| InTree(right, w) > 0 && w.end == k;
        assert InTree(cmd, w) > 0;
      }
    }
  }

  /** The trees the parser can build are exactly those that can be written. */
  lemma Writable(c: Cmd)
    ensures Sayable(c) <==> exists ts :: ParseLine(ts) == Ok(c, [])
  {
    if Sayable(c) {
      RoundTrip(c);
    }
    if ts :| ParseLine(ts) == Ok(c, []) {
      LineKeeps(ts, Word(0, 0));
    }
  }

  // --- parsecmd ---

  /** The line in a buffer: what precedes its first NUL. */
  ghost predicate IsLine(b: seq<char>, s: string) {
    |s| < |b| && s == b[..|s|] && b[|s|] == NUL && NoNul(s)
  }

  method Strlen(buf: array<char>) returns (n: nat)
    requires NUL in buf[..]
    ensures n < buf.Length && IsLine(buf[..], buf[..n])
  {
    ghost var z :| 0 <= z < buf.Length && buf[z] == NUL;
    n := 0;
    while buf[n] != NUL
      invariant n <= z && NUL !in buf[..n]
      decreases z - n
    {
      assert buf[..n + 1] == buf[..n] + [buf[n]];
      n := n + 1;
    }
  }

  /** Words are untouched by the NULs, because each NUL falls where no word has a character. */
  lemma WordReads(s: string, c: Cmd, b: seq<char>, b': seq<char>, w: Word)
    requires ParseLine(Lex(s, 0)) == Ok(c, []) && IsLine(b, s) && |b'| == |b|
    requires forall k | 0 <= k < |b| :: b'[k] == if EndsAt(c, k) then NUL else b[k]
    requires Run(s, w)
    ensures CString(b', w.start) == s[w.start..w.end]
  {
    EveryWordOnce(s, c, w);
    assert EndsAt(c, w.end);
    forall k | w.start <= k < w.end ensures b'[k] == s[k] && b'[k] != NUL {
      assert s[k] in s;
      if EndsAt(c, k) {
        var v :| InTree(c, v) > 0 && v.end == k;
        EveryWordOnce(s, c, v);
      }
    }
    CStringIs(b', w.start, w.end);
    assert b'[w.start..w.end] == s[w.start..w.end];
  }

  /** The whole of parsecmd. It panics exactly when the tokens are not one line; otherwise every word of
      the line is in the tree once and reads, in the changed buffer, as it did in the line. */
  method Parsecmd(buf: array<char>) returns (r: Got, ghost s: string)
    requires NUL in buf[..]
    modifies buf
    ensures IsLine(old(buf[..]), s)
    ensures r.Got? <==> ParseLine(Lex(s, 0)).Ok? && ParseLine(Lex(s, 0)).rest == []
    ensures r.Fail? ==> buf[..] == old(buf[..])
    ensures r.Got? ==> ParseLine(Lex(s, 0)) == Ok(r.cmd, [])
    ensures r.Got? ==> forall w :: InTree(r.cmd, w) == if Run(s, w) then 1 else 0
    ensures r.Got? ==> forall w | Run(s, w) :: CString(buf[..], w.start) == s[w.start..w.end]
    ensures r.Got? ==> forall k | 0 <= k < buf.Length :: buf[k] == if EndsAt(r.cmd, k) then NUL else old(buf[k])
  {
    var n := Strlen(buf);
    var line := buf[..n];
    s := line;
    r := Parseline(line, 0);
    if r.Fail? {
      return;
    }
    var _, p := Peek(line, r.pos, "");
    NothingLeft(line, p);
    if p != n {
      return Fail, s;
    }
    var cmd := r.cmd;
    forall w ensures InTree(cmd, w) == if Run(line, w) then 1 else 0 { EveryWordOnce(line, cmd, w); }
    Nulterminate(cmd, buf);
    forall w | Run(line, w) ensures CString(buf[..], w.start) == line[w.start..w.end] {
      WordReads(line, cmd, old(buf[..]), buf[..], w);
    }
  }

  lemma NothingLeft(s: string, p: nat)
    requires p <= |s| && (p < |s| ==> !White(s[p]))
    ensures Lex(s, p) == [] <==> p == |s|
  {
  }
}
