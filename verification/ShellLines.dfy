/** Every command can be typed: a tree whose words are to have given texts is what parsecmd makes of
    some line, and the words then read as those texts. */
module ShellLines {
  import opened Shell
  import opened ShellWords

  /** What a word of a tree says. */
  type Texts = Word -> string

  predicate GoodText(t: string) {
    t != "" && forall c | c in t :: InWord(c) && c != NUL
  }

  ghost predicate Speakable(c: Cmd, text: Texts) {
    Sayable(c) && forall w | InTree(c, w) > 0 :: GoodText(text(w))
  }

  // --- a line for a list of tokens ---

  function TokenText(t: Token, text: Texts): string {
    if t.W? then text(t.w) else [t.c]
  }

  /** The tokens, each with a blank after it. */
  function Line(ts: seq<Token>, text: Texts): string {
    if ts == [] then "" else TokenText(ts[0], text) + " " + Line(ts[1..], text)
  }

  ghost predicate Typable(t: Token, text: Texts) {
    if t.W? then GoodText(text(t.w)) else Symbol(t.c)
  }

  function Slice(s: string, w: Word): string {
    if w.start <= w.end <= |s| then s[w.start..w.end] else ""
  }

  /** What the words of the line `s` say. */
  function From(s: string): (read: Texts)
    ensures forall w :: read(w) == Slice(s, w)
  {
    (w: Word) => Slice(s, w)
  }

  /** Tokens that differ only in where their words are; a word that says `text` is where `s` says the same. */
  ghost predicate Alike(s: string, text: Texts, ts: seq<Token>, ts': seq<Token>) {
    |ts| == |ts'| && forall i: nat {:trigger AlikeAt(s, text, ts, ts', i)} :: AlikeAt(s, text, ts, ts', i)
  }

  ghost predicate AlikeAt(s: string, text: Texts, ts: seq<Token>, ts': seq<Token>, i: nat) {
    i < |ts| == |ts'| ==> StandsFor(s, text, ts[i], ts'[i])
  }

  ghost predicate StandsFor(s: string, text: Texts, t: Token, t': Token) {
    if t.W? then t'.W? && Slice(s, t'.w) == text(t.w) else t' == t
  }

  lemma {:induction false} WordEndIs(s: string, i: nat, e: nat)
    requires i <= e <= |s| && (e < |s| ==> !InWord(s[e])) && forall k | i <= k < e :: InWord(s[k])
    ensures WordEnd(s, i) == e
    decreases e - i
  {
    if i < e { WordEndIs(s, i + 1, e); }
  }

  /** Which characters end a word, and which of them are tokens: whitespace and symbols of sh.c. */
  lemma CharacterMeans(u: string, c: char, v: string)
    requires u != "" && v != "" && (forall x | x in u :: InWord(x)) && (forall x | x in v :: InWord(x))
    ensures var s, a, b := u + [c] + v, W(Word(0, |u|)), W(Word(|u| + 1, |u| + 1 + |v|));
      Lex(s, 0) ==
        if c == ' ' || c == '\t' || c == '\r' || c == '\n' || c == '\U{0B}' then [a, b]
        else if c == '<' || c == '|' || c == '>' || c == '&' || c == ';' || c == '(' || c == ')' then [a, S(c), b]
        else [W(Word(0, |s|))]
  {
    var s, m := u + [c] + v, |u|;
    assert forall k | 0 <= k < m :: s[k] == u[k] && u[k] in u;
    assert s[m] == c;
    assert forall k | m < k < |s| :: s[k] == v[k - m - 1] && v[k - m - 1] in v;
    WordEndIs(s, m + 1, |s|);
    LexEnd(s, m + 1);
    if InWord(c) {
      WordEndIs(s, 0, |s|);
      LexEnd(s, 0);
    } else {
      WordEndIs(s, 0, m);
      assert Lex(s, 0) == [W(Word(0, m))] + Lex(s, m);
    }
  }

  /** Two signs > are one token. */
  lemma DoubleSign(s: string, m: nat)
    requires 0 < m && m + 2 < |s| && s[m] == '>' && s[m + 1] == '>'
    requires (forall k | 0 <= k < m :: InWord(s[k])) && (forall k | m + 2 <= k < |s| :: InWord(s[k]))
    ensures Lex(s, 0) == [W(Word(0, m)), S('+'), W(Word(m + 2, |s|))]
  {
    WordEndIs(s, m + 2, |s|);
    LexEnd(s, m + 2);
    SignHere(s, m);
    WordEndIs(s, 0, m);
    assert Lex(s, 0) == [W(Word(0, m))] + Lex(s, m);
  }

  lemma SignHere(s: string, m: nat)
    requires m + 2 <= |s| && s[m] == '>' && s[m + 1] == '>'
    ensures Lex(s, m) == [S('+')] + Lex(s, m + 2)
  {
    assert SkipWhite(s, m) == m && TokenEnd(s, m) == m + 2;
  }

  lemma LexEnd(s: string, q: nat)
    requires q < |s| && InWord(s[q]) && WordEnd(s, q) == |s|
    ensures Lex(s, q) == [W(Word(q, |s|))]
  {
    assert Lex(s, |s|) == [];
  }

  /** One token at the start of what is left of the line. */
  lemma TokenHere(pre: string, t: Token, text: Texts, rest: string)
    requires Typable(t, text)
    ensures
      var s, q := pre + TokenText(t, text) + " " + rest, |pre|;
      var e := q + |TokenText(t, text)|;
      && !White(s[q]) && TokenEnd(s, q) == e
      && StandsFor(s, text, t, TokenAt(s, q))
  {
    var x := TokenText(t, text);
    var s, q := pre + x + " " + rest, |pre|;
    var e := q + |x|;
    assert forall k | 0 <= k < |x| :: s[q + k] == x[k];
    assert s[e] == ' ';
    assert s[q] == x[0];
    if t.W? {
      forall k | q <= k < e ensures InWord(s[k]) { assert s[k] == x[k - q] && x[k - q] in x; }
      WordEndIs(s, q, e);
      assert s[q..e] == x;
    }
  }

  lemma LexStep(s: string, q: nat, e: nat)
    requires q < e < |s| && !White(s[q]) && TokenEnd(s, q) == e && s[e] == ' '
    ensures Lex(s, q) == [TokenAt(s, q)] + Lex(s, e + 1)
  {
    assert SkipWhite(s, q) == q;
    assert SkipWhite(s, e) == SkipWhite(s, e + 1);
    assert Lex(s, e) == Lex(s, e + 1);
  }

  lemma Regroup(pre: string, x: string, rest: string)
    ensures pre + (x + " " + rest) == pre + x + " " + rest
  {
  }

  /** The line is read as the tokens it was made of. */
  lemma {:induction false} LexLine(pre: string, ts: seq<Token>, text: Texts)
    requires forall i | 0 <= i < |ts| :: Typable(ts[i], text)
    ensures var s := pre + Line(ts, text); Alike(s, text, ts, Lex(s, |pre|))
    decreases |ts|
  {
    var s := pre + Line(ts, text);
    if ts == [] {
      assert s == pre && SkipWhite(s, |pre|) == |s|;
    } else {
      var x, rest := TokenText(ts[0], text), Line(ts[1..], text);
      var e := |pre| + |x|;
      var pre' := pre + x + " ";
      Regroup(pre, x, rest);
      TokenHere(pre, ts[0], text, rest);
      LexStep(s, |pre|, e);
      LexLine(pre', ts[1..], text);
      AlikeCons(s, text, ts, TokenAt(s, |pre|), Lex(s, e + 1));
    }
  }

  lemma AlikeCons(s: string, text: Texts, ts: seq<Token>, t: Token, ts': seq<Token>)
    requires ts != [] && Alike(s, text, ts[1..], ts')
    requires StandsFor(s, text, ts[0], t)
    ensures Alike(s, text, ts, [t] + ts')
  {
    var all := [t] + ts';
    forall i: nat ensures AlikeAt(s, text, ts, all, i) {
      if 0 < i < |ts| { assert AlikeAt(s, text, ts[1..], ts', i - 1); }
    }
  }

  lemma {:induction false} LineHasNoNul(ts: seq<Token>, text: Texts)
    requires forall i | 0 <= i < |ts| :: Typable(ts[i], text)
    ensures NoNul(Line(ts, text))
    decreases |ts|
  {
    if ts != [] {
      LineHasNoNul(ts[1..], text);
      var x := TokenText(ts[0], text);
      forall c | c in x ensures c != NUL {}
    }
  }

  // --- trees that say the same ---

  ghost predicate SameWords(text: Texts, ws: seq<Word>, read: Texts, ws': seq<Word>) {
    |ws| == |ws'| && forall i | 0 <= i < |ws| :: read(ws'[i]) == text(ws[i])
  }

  /** The same tree, with words that read as they should. */
  ghost predicate Says(text: Texts, c: Cmd, read: Texts, c': Cmd) {
    match c
    case Exec(argv) => c'.Exec? && SameWords(text, argv, read, c'.argv)
    case Redir(cmd, to) =>
      && c'.Redir? && Says(text, cmd, read, c'.cmd)
      && c'.to == to.(file := c'.to.file) && read(c'.to.file) == text(to.file)
    case Pipe(left, right) => c'.Pipe? && Says(text, left, read, c'.left) && Says(text, right, read, c'.right)
    case List(left, right) => c'.List? && Says(text, left, read, c'.left) && Says(text, right, read, c'.right)
    case Back(cmd) => c'.Back? && Says(text, cmd, read, c'.cmd)
  }

  lemma AlikeSplit(s: string, text: Texts, a: seq<Token>, b: seq<Token>, ts': seq<Token>)
    requires Alike(s, text, a + b, ts')
    ensures |ts'| == |a| + |b| && ts' == ts'[..|a|] + ts'[|a|..]
    ensures Alike(s, text, a, ts'[..|a|]) && Alike(s, text, b, ts'[|a|..])
  {
    var ts, a', b' := a + b, ts'[..|a|], ts'[|a|..];
    forall i: nat ensures AlikeAt(s, text, a, a', i) { assert AlikeAt(s, text, ts, ts', i); }
    forall i: nat ensures AlikeAt(s, text, b, b', i) { assert AlikeAt(s, text, ts, ts', |a| + i); }
  }

  lemma {:induction false} RetellWords(s: string, text: Texts, ws: seq<Word>, ts': seq<Token>) returns (ws': seq<Word>)
    requires Alike(s, text, WordTokens(ws), ts')
    ensures WordTokens(ws') == ts' && SameWords(text, ws, From(s), ws')
    decreases |ws|
  {
    if ws == [] {
      ws' := [];
    } else {
      assert WordTokens(ws) == [W(ws[0])] + WordTokens(ws[1..]);
      AlikeSplit(s, text, [W(ws[0])], WordTokens(ws[1..]), ts');
      assert AlikeAt(s, text, WordTokens(ws), ts', 0);
      var more := RetellWords(s, text, ws[1..], ts'[1..]);
      ws' := [ts'[0].w] + more;
      assert ws'[1..] == more;
    }
  }

  /** Tokens like those of a tree are those of a tree that says the same. */
  lemma {:induction false} Retell(s: string, text: Texts, l: nat, c: Cmd, ts': seq<Token>) returns (c': Cmd)
    requires l <= 3 && Alike(s, text, Show(l, c), ts')
    ensures Show(l, c') == ts' && Says(text, c, From(s), c') && Level(c') == Level(c)
    decreases c, (Level(c) - l) % 4
  {
    if Level(c) == l {
      match c
      case Exec(argv) =>
        var argv' := RetellWords(s, text, argv, ts');
        c' := Exec(argv');
      case Redir(cmd, to) =>
        var n := |Show(3, cmd)|;
        RedirShown(to);
        AlikeSplit(s, text, Show(3, cmd), RedirTokens([to]), ts');
        var cmd' := Retell(s, text, 3, cmd, ts'[..n]);
        c' := RetoldRedir(s, text, c, cmd', ts');
      case Pipe(left, right) =>
        var n := |Show(3, left)|;
        AlikeTwo(s, text, Show(3, left), '|', Show(2, right), ts');
        var left' := Retell(s, text, 3, left, ts'[..n]);
        var right' := Retell(s, text, 2, right, ts'[n + 1..]);
        c' := RetoldPipe(s, text, c, left', right', ts');
      case List(left, right) =>
        var n := |Show(1, left)|;
        AlikeTwo(s, text, Show(1, left), ';', Show(0, right), ts');
        var left' := Retell(s, text, 1, left, ts'[..n]);
        var right' := Retell(s, text, 0, right, ts'[n + 1..]);
        c' := RetoldList(s, text, c, left', right', ts');
      case Back(cmd) =>
        assert Show(1, c) + [] == Show(1, c);
        AlikeTwo(s, text, Show(1, cmd), '&', [], ts');
        var cmd' := Retell(s, text, 1, cmd, ts'[..|ts'| - 1]);
        c' := RetoldBack(s, text, c, cmd', ts');
    } else if l == 3 {
      AlikeInside(s, text, Show(0, c), ts');
      c' := Retell(s, text, 0, c, ts'[1..|ts'| - 1]);
    } else {
      c' := Retell(s, text, l + 1, c, ts');
    }
  }

  lemma RedirShown(r: Redirection)
    ensures RedirTokens([r]) == [S(if r.fd == 0 then '<' else '>'), W(r.file)]
  {
    assert RedirTokens([r]) == [S(if r.fd == 0 then '<' else '>'), W(r.file)] + RedirTokens([]);
  }

  lemma RetoldRedir(s: string, text: Texts, c: Cmd, cmd': Cmd, ts': seq<Token>) returns (c': Cmd)
    requires c.Redir? && Says(text, c.cmd, From(s), cmd')
    requires Show(3, cmd') <= ts' && Alike(s, text, RedirTokens([c.to]), ts'[|Show(3, cmd')|..])
    ensures Show(3, c') == ts' && Says(text, c, From(s), c') && c'.Redir?
  {
    var n, to := |Show(3, cmd')|, c.to;
    RedirShown(to);
    var end := ts'[n..];
    assert AlikeAt(s, text, RedirTokens([to]), end, 0) && AlikeAt(s, text, RedirTokens([to]), end, 1);
    assert end[0] == RedirTokens([to])[0] && end[1].W? && Slice(s, end[1].w) == text(to.file);
    c' := Redir(cmd', to.(file := end[1].w));
    RedirShown(c'.to);
    assert ts' == Show(3, cmd') + end;
  }

  lemma RetoldPipe(s: string, text: Texts, c: Cmd, left': Cmd, right': Cmd, ts': seq<Token>) returns (c': Cmd)
    requires c.Pipe? && Says(text, c.left, From(s), left') && Says(text, c.right, From(s), right')
    requires ts' == Show(3, left') + [S('|')] + Show(2, right')
    ensures Show(2, c') == ts' && Says(text, c, From(s), c') && c'.Pipe?
  {
    c' := Pipe(left', right');
  }

  lemma RetoldList(s: string, text: Texts, c: Cmd, left': Cmd, right': Cmd, ts': seq<Token>) returns (c': Cmd)
    requires c.List? && Says(text, c.left, From(s), left') && Says(text, c.right, From(s), right')
    requires ts' == Show(1, left') + [S(';')] + Show(0, right')
    ensures Show(0, c') == ts' && Says(text, c, From(s), c') && c'.List?
  {
    c' := List(left', right');
  }

  lemma RetoldBack(s: string, text: Texts, c: Cmd, cmd': Cmd, ts': seq<Token>) returns (c': Cmd)
    requires c.Back? && Says(text, c.cmd, From(s), cmd') && ts' == Show(1, cmd') + [S('&')]
    ensures Show(1, c') == ts' && Says(text, c, From(s), c') && c'.Back?
  {
    c' := Back(cmd');
  }

  lemma AlikeInside(s: string, text: Texts, a: seq<Token>, ts': seq<Token>)
    requires Alike(s, text, [S('(')] + a + [S(')')], ts')
    ensures |ts'| == |a| + 2 && ts' == [S('(')] + ts'[1..|a| + 1] + [S(')')] && Alike(s, text, a, ts'[1..|a| + 1])
  {
    assert [S('(')] + a + [S(')')] + [] == [S('(')] + a + [S(')')];
    AlikeTwo(s, text, [S('(')] + a, ')', [], ts');
    AlikeSplit(s, text, [S('(')], a, ts'[..|a| + 1]);
    assert ts'[..|a| + 1][1..] == ts'[1..|a| + 1];
    assert AlikeAt(s, text, [S('(')] + a + [S(')')], ts', 0);
  }

  lemma AlikeTwo(s: string, text: Texts, a: seq<Token>, sep: char, b: seq<Token>, ts': seq<Token>)
    requires Alike(s, text, a + [S(sep)] + b, ts')
    ensures |ts'| == |a| + 1 + |b| && ts' == ts'[..|a|] + [S(sep)] + ts'[|a| + 1..]
    ensures Alike(s, text, a, ts'[..|a|]) && Alike(s, text, b, ts'[|a| + 1..])
  {
    AlikeSplit(s, text, a + [S(sep)], b, ts');
    AlikeSplit(s, text, a, [S(sep)], ts'[..|a| + 1]);
    assert ts'[..|a| + 1][..|a|] == ts'[..|a|];
    assert AlikeAt(s, text, a + [S(sep)] + b, ts', |a|);
  }

  // --- every tree has a line ---

  ghost predicate AllTypable(ts: seq<Token>, text: Texts) {
    forall i | 0 <= i < |ts| :: Typable(ts[i], text)
  }

  lemma {:induction false} WordsTypable(ws: seq<Word>, text: Texts)
    requires forall w | w in ws :: GoodText(text(w))
    ensures AllTypable(WordTokens(ws), text)
    decreases |ws|
  {
    if ws != [] {
      assert ws[0] in ws;
      WordsTypable(ws[1..], text);
    }
  }

  lemma {:induction false} ShowTypable(l: nat, c: Cmd, text: Texts)
    requires l <= 3 && Speakable(c, text)
    ensures AllTypable(Show(l, c), text)
    decreases c, (Level(c) - l) % 4
  {
    if Level(c) == l {
      match c
      case Exec(argv) =>
        forall w | w in argv ensures GoodText(text(w)) { assert InTree(c, w) > 0; }
        WordsTypable(argv, text);
      case Redir(cmd, to) =>
        Parts(c, cmd, text);
        assert InTree(c, to.file) > 0;
        ShowTypable(3, cmd, text);
        RedirShown(to);
      case Pipe(left, right) =>
        Parts(c, left, text);
        Parts(c, right, text);
        ShowTypable(3, left, text);
        ShowTypable(2, right, text);
      case List(left, right) =>
        Parts(c, left, text);
        Parts(c, right, text);
        ShowTypable(1, left, text);
        ShowTypable(0, right, text);
      case Back(cmd) =>
        Parts(c, cmd, text);
        ShowTypable(1, cmd, text);
    } else {
      ShowTypable(if l == 3 then 0 else l + 1, c, text);
    }
  }

  lemma Parts(c: Cmd, part: Cmd, text: Texts)
    requires Speakable(c, text) && Sayable(part) && forall w :: InTree(part, w) <= InTree(c, w)
    ensures Speakable(part, text)
  {
  }

  lemma {:induction false} SaysSayable(text: Texts, c: Cmd, read: Texts, c': Cmd)
    requires Sayable(c) && Says(text, c, read, c')
    ensures Sayable(c')
    decreases c
  {
    match c
    case Exec(argv) =>
    case Redir(cmd, to) => SaysSayable(text, cmd, read, c'.cmd);
    case Pipe(left, right) =>
      SaysSayable(text, left, read, c'.left);
      SaysSayable(text, right, read, c'.right);
    case List(left, right) =>
      SaysSayable(text, left, read, c'.left);
      SaysSayable(text, right, read, c'.right);
    case Back(cmd) => SaysSayable(text, cmd, read, c'.cmd);
  }

  /** The line that `c` is typed as parses to the same tree, with words that say what they should. */
  lemma CanBeTyped(c: Cmd, text: Texts) returns (c': Cmd)
    requires Speakable(c, text)
    ensures
      var s := Line(Show(0, c), text);
      NoNul(s) && ParseLine(Lex(s, 0)) == Ok(c', []) && Says(text, c, From(s), c')
  {
    var ts := Show(0, c);
    var s := Line(ts, text);
    ShowTypable(0, c, text);
    LineHasNoNul(ts, text);
    LexLine("", ts, text);
    assert "" + s == s;
    c' := Retell(s, text, 0, c, Lex(s, 0));
    SaysSayable(text, c, From(s), c');
    RoundTrip(c');
  }

  // --- and parsecmd reads it ---

  /** What the words of a tree say in a buffer, as C strings. */
  ghost function Stored(b: seq<char>): (read: Texts)
    ensures forall w :: read(w) == CString(b, w.start)
  {
    (w: Word) => CString(b, w.start)
  }

  lemma {:induction false} Reread(text: Texts, c: Cmd, read: Texts, c': Cmd, read': Texts)
    requires Says(text, c, read, c') && forall w | InTree(c', w) > 0 :: read'(w) == read(w)
    ensures Says(text, c, read', c')
    decreases c
  {
    match c
    case Exec(argv) =>
      forall i | 0 <= i < |argv| ensures read'(c'.argv[i]) == text(argv[i]) { assert InTree(c', c'.argv[i]) > 0; }
    case Redir(cmd, to) =>
      assert InTree(c', c'.to.file) > 0;
      Below(c', c'.cmd);
      Reread(text, cmd, read, c'.cmd, read');
    case Pipe(left, right) =>
      Below(c', c'.left);
      Below(c', c'.right);
      Reread(text, left, read, c'.left, read');
      Reread(text, right, read, c'.right, read');
    case List(left, right) =>
      Below(c', c'.left);
      Below(c', c'.right);
      Reread(text, left, read, c'.left, read');
      Reread(text, right, read, c'.right, read');
    case Back(cmd) =>
      Below(c', c'.cmd);
      Reread(text, cmd, read, c'.cmd, read');
  }

  lemma Below(c: Cmd, part: Cmd)
    requires forall w :: InTree(part, w) <= InTree(c, w)
    ensures forall w | InTree(part, w) > 0 :: InTree(c, w) > 0
  {
  }

  lemma OneLine(b: seq<char>, s: string, t: string)
    requires IsLine(b, s) && IsLine(b, t)
    ensures s == t
  {
    assert forall i | 0 <= i < |s| :: b[i] == s[i] && s[i] in s;
    assert forall i | 0 <= i < |t| :: b[i] == t[i] && t[i] in t;
    assert |s| == |t|;
  }

  /** Types the line of a tree into a buffer and parses it: out comes the tree, and its words, as C strings
      in the buffer, are the texts. */
  method Type(c: Cmd, text: Texts) returns (buf: array<char>, r: Got)
    requires Speakable(c, text)
    ensures r.Got? && Says(text, c, Stored(buf[..]), r.cmd)
  {
    var line := Line(Show(0, c), text);
    ghost var c' := CanBeTyped(c, text);
    buf := new char[|line| + 1](i => if 0 <= i < |line| then line[i] else NUL);
    assert buf[..][|line|] == NUL;
    assert IsLine(buf[..], line);
    ghost var b0 := buf[..];
    ghost var s;
    r, s := Parsecmd(buf);
    OneLine(b0, s, line);
    forall w | InTree(c', w) > 0 ensures Stored(buf[..])(w) == From(line)(w) { assert Run(line, w); }
    Reread(text, c, From(line), c', Stored(buf[..]));
  }
}
