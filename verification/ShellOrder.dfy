/**
  What a command tree keeps of its line: the words and connectives, read off the tree from left to
  right, are those of the line in their order, and so are the redirections.
 */
module ShellOrder {
  import opened Wrappers
  import opened ShellGrammar
  import opened ShellText

  /** The tree read from left to right: words, | between two sides, ; between two commands, & behind one. */
  function Flat(c: Cmd<string>): seq<Token> {
    match c
    case Exec(args) => WordTokens(args)
    case Redir(d, _, _) => Flat(d)
    case PipeCmd(l, r) => Flat(l) + [Sym('|')] + Flat(r)
    case List(l, r) => Flat(l) + [Sym(';')] + Flat(r)
    case Back(d) => Flat(d) + [Sym('&')]
  }

  function WordTokens(ws: seq<string>): seq<Token> { if ws == [] then [] else [Word(ws[0])] + WordTokens(ws[1..]) }

  /** The tree's redirections: those around a command come after those inside it, the outermost last. */
  function Files(c: Cmd<string>): seq<(string, bool)> {
    match c
    case Exec(_) => []
    case Redir(d, file, input) => Files(d) + [(file, input)]
    case PipeCmd(l, r) => Files(l) + Files(r)
    case List(l, r) => Files(l) + Files(r)
    case Back(d) => Files(d)
  }

  predicate Redirection(t: Token) { t.Sym? && RedirSym(t.c) }

  /** The tokens of a line without its redirections and parentheses. */
  function Bare(ts: seq<Token>): seq<Token> {
    if ts == [] then []
    else if Redirection(ts[0]) then if |ts| < 2 then [] else Bare(ts[2..])
    else (if ts[0] == Sym('(') || ts[0] == Sym(')') then [] else [ts[0]]) + Bare(ts[1..])
  }

  /** The redirections of a line: the file named and whether it is read. */
  function Redirected(ts: seq<Token>): seq<(string, bool)> {
    if ts == [] then []
    else if Redirection(ts[0]) then
      if |ts| < 2 || ts[1].Sym? then [] else [(ts[1].text, ts[0] == Sym('<'))] + Redirected(ts[2..])
    else Redirected(ts[1..])
  }

  /** Every redirection has its file. */
  predicate Whole(ts: seq<Token>) {
    ts != [] ==> if Redirection(ts[0]) then |ts| >= 2 && ts[1].Word? && Whole(ts[2..]) else Whole(ts[1..])
  }

  lemma {:induction false} BareAppend(a: seq<Token>, b: seq<Token>)
    requires Whole(a)
    ensures Bare(a + b) == Bare(a) + Bare(b) && (Whole(b) ==> Whole(a + b))
  {
    hide RedirSym;
    if a == [] {
      assert a + b == b;
    } else if Redirection(a[0]) {
      assert (a + b)[2..] == a[2..] + b;
      BareAppend(a[2..], b);
    } else {
      assert (a + b)[1..] == a[1..] + b;
      BareAppend(a[1..], b);
    }
  }

  lemma {:induction false} RedirectedAppend(a: seq<Token>, b: seq<Token>)
    requires Whole(a)
    ensures Redirected(a + b) == Redirected(a) + Redirected(b)
  {
    hide RedirSym;
    if a == [] {
      assert a + b == b;
    } else if Redirection(a[0]) {
      assert (a + b)[2..] == a[2..] + b;
      RedirectedAppend(a[2..], b);
    } else {
      assert (a + b)[1..] == a[1..] + b;
      RedirectedAppend(a[1..], b);
    }
  }

  /** The tokens ts say the words and connectives fs and the redirections rs. */
  ghost predicate Says(ts: seq<Token>, fs: seq<Token>, rs: seq<(string, bool)>) {
    Whole(ts) && Bare(ts) == fs && Redirected(ts) == rs
  }

  lemma SaysBoth(a: seq<Token>, fa: seq<Token>, ra: seq<(string, bool)>, b: seq<Token>, fb: seq<Token>,
                 rb: seq<(string, bool)>)
    requires Says(a, fa, ra) && Says(b, fb, rb)
    ensures Says(a + b, fa + fb, ra + rb)
  {
    hide Bare, Redirected, Whole;
    BareAppend(a, b);
    RedirectedAppend(a, b);
  }

  lemma SaysSymbol(c: char)
    requires !RedirSym(c)
    ensures Says([Sym(c)], if c == '(' || c == ')' then [] else [Sym(c)], [])
  {
    assert [Sym(c)][1..] == [];
  }

  lemma SaysWord(w: string)
    ensures Says([Word(w)], [Word(w)], [])
  {
    assert [Word(w)][1..] == [];
  }

  // ---- redirections and arguments --------------------------------------------------------------------

  function Named(rs: seq<Redirect>): seq<(string, bool)> {
    if rs == [] then [] else [(rs[0].file, rs[0].sym == '<')] + Named(rs[1..])
  }

  lemma {:induction false} NamedAppend(a: seq<Redirect>, b: seq<Redirect>)
    ensures Named(a + b) == Named(a) + Named(b)
  {
    if a == [] {
      assert a + b == b;
    } else {
      assert (a + b)[1..] == a[1..] + b;
      NamedAppend(a[1..], b);
    }
  }

  lemma {:induction false} RedirsSay(rs: seq<Redirect>)
    requires RedirsOk(rs)
    ensures Says(YieldRedirs(rs), [], Named(rs))
  {
    if rs != [] {
      RedirsSay(rs[1..]);
      var ts := YieldRedirs(rs);
      assert ts[2..] == YieldRedirs(rs[1..]);
    }
  }

  lemma {:induction false} ArgsSay(xs: seq<Arg>)
    requires ArgsOk(xs)
    ensures Says(YieldArgs(xs), WordTokens(WordsOf(xs)), Named(RedirsOf(xs)))
  {
    if xs != [] {
      ArgsSay(xs[1..]);
      RedirsSay(xs[0].redirs);
      NamedAppend(xs[0].redirs, RedirsOf(xs[1..]));
      var w := [Word(xs[0].word)];
      SaysWord(xs[0].word);
      hide Says;
      SaysBoth(w, w, [], YieldRedirs(xs[0].redirs), [], Named(xs[0].redirs));
      SaysBoth(w + YieldRedirs(xs[0].redirs), w + [], [] + Named(xs[0].redirs), YieldArgs(xs[1..]),
               WordTokens(WordsOf(xs[1..])), Named(RedirsOf(xs[1..])));
      assert WordsOf(xs)[1..] == WordsOf(xs[1..]);
      assert WordTokens(WordsOf(xs)) == w + WordTokens(WordsOf(xs)[1..]);
      assert w + [] == w;
      assert [] + Named(xs[0].redirs) == Named(xs[0].redirs);
    }
  }

  /** Wrapping a command in redirections adds them, in order, behind its own. */
  lemma {:induction false} WrapFiles(c: Cmd<string>, rs: seq<Redirect>)
    ensures Flat(WrapAll(c, rs)) == Flat(c) && Files(WrapAll(c, rs)) == Files(c) + Named(rs)
  {
    if rs == [] {
      assert Files(c) + [] == Files(c);
    } else {
      var n := |rs| - 1;
      WrapFiles(c, rs[..n]);
      NamedAppend(rs[..n], [rs[n]]);
      assert rs == rs[..n] + [rs[n]] && [rs[n]][1..] == [];
      assert Named([rs[n]]) == [(rs[n].file, rs[n].sym == '<')];
    }
  }

  lemma {:induction false} BacksFlat(c: Cmd<string>, n: nat)
    ensures Flat(BackN(c, n)) == Flat(c) + Backs(n) && Files(BackN(c, n)) == Files(c)
  {
    if n == 0 {
      assert Flat(c) + Backs(0) == Flat(c);
    } else {
      BacksFlat(c, n - 1);
      assert Backs(n) == Backs(n - 1) + [Sym('&')];
    }
  }

  lemma {:induction false} BacksSay(n: nat)
    ensures Says(Backs(n), Backs(n), [])
  {
    if n == 0 {
    } else {
      hide Says;
      BacksSay(n - 1);
      SaysSymbol('&');
      SaysBoth([Sym('&')], [Sym('&')], [], Backs(n - 1), Backs(n - 1), []);
      assert Backs(n) == [Sym('&')] + Backs(n - 1);
    }
  }

  // ---- commands -----------------------------------------------------------------------------------------

  lemma {:induction false} SimpleSays(d: Simple)
    requires SimpleOk(d)
    ensures Says(YieldSimple(d), Flat(TreeSimple(d)), Files(TreeSimple(d)))
    decreases d, 0
  {
    hide Says, YieldLine, YieldRedirs, YieldArgs, TreeLine, WrapAll, Flat, Files;
    match d
    case Block(body, after) =>
      LineSays(body);
      RedirsSay(after);
      WrapFiles(TreeLine(body), after);
      SaysSymbol('(');
      SaysSymbol(')');
      var fs, rs := Flat(TreeLine(body)), Files(TreeLine(body));
      SaysBoth([Sym('(')], [], [], YieldLine(body), fs, rs);
      SaysBoth([Sym('(')] + YieldLine(body), [] + fs, [] + rs, [Sym(')')], [], []);
      SaysBoth([Sym('(')] + YieldLine(body) + [Sym(')')], [] + fs + [], [] + rs + [], YieldRedirs(after), [],
               Named(after));
      assert [] + fs + [] + [] == fs && [] + rs + [] == rs;
    case Plain(before, args) =>
      RedirsSay(before);
      ArgsSay(args);
      NamedAppend(before, RedirsOf(args));
      WrapFiles(Exec(WordsOf(args)), before + RedirsOf(args));
      ExecFlat(WordsOf(args));
      var ws := WordTokens(WordsOf(args));
      SaysBoth(YieldRedirs(before), [], Named(before), YieldArgs(args), ws, Named(RedirsOf(args)));
      assert [] + ws == ws && [] + Named(before + RedirsOf(args)) == Named(before + RedirsOf(args));
  }

  lemma ExecFlat(ws: seq<string>)
    ensures Flat(Exec(ws)) == WordTokens(ws) && Files(Exec(ws)) == []
  {
  }

  lemma {:induction false} PipeSays(d: Pipeline)
    requires PipeOk(d)
    ensures Says(YieldPipe(d), Flat(TreePipe(d)), Files(TreePipe(d)))
    decreases d, 1
  {
    hide Says, YieldSimple, TreeSimple, SimpleOk;
    SimpleSays(d.first);
    var a, left := YieldSimple(d.first), TreeSimple(d.first);
    if d.rest.None? {
      assert YieldPipe(d) == a + [] == a;
    } else {
      PipeSays(d.rest.value);
      SaysSymbol('|');
      var b, right := YieldPipe(d.rest.value), TreePipe(d.rest.value);
      SaysBoth(a, Flat(left), Files(left), [Sym('|')], [Sym('|')], []);
      SaysBoth(a + [Sym('|')], Flat(left) + [Sym('|')], Files(left) + [], b, Flat(right), Files(right));
      assert a + [Sym('|')] + b == YieldPipe(d) && Files(left) + [] == Files(left);
    }
  }

  lemma {:induction false} LineSays(d: Line)
    requires LineOk(d)
    ensures Says(YieldLine(d), Flat(TreeLine(d)), Files(TreeLine(d)))
    decreases d, 2
  {
    hide Says, YieldPipe, TreePipe, PipeOk, BackN;
    PipeSays(d.first);
    BacksSay(d.backs);
    BacksFlat(TreePipe(d.first), d.backs);
    var c := TreePipe(d.first);
    var a, left := YieldPipe(d.first) + Backs(d.backs), BackN(c, d.backs);
    SaysBoth(YieldPipe(d.first), Flat(c), Files(c), Backs(d.backs), Backs(d.backs), []);
    assert Files(c) + [] == Files(c);
    if d.rest.None? {
      assert YieldLine(d) == a + [] == a;
    } else {
      LineSays(d.rest.value);
      SaysSymbol(';');
      var b, right := YieldLine(d.rest.value), TreeLine(d.rest.value);
      SaysBoth(a, Flat(left), Files(left), [Sym(';')], [Sym(';')], []);
      SaysBoth(a + [Sym(';')], Flat(left) + [Sym(';')], Files(left) + [], b, Flat(right), Files(right));
      assert a + [Sym(';')] + b == YieldLine(d) && Files(left) + [] == Files(left);
    }
  }

  /** For every line that parses: its tree keeps all of its words, connectives and redirections, in order. */
  lemma TreeKeepsOrder(ts: seq<Token>)
    requires ParseCmd(ts).Ok?
    ensures var c := TreeLine(ParseCmd(ts).value); Flat(c) == Bare(ts) && Files(c) == Redirected(ts)
  {
    hide ParseLine, TreeLine, Flat, Files, Bare, Redirected;
    LineSound(ts);
    var d := ParseCmd(ts).value;
    assert YieldLine(d) + [] == YieldLine(d);
    LineSays(d);
  }
}
