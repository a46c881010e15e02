/** From characters to tokens and from derivations to command trees, with a printer that inverts both. */
module ShellText {
  import opened Wrappers
  import opened ShellGrammar

  // ---- tokens --------------------------------------------------------------------------------------

  predicate Blank(c: char) { c in " \t\r\n\U{0B}" }

  predicate Symbol(c: char) { c in "<|>&;()" }

  predicate WordChar(c: char) { !Blank(c) && !Symbol(c) }

  function Skip(s: string): (n: nat)
    ensures n <= |s|
    ensures n < |s| ==> !Blank(s[n])
  {
    if s != [] && Blank(s[0]) then 1 + Skip(s[1..]) else 0
  }

  function WordLen(s: string): (n: nat)
    ensures n <= |s|
    ensures (n < |s| ==> !WordChar(s[n])) && forall i :: 0 <= i < n ==> WordChar(s[i])
  {
    if s != [] && WordChar(s[0]) then 1 + WordLen(s[1..]) else 0
  }

  /** The length of the token that s begins with, and the token. */
  function TokenLen(s: string): (n: nat)
    requires s != [] && !Blank(s[0])
    ensures 0 < n <= |s|
  {
    if Symbol(s[0]) then if s[0] == '>' && |s| > 1 && s[1] == '>' then 2 else 1
    else WordLen(s)
  }

  function FirstToken(s: string): Token
    requires s != [] && !Blank(s[0])
  {
    if Symbol(s[0]) then Sym(if TokenLen(s) == 2 then '+' else s[0]) else Word(s[..WordLen(s)])
  }

  function Lex(s: string): seq<Token>
    decreases |s|
  {
    var t := s[Skip(s)..];
    if t == [] then [] else [FirstToken(t)] + Lex(t[TokenLen(t)..])
  }

  lemma {:induction false} SkipPlus(s: string, n: nat)
    requires n <= |s| && forall i :: 0 <= i < n ==> Blank(s[i])
    ensures Skip(s) == n + Skip(s[n..])
  {
    hide Blank;
    if n == 0 {
      assert s[0..] == s;
    } else {
      SkipPlus(s[1..], n - 1);
      assert s[1..][n - 1..] == s[n..];
    }
  }

  lemma LexSkips(s: string, n: nat)
    requires n <= |s| && forall i :: 0 <= i < n ==> Blank(s[i])
    ensures Skip(s) == n + Skip(s[n..]) && Lex(s[n..]) == Lex(s)
  {
    hide Blank, Skip, FirstToken, TokenLen;
    SkipPlus(s, n);
    assert s[n..][Skip(s[n..])..] == s[Skip(s)..];
  }

  // ---- printing tokens ------------------------------------------------------------------------------

  predicate WordOk(w: string) { w != [] && forall i :: 0 <= i < |w| ==> WordChar(w[i]) }

  predicate TokenOk(t: Token) { if t.Word? then WordOk(t.text) else t.c == '+' || Symbol(t.c) }

  function Show(t: Token): string {
    if t.Word? then t.text else if t.c == '+' then ">>" else [t.c]
  }

  /** Tokens with the given text between them, before the first and after the last. */
  function Spaced(gaps: seq<string>, ts: seq<Token>): string
    requires |gaps| == |ts| + 1
  {
    if ts == [] then gaps[0] else gaps[0] + (Show(ts[0]) + Spaced(gaps[1..], ts[1..]))
  }

  predicate AllBlank(s: string) { forall i :: 0 <= i < |s| ==> Blank(s[i]) }

  /** Side by side the two would be read as something else. */
  predicate Joins(a: Token, b: Token) {
    (a.Word? && b.Word?) || (a == Sym('>') && b.Sym? && (b.c == '>' || b.c == '+'))
  }

  /** Blanks anywhere, or none, but something between two tokens that would join. */
  ghost predicate Spacing(gaps: seq<string>, ts: seq<Token>) {
    && |gaps| == |ts| + 1 && (forall i :: 0 <= i < |gaps| ==> AllBlank(gaps[i]))
    && (forall i :: 0 <= i < |ts| - 1 && Joins(ts[i], ts[i + 1]) ==> gaps[i + 1] != [])
  }

  predicate TokensOk(ts: seq<Token>) { forall i :: 0 <= i < |ts| ==> TokenOk(ts[i]) }

  lemma WordLenIs(s: string, n: nat)
    requires n <= |s| && (forall i :: 0 <= i < n ==> WordChar(s[i])) && (n < |s| ==> !WordChar(s[n]))
    ensures WordLen(s) == n
  {
  }

  /** A token is read off the front of a text that does not prolong it. */
  lemma FirstShown(t: Token, rest: string)
    requires TokenOk(t) && (t.Word? && rest != [] ==> !WordChar(rest[0]))
    requires t == Sym('>') && rest != [] ==> rest[0] != '>'
    ensures var s := Show(t) + rest;
            s != [] && !Blank(s[0]) && TokenLen(s) == |Show(t)| && FirstToken(s) == t && s[TokenLen(s)..] == rest
  {
    var s := Show(t) + rest;
    if t.Word? {
      assert forall i :: 0 <= i < |t.text| ==> s[i] == t.text[i];
      WordLenIs(s, |t.text|);
      assert s[..|t.text|] == t.text;
    }
    assert s[|Show(t)|..] == rest;
  }

  /** What follows a token in a spaced text does not prolong it. */
  lemma NothingJoins(t: Token, gaps: seq<string>, ts: seq<Token>)
    requires TokensOk(ts) && |gaps| == |ts| + 1 && AllBlank(gaps[0])
    requires ts != [] && Joins(t, ts[0]) ==> gaps[0] != []
    ensures var rest := Spaced(gaps, ts);
            && (t.Word? && rest != [] ==> !WordChar(rest[0])) && (t == Sym('>') && rest != [] ==> rest[0] != '>')
  {
  }

  /** Spaced in any way that keeps them apart, tokens are read back as they are. */
  lemma {:induction false} LexSpaced(gaps: seq<string>, ts: seq<Token>)
    requires TokensOk(ts) && Spacing(gaps, ts)
    ensures Lex(Spaced(gaps, ts)) == ts
  {
    hide Lex, Spaced, Spacing, Blank, Skip, FirstToken, TokenLen, Show, Joins, WordChar, TokenOk;
    SpacingHead(gaps, ts);
    if ts == [] {
      assert gaps[0] + [] == gaps[0];
      LexGap(gaps[0], []);
      LexNothing();
    } else {
      var more := Spaced(gaps[1..], ts[1..]);
      LexGap(gaps[0], Show(ts[0]) + more);
      NothingJoins(ts[0], gaps[1..], ts[1..]);
      FirstShown(ts[0], more);
      LexOne(Show(ts[0]) + more);
      LexSpaced(gaps[1..], ts[1..]);
      assert ts == [ts[0]] + ts[1..];
    }
  }

  lemma SpacingHead(gaps: seq<string>, ts: seq<Token>)
    requires Spacing(gaps, ts)
    ensures |gaps| == |ts| + 1 && AllBlank(gaps[0])
    ensures ts == [] ==> Spaced(gaps, ts) == gaps[0]
    ensures ts != [] ==> Spaced(gaps, ts) == gaps[0] + (Show(ts[0]) + Spaced(gaps[1..], ts[1..]))
    ensures ts != [] ==> Spacing(gaps[1..], ts[1..]) && AllBlank(gaps[1..][0])
    ensures |ts| > 1 && Joins(ts[0], ts[1..][0]) ==> gaps[1..][0] != []
  {
    hide Joins, AllBlank, Show;
  }

  lemma LexGap(gap: string, s: string)
    requires AllBlank(gap)
    ensures Lex(gap + s) == Lex(s)
  {
    hide Lex, Blank;
    assert forall i :: 0 <= i < |gap| ==> (gap + s)[i] == gap[i];
    LexSkips(gap + s, |gap|);
    assert (gap + s)[|gap|..] == s;
  }

  lemma LexNothing()
    ensures Lex([]) == []
  {
  }

  lemma LexOne(s: string)
    requires s != [] && !Blank(s[0])
    ensures Lex(s) == [FirstToken(s)] + Lex(s[TokenLen(s)..])
  {
    assert s[0..] == s;
  }

  /** Every line is its tokens with blanks around them: no character is lost, none is read twice. */
  lemma {:induction false} LexSpacing(s: string) returns (gaps: seq<string>)
    ensures TokensOk(Lex(s)) && Spacing(gaps, Lex(s)) && s == Spaced(gaps, Lex(s))
    decreases |s|
  {
    hide Lex, Spaced, Blank, Show, TokenLen, FirstToken, Joins, WordChar, Skip;
    var n := Skip(s);
    var t := s[n..];
    SkipIsBlank(s);
    if t == [] {
      gaps := [s];
      assert s[..n] == s;
      OnlyBlanks(s);
    } else {
      var rest := t[TokenLen(t)..];
      var more := LexSpacing(rest);
      gaps := [s[..n]] + more;
      TokenShown(t);
      LexUnfold(s);
      SpacingCons(s[..n], more, FirstToken(t), Lex(rest));
      SpacedCons(s[..n], more, FirstToken(t), Lex(rest));
      assert s == s[..n] + t;
    }
  }

  lemma OnlyBlanks(s: string)
    requires Skip(s) == |s|
    ensures Lex(s) == [] && Spaced([s], []) == s
  {
  }

  lemma SpacingCons(gap: string, gaps: seq<string>, t: Token, ts: seq<Token>)
    requires TokensOk(ts) && Spacing(gaps, ts) && AllBlank(gap) && TokenOk(t)
    requires var rest := Spaced(gaps, ts);
             && (t.Word? && rest != [] ==> !WordChar(rest[0])) && (t == Sym('>') && rest != [] ==> rest[0] != '>')
    ensures TokensOk([t] + ts) && Spacing([gap] + gaps, [t] + ts)
  {
    hide AllBlank, TokenOk, Joins, Spaced, WordChar;
    var gaps', ts' := [gap] + gaps, [t] + ts;
    forall i | 0 <= i < |ts'| - 1 && Joins(ts'[i], ts'[i + 1]) ensures gaps'[i + 1] != [] {
      if i == 0 { FirstNotJoined(t, gaps, ts); } else { assert Joins(ts[i - 1], ts[i]); }
    }
  }

  lemma SpacedCons(gap: string, gaps: seq<string>, t: Token, ts: seq<Token>)
    requires |gaps| == |ts| + 1
    ensures Spaced([gap] + gaps, [t] + ts) == gap + (Show(t) + Spaced(gaps, ts))
  {
    assert ([gap] + gaps)[1..] == gaps && ([t] + ts)[1..] == ts;
  }

  lemma LexUnfold(s: string)
    requires Skip(s) < |s|
    ensures var t := s[Skip(s)..]; Lex(s) == [FirstToken(t)] + Lex(t[TokenLen(t)..])
  {
  }

  lemma SkipIsBlank(s: string)
    ensures AllBlank(s[..Skip(s)])
  {
  }

  /** The token read off a text is spelled by the characters it takes, and takes as many as it can. */
  lemma TokenShown(s: string)
    requires s != [] && !Blank(s[0])
    ensures var t, rest := FirstToken(s), s[TokenLen(s)..];
            && TokenOk(t) && s == Show(t) + rest
            && (t.Word? && rest != [] ==> !WordChar(rest[0])) && (t == Sym('>') && rest != [] ==> rest[0] != '>')
  {
    if Symbol(s[0]) && TokenLen(s) == 2 { assert s[..2] == ">>"; }
  }

  lemma FirstNotJoined(t: Token, gaps: seq<string>, ts: seq<Token>)
    requires TokensOk(ts) && |gaps| == |ts| + 1 && ts != [] && Joins(t, ts[0])
    requires var rest := Spaced(gaps, ts);
             && (t.Word? && rest != [] ==> !WordChar(rest[0])) && (t == Sym('>') && rest != [] ==> rest[0] != '>')
    ensures gaps[0] != []
  {
  }

  /** So the reading is exactly that. */
  lemma LexExactly(s: string, ts: seq<Token>)
    ensures Lex(s) == ts <==> exists gaps :: TokensOk(ts) && Spacing(gaps, ts) && s == Spaced(gaps, ts)
  {
    if Lex(s) == ts {
      var gaps := LexSpacing(s);
    }
    if exists gaps :: TokensOk(ts) && Spacing(gaps, ts) && s == Spaced(gaps, ts) {
      var gaps :| TokensOk(ts) && Spacing(gaps, ts) && s == Spaced(gaps, ts);
      LexSpaced(gaps, ts);
    }
  }

  function NoBlanks(s: string): string {
    if s == [] then [] else (if Blank(s[0]) then [] else [s[0]]) + NoBlanks(s[1..])
  }

  function Spelled(ts: seq<Token>): string { if ts == [] then [] else Show(ts[0]) + Spelled(ts[1..]) }

  lemma {:induction false} NoBlanksAppend(a: string, b: string)
    ensures NoBlanks(a + b) == NoBlanks(a) + NoBlanks(b)
  {
    if a == [] {
      assert a + b == b;
    } else {
      assert (a + b)[1..] == a[1..] + b;
      NoBlanksAppend(a[1..], b);
    }
  }

  lemma {:induction false} NoBlanksIn(s: string)
    ensures AllBlank(s) ==> NoBlanks(s) == []
    ensures (forall i :: 0 <= i < |s| ==> !Blank(s[i])) ==> NoBlanks(s) == s
  {
    if s != [] {
      NoBlanksIn(s[1..]);
      assert s == [s[0]] + s[1..];
    }
  }

  lemma ShownWhole(t: Token)
    requires TokenOk(t)
    ensures NoBlanks(Show(t)) == Show(t)
  {
    NoBlanksIn(Show(t));
  }

  lemma {:induction false} SpacedSpells(gaps: seq<string>, ts: seq<Token>)
    requires TokensOk(ts) && |gaps| == |ts| + 1 && forall i :: 0 <= i < |gaps| ==> AllBlank(gaps[i])
    ensures NoBlanks(Spaced(gaps, ts)) == Spelled(ts)
  {
    hide NoBlanks, AllBlank, Show, TokenOk;
    NoBlanksIn(gaps[0]);
    if ts != [] {
      var more := Spaced(gaps[1..], ts[1..]);
      NoBlanksAppend(gaps[0], Show(ts[0]) + more);
      NoBlanksAppend(Show(ts[0]), more);
      ShownWhole(ts[0]);
      SpacedSpells(gaps[1..], ts[1..]);
    }
  }

  /** A line without its blanks is the spelling of its tokens, one after the other. */
  lemma LexKeepsText(s: string)
    ensures NoBlanks(s) == Spelled(Lex(s))
  {
    var gaps := LexSpacing(s);
    SpacedSpells(gaps, Lex(s));
  }

  // ---- command trees --------------------------------------------------------------------------------

  /** The parsed command; a redirection reads descriptor 0 or writes descriptor 1, and >> is no different from >. */
  datatype Cmd<W> =
    | Exec(args: seq<W>)
    | Redir(cmd: Cmd<W>, file: W, input: bool)
    | PipeCmd(left: Cmd<W>, right: Cmd<W>)
    | List(left: Cmd<W>, right: Cmd<W>)
    | Back(cmd: Cmd<W>)

  function WrapAll(c: Cmd<string>, rs: seq<Redirect>): Cmd<string> {
    if rs == [] then c
    else var r := rs[|rs| - 1]; Redir(WrapAll(c, rs[..|rs| - 1]), r.file, r.sym == '<')
  }

  function BackN(c: Cmd<string>, n: nat): Cmd<string> { if n == 0 then c else Back(BackN(c, n - 1)) }

  function WordsOf(xs: seq<Arg>): seq<string> { if xs == [] then [] else [xs[0].word] + WordsOf(xs[1..]) }

  function RedirsOf(xs: seq<Arg>): seq<Redirect> { if xs == [] then [] else xs[0].redirs + RedirsOf(xs[1..]) }

  function TreeLine(d: Line): Cmd<string> {
    var c := BackN(TreePipe(d.first), d.backs);
    if d.rest.None? then c else List(c, TreeLine(d.rest.value))
  }

  function TreePipe(d: Pipeline): Cmd<string> {
    var c := TreeSimple(d.first);
    if d.rest.None? then c else PipeCmd(c, TreePipe(d.rest.value))
  }

  function TreeSimple(d: Simple): Cmd<string> {
    match d
    case Block(body, after) => WrapAll(TreeLine(body), after)
    case Plain(before, args) => WrapAll(Exec(WordsOf(args)), before + RedirsOf(args))
  }

  // ---- printing trees -----------------------------------------------------------------------------------

  /** Fewer than MAXARGS arguments everywhere, and only words for arguments and files. */
  predicate CmdOk(c: Cmd<string>) {
    match c
    case Exec(args) => |args| < MAXARGS && forall i :: 0 <= i < |args| ==> WordOk(args[i])
    case Redir(d, file, _) => CmdOk(d) && WordOk(file)
    case PipeCmd(l, r) => CmdOk(l) && CmdOk(r)
    case List(l, r) => CmdOk(l) && CmdOk(r)
    case Back(d) => CmdOk(d)
  }

  function Size(c: Cmd<string>): nat {
    match c
    case Exec(_) => 1
    case Redir(d, _, _) => 1 + Size(d)
    case PipeCmd(l, r) => 1 + Size(l) + Size(r)
    case List(l, r) => 1 + Size(l) + Size(r)
    case Back(d) => 1 + Size(d)
  }

  /** The command inside all outer redirections, and those redirections, innermost first. */
  function Core(c: Cmd<string>): (r: Cmd<string>)
    ensures !r.Redir? && (if c.Redir? then Size(r) < Size(c) else r == c)
  {
    if c.Redir? then Core(c.cmd) else c
  }

  function Outer(c: Cmd<string>): seq<Redirect> {
    if c.Redir? then Outer(c.cmd) + [Redirect(if c.input then '<' else '>', c.file)] else []
  }

  function Inside(c: Cmd<string>): (r: Cmd<string>)
    ensures !r.Back? && (if c.Back? then Size(r) < Size(c) else r == c)
  {
    if c.Back? then Inside(c.cmd) else c
  }

  function Depth(c: Cmd<string>): nat { if c.Back? then 1 + Depth(c.cmd) else 0 }

  function PlainArgs(words: seq<string>): seq<Arg> {
    if words == [] then [] else [Arg(words[0], [])] + PlainArgs(words[1..])
  }

  /** The least parenthesised derivation of a tree. */
  function ToLine(c: Cmd<string>): Line
    decreases Size(c), 2
  {
    match c
    case List(l, r) => Line(ToPipe(Inside(l)), Depth(l), Some(ToLine(r)))
    case Back(_) => Line(ToPipe(Inside(c)), Depth(c), None)
    case _ => Line(ToPipe(c), 0, None)
  }

  function ToPipe(c: Cmd<string>): Pipeline
    decreases Size(c), if c.PipeCmd? || c.Exec? || c.Redir? then 1 else 4
  {
    if c.PipeCmd? then Pipeline(ToSimple(c.left), Some(ToPipe(c.right))) else Pipeline(ToSimple(c), None)
  }

  function ToSimple(c: Cmd<string>): Simple
    decreases Size(c), if c.Exec? || c.Redir? then 0 else 3
  {
    match c
    case Exec(args) => Plain([], PlainArgs(args))
    case Redir(_, _, _) =>
      if Core(c).Exec? then Plain(Outer(c), PlainArgs(Core(c).args)) else Block(ToLine(Core(c)), Outer(c))
    case _ => Block(ToLine(c), [])
  }

  lemma WrapOuter(c: Cmd<string>)
    ensures WrapAll(Core(c), Outer(c)) == c && RedirsOk(Outer(c))
  {
  }

  lemma BackInside(c: Cmd<string>)
    ensures BackN(Inside(c), Depth(c)) == c
  {
  }

  lemma PlainArgsAre(words: seq<string>)
    ensures WordsOf(PlainArgs(words)) == words && RedirsOf(PlainArgs(words)) == []
    ensures |PlainArgs(words)| == |words| && ArgsOk(PlainArgs(words))
  {
  }

  lemma CoreOk(c: Cmd<string>)
    requires CmdOk(c)
    ensures CmdOk(Core(c)) && CmdOk(Inside(c))
  {
  }

  /** The derivation printed for a tree means that tree. */
  lemma {:induction false} LineMeans(c: Cmd<string>)
    requires CmdOk(c)
    ensures TreeLine(ToLine(c)) == c && LineOk(ToLine(c))
    decreases Size(c), 2
  {
    match c
    case List(l, r) =>
      CoreOk(l);
      PipeMeans(Inside(l));
      BackInside(l);
      LineMeans(r);
    case Back(_) =>
      CoreOk(c);
      PipeMeans(Inside(c));
      BackInside(c);
    case _ => PipeMeans(c);
  }

  lemma {:induction false} PipeMeans(c: Cmd<string>)
    requires CmdOk(c)
    ensures TreePipe(ToPipe(c)) == c && PipeOk(ToPipe(c))
    decreases Size(c), if c.PipeCmd? || c.Exec? || c.Redir? then 1 else 4
  {
    if c.PipeCmd? {
      SimpleMeans(c.left);
      PipeMeans(c.right);
    } else {
      SimpleMeans(c);
    }
  }

  lemma {:induction false} SimpleMeans(c: Cmd<string>)
    requires CmdOk(c)
    ensures TreeSimple(ToSimple(c)) == c && SimpleOk(ToSimple(c))
    decreases Size(c), if c.Exec? || c.Redir? then 0 else 3
  {
    match c
    case Exec(args) =>
      PlainArgsAre(args);
      assert [] + RedirsOf(PlainArgs(args)) == [];
    case Redir(_, _, _) =>
      CoreOk(c);
      WrapOuter(c);
      if Core(c).Exec? {
        PlainArgsAre(Core(c).args);
        assert Outer(c) + [] == Outer(c);
      } else {
        LineMeans(Core(c));
      }
    case _ => LineMeans(c);
  }

  // ---- every printed token is well formed ------------------------------------------------------------------

  lemma RedirTokensOk(c: Cmd<string>)
    requires CmdOk(c)
    ensures TokensOk(YieldRedirs(Outer(c)))
  {
    if c.Redir? {
      RedirTokensOk(c.cmd);
      YieldRedirsSnoc(Outer(c.cmd), Redirect(if c.input then '<' else '>', c.file));
    }
  }

  lemma {:induction false} YieldRedirsSnoc(rs: seq<Redirect>, r: Redirect)
    ensures YieldRedirs(rs + [r]) == YieldRedirs(rs) + [Sym(r.sym), Word(r.file)]
  {
    if rs == [] {
      assert ([] + [r])[1..] == [];
    } else {
      YieldRedirsSnoc(rs[1..], r);
      assert (rs + [r])[1..] == rs[1..] + [r];
    }
  }

  lemma ArgTokensOk(words: seq<string>)
    requires forall i :: 0 <= i < |words| ==> WordOk(words[i])
    ensures TokensOk(YieldArgs(PlainArgs(words)))
  {
    if words != [] {
      ArgTokensOk(words[1..]);
      assert PlainArgs(words)[1..] == PlainArgs(words[1..]);
    }
  }

  lemma {:induction false} LineTokensOk(c: Cmd<string>)
    requires CmdOk(c)
    ensures TokensOk(YieldLine(ToLine(c)))
    decreases Size(c), 2
  {
    match c
    case List(l, r) =>
      CoreOk(l);
      PipeTokensOk(Inside(l));
      LineTokensOk(r);
    case Back(_) =>
      CoreOk(c);
      PipeTokensOk(Inside(c));
    case _ => PipeTokensOk(c);
  }

  lemma {:induction false} PipeTokensOk(c: Cmd<string>)
    requires CmdOk(c)
    ensures TokensOk(YieldPipe(ToPipe(c)))
    decreases Size(c), if c.PipeCmd? || c.Exec? || c.Redir? then 1 else 4
  {
    if c.PipeCmd? {
      SimpleTokensOk(c.left);
      PipeTokensOk(c.right);
    } else {
      SimpleTokensOk(c);
    }
  }

  lemma {:induction false} SimpleTokensOk(c: Cmd<string>)
    requires CmdOk(c)
    ensures TokensOk(YieldSimple(ToSimple(c)))
    decreases Size(c), if c.Exec? || c.Redir? then 0 else 3
  {
    match c
    case Exec(args) => ArgTokensOk(args);
    case Redir(_, _, _) =>
      CoreOk(c);
      RedirTokensOk(c);
      if Core(c).Exec? { ArgTokensOk(Core(c).args); } else { LineTokensOk(Core(c)); }
    case _ => LineTokensOk(c);
  }

  /** Reading back the text of any command, spaced in any way, gives that command. */
  lemma PrintParses(c: Cmd<string>, gaps: seq<string>)
    requires CmdOk(c) && Spacing(gaps, YieldLine(ToLine(c)))
    ensures var r := ParseCmd(Lex(Spaced(gaps, YieldLine(ToLine(c))))); r.Ok? && TreeLine(r.value) == c
  {
    LineTokensOk(c);
    LexSpaced(gaps, YieldLine(ToLine(c)));
    LineMeans(c);
    Unambiguous(ToLine(c), ToLine(c));
  }
}
