/**
  The shell's parser as it works on a line: a position that every function advances, trees
  whose arguments and file names are spans of the line, and the pass that ends each of them
  with a NUL in place.
 */
module Shell {
  import opened ShellGrammar
  import opened ShellText

  datatype Span = Span(lo: nat, hi: nat)
  datatype RedirSpan = RedirSpan(file: Span, input: bool)
  datatype Parsed = Tree(cmd: Cmd<Span>) | Panic(error: Error)
  datatype Redirs = Redirs(list: seq<RedirSpan>) | RedirPanic(error: Error)

  // ---- spans -----------------------------------------------------------------------------------

  function Slice(s: string, p: Span): string { if p.lo <= p.hi <= |s| then s[p.lo..p.hi] else [] }

  /** A maximal run of word characters. */
  predicate WordSpan(s: string, p: Span) {
    && p.lo < p.hi <= |s| && (forall i :: p.lo <= i < p.hi ==> WordChar(s[i]))
    && (p.hi < |s| ==> !WordChar(s[p.hi]))
  }

  function Slices(s: string, ps: seq<Span>): seq<string> {
    seq(|ps|, i requires 0 <= i < |ps| => Slice(s, ps[i]))
  }

  /** The tree with the text of every span. */
  function TextOf(s: string, c: Cmd<Span>): Cmd<string> {
    match c
    case Exec(args) => Exec(Slices(s, args))
    case Redir(d, file, input) => Redir(TextOf(s, d), Slice(s, file), input)
    case PipeCmd(l, r) => PipeCmd(TextOf(s, l), TextOf(s, r))
    case List(l, r) => List(TextOf(s, l), TextOf(s, r))
    case Back(d) => Back(TextOf(s, d))
  }

  predicate SpansOk(s: string, c: Cmd<Span>) {
    match c
    case Exec(args) => forall i :: 0 <= i < |args| ==> WordSpan(s, args[i])
    case Redir(d, file, _) => SpansOk(s, d) && WordSpan(s, file)
    case PipeCmd(l, r) => SpansOk(s, l) && SpansOk(s, r)
    case List(l, r) => SpansOk(s, l) && SpansOk(s, r)
    case Back(d) => SpansOk(s, d)
  }

  function WrapSpans(c: Cmd<Span>, rs: seq<RedirSpan>): Cmd<Span> {
    if rs == [] then c
    else var r := rs[|rs| - 1]; Redir(WrapSpans(c, rs[..|rs| - 1]), r.file, r.input)
  }

  /** The spans stand for those redirections. */
  ghost predicate StandFor(s: string, rs: seq<RedirSpan>, ds: seq<Redirect>) {
    && |rs| == |ds|
    && forall i :: 0 <= i < |rs| ==>
         WordSpan(s, rs[i].file) && Slice(s, rs[i].file) == ds[i].file && rs[i].input == (ds[i].sym == '<')
  }

  lemma {:induction false} WrapText(s: string, c: Cmd<Span>, rs: seq<RedirSpan>, ds: seq<Redirect>)
    requires StandFor(s, rs, ds) && SpansOk(s, c)
    ensures TextOf(s, WrapSpans(c, rs)) == WrapAll(TextOf(s, c), ds) && SpansOk(s, WrapSpans(c, rs))
  {
    if rs != [] {
      WrapText(s, c, rs[..|rs| - 1], ds[..|ds| - 1]);
    }
  }

  // ---- tokens ------------------------------------------------------------------------------------

  function Kind(t: Token): char { if t.Word? then 'a' else t.c }

  /** The token's first character is one of the given symbols. */
  predicate Starts(ts: seq<Token>, toks: string) {
    ts != [] && ts[0].Sym? && (if ts[0].c == '+' then '>' else ts[0].c) in toks
  }

  lemma FirstStarts(s: string, toks: string)
    requires s != [] && !Blank(s[0]) && forall c :: c in toks ==> Symbol(c)
    ensures Starts([FirstToken(s)], toks) <==> s[0] in toks
  {
  }

  lemma LexStep(s: string, p: nat)
    requires p <= |s| && (p < |s| ==> !Blank(s[p]))
    ensures p == |s| ==> Lex(s[p..]) == []
    ensures p < |s| ==> Lex(s[p..]) == [FirstToken(s[p..])] + Lex(s[p + TokenLen(s[p..])..])
  {
    var t := s[p..];
    assert Skip(t) == 0 && t[0..] == t;
    if p < |s| {
      assert t[TokenLen(t)..] == s[p + TokenLen(t)..];
    }
  }

  lemma ShownAt(s: string, q: nat, eq: nat)
    requires q < |s| && !Blank(s[q]) && eq == q + TokenLen(s[q..])
    ensures s[q..eq] == Show(FirstToken(s[q..]))
  {
    var t := s[q..];
    TokenShown(t);
    assert s[q..eq] == t[..TokenLen(t)] && t == t[..TokenLen(t)] + t[TokenLen(t)..];
  }

  class Parser {
    const s: string
    var pos: nat

    ghost predicate Valid()
      reads this
    {
      pos <= |s| && '\0' !in s
    }

    /** The tokens still to be read. */
    ghost function Rest(): seq<Token>
      requires pos <= |s|
      reads this
    {
      Lex(s[pos..])
    }

    constructor (s: string)
      requires '\0' !in s
      ensures Valid() && this.s == s && pos == 0 && Rest() == Lex(s)
    {
      this.s := s;
      pos := 0;
      new;
      assert s[0..] == s;
    }

    /** The character at a position, or the NUL at the end. */
    function Char(p: nat): char { if p < |s| then s[p] else '\0' }

    method SkipBlanks()
      requires Valid()
      modifies this`pos
      ensures Valid() && old(pos) <= pos && Rest() == old(Rest()) && (pos < |s| ==> !Blank(s[pos]))
      ensures AllBlank(s[old(pos)..pos])
    {
      hide Blank, Lex;
      while pos < |s| && Blank(s[pos])
        invariant old(pos) <= pos <= |s| && forall i :: old(pos) <= i < pos ==> Blank(s[i])
      {
        pos := pos + 1;
      }
      LexSkips(s[old(pos)..], pos - old(pos));
      assert s[old(pos)..][pos - old(pos)..] == s[pos..];
    }

    method Peek(toks: string) returns (b: bool)
      requires Valid() && forall c :: c in toks ==> Symbol(c)
      modifies this`pos
      ensures Valid() && old(pos) <= pos && Rest() == old(Rest()) && b == Starts(Rest(), toks)
      ensures Rest() == [] <==> pos == |s|
    {
      SkipBlanks();
      LexStep(s, pos);
      if pos < |s| { FirstStarts(s[pos..], toks); }
      b := Char(pos) != '\0' && Char(pos) in toks;
    }

    method Gettoken() returns (tok: char, q: nat, eq: nat)
      requires Valid()
      modifies this`pos
      ensures Valid() && old(pos) <= pos
      ensures old(Rest()) == [] ==> tok == '\0' && Rest() == []
      ensures tok == 'a' <==> old(Rest()) != [] && old(Rest())[0].Word?
      ensures tok == '\0' <==> old(Rest()) == []
      ensures old(Rest()) != [] ==> old(pos) < pos && tok == Kind(old(Rest())[0]) && Rest() == old(Rest())[1..]
      ensures old(Rest()) != [] && old(Rest())[0].Word? ==>
                WordSpan(s, Span(q, eq)) && old(Rest())[0].text == Slice(s, Span(q, eq))
      ensures old(pos) <= q <= eq <= pos && AllBlank(s[old(pos)..q]) && AllBlank(s[eq..pos])
      ensures s[q..eq] == if old(Rest()) == [] then [] else Show(old(Rest())[0])
      ensures pos < |s| ==> !Blank(s[pos])
    {
      hide Blank, Symbol, FirstToken, TokenLen, Lex, WordSpan, Show;
      SkipBlanks();
      q := pos;
      LexStep(s, q);
      tok := Scan();
      eq := pos;
      if q < |s| { ShownAt(s, q, eq); }
      assert q < |s| ==> old(Rest())[1..] == Lex(s[pos..]);
      SkipBlanks();
    }

    /** gettoken's switch, at a character that is not blank: to the end of the token. */
    method Scan() returns (tok: char)
      requires Valid() && (pos < |s| ==> !Blank(s[pos]))
      modifies this`pos
      ensures Valid()
      ensures old(pos) == |s| ==> tok == '\0' && pos == |s|
      ensures old(pos) < |s| ==> pos == old(pos) + TokenLen(s[old(pos)..]) && tok == Kind(FirstToken(s[old(pos)..]))
      ensures tok == 'a' <==> old(pos) < |s| && FirstToken(s[old(pos)..]).Word?
      ensures tok == '\0' <==> old(pos) == |s|
      ensures old(pos) < |s| && FirstToken(s[old(pos)..]).Word? ==>
                WordSpan(s, Span(old(pos), pos)) && FirstToken(s[old(pos)..]).text == s[old(pos)..pos]
    {
      ghost var t := s[pos..];
      tok := Char(pos);
      if tok == '\0' {
      } else if tok == '>' {
        pos := pos + 1;
        if Char(pos) == '>' {
          tok := '+';
          pos := pos + 1;
        }
      } else if Symbol(tok) {
        pos := pos + 1;
      } else {
        tok := 'a';
        ScanWord();
        WordLenIs(t, pos - old(pos));
        assert t[..pos - old(pos)] == s[old(pos)..pos];
      }
    }

    method ScanWord()
      requires Valid()
      modifies this`pos
      ensures Valid() && old(pos) <= pos && (forall i :: old(pos) <= i < pos ==> WordChar(s[i]))
      ensures pos < |s| ==> !WordChar(s[pos])
    {
      hide Blank, Symbol;
      while pos < |s| && !Blank(s[pos]) && !Symbol(s[pos])
        invariant old(pos) <= pos <= |s| && forall i :: old(pos) <= i < pos ==> WordChar(s[i])
      {
        pos := pos + 1;
      }
    }
  
    // ---- the functions of the grammar -----------------------------------------------------------

    /** What a parsing function owes its caller: the tree of the derivation found, or the panic. */
    ghost predicate Delivers(r: Parsed, tree: Cmd<string>, rest: seq<Token>)
      requires pos <= |s|
      reads this
    {
      r.Tree? && TextOf(s, r.cmd) == tree && SpansOk(s, r.cmd) && Rest() == rest
    }

    method Parseredirs() returns (r: Redirs)
      requires Valid()
      modifies this`pos
      ensures Valid() && old(pos) <= pos
      ensures match ParseRedirs(old(Rest()))
              case Ok(ds, rest) => r.Redirs? && StandFor(s, r.list, ds) && Rest() == rest
              case Fail(e) => r == RedirPanic(e)
    {
      hide Lex, Blank, Symbol, WordSpan, ParseRedirs;
      var list := [];
      ghost var ds: seq<Redirect> := [];
      Angles();
      var more := Peek("<>");
      assert ParseRedirs(old(Rest())) == BeforeRedirs([], ParseRedirs(Rest())) by { NoneBefore(ParseRedirs(Rest())); }
      while more
        invariant Valid() && old(pos) <= pos && more == Starts(Rest(), "<>") && StandFor(s, list, ds)
        invariant ParseRedirs(old(Rest())) == BeforeRedirs(ds, ParseRedirs(Rest()))
        decreases |s| - pos, more
      {
        ghost var ts := Rest();
        assert ts[0].Sym? && RedirSym(ts[0].c) by { AngleIsRedir(ts); }
        var tok, _, _ := Gettoken();
        var word, q, eq := Gettoken();
        if word != 'a' {
          NotAWord(ts);
          return RedirPanic(MissingFile);
        }
        OneRedir(ds, ts);
        StandForMore(s, list, ds, Span(q, eq), tok, ts[1].text);
        list := list + [RedirSpan(Span(q, eq), tok == '<')];
        ds := ds + [Redirect(ts[0].c, ts[1].text)];
        assert Rest() == ts[2..];
        more := Peek("<>");
      }
      NoMoreRedirs(ds, Rest());
      return Redirs(list);
    }

    /** parseexec's loop over words and the redirections behind them. */
    method Parseargs() returns (r: ArgsResult)
      requires Valid()
      modifies this`pos
      ensures Valid() && old(pos) <= pos
      ensures match ParseArgs(old(Rest()), 0)
              case Ok(xs, rest) =>
                r.Args? && WordsAre(s, r.words, WordsOf(xs)) && StandFor(s, r.list, RedirsOf(xs)) && Rest() == rest
              case Fail(e) => r == ArgsPanic(e)
    {
      hide Lex, Blank, Symbol, WordSpan, Slice, ParseRedirs, ParseArgs, WordsAre, StandFor, WordsOf, RedirsOf;
      Stops();
      var words, list := [], [];
      ghost var xs: seq<Arg> := [];
      NoArgsYet(s, ParseArgs(Rest(), 0));
      var stop := Peek("|)&;");
      while !stop
        invariant Valid() && old(pos) <= pos && stop == Starts(Rest(), "|)&;") && |words| == |xs| < MAXARGS
        invariant WordsAre(s, words, WordsOf(xs)) && StandFor(s, list, RedirsOf(xs))
        invariant ParseArgs(old(Rest()), 0) == BeforeArgs(xs, ParseArgs(Rest(), |xs|))
        decreases |s| - pos, !stop
      {
        ghost var ts := Rest();
        var tok, q, eq := Gettoken();
        if tok == '\0' {
          break;
        }
        OneArg(xs, ts);
        if tok != 'a' {
          return ArgsPanic(Syntax);
        }
        words := words + [Span(q, eq)];
        if |words| >= MAXARGS {
          return ArgsPanic(TooManyArgs);
        }
        var rr := Parseredirs();
        if rr.RedirPanic? {
          return ArgsPanic(rr.error);
        }
        ghost var x := Arg(ts[0].text, ParseRedirs(ts[1..]).value);
        MoreArgs(s, words[..|words| - 1], Span(q, eq), list, rr.list, xs, x);
        assert words[..|words| - 1] + [Span(q, eq)] == words;
        list := list + rr.list;
        xs := xs + [x];
        stop := Peek("|)&;");
      }
      EndOfArgs(xs, Rest());
      return Args(words, list);
    }

    method Parseexec() returns (r: Parsed)
      requires Valid()
      modifies this`pos
      ensures Valid() && old(pos) <= pos
      ensures match ParseSimple(old(Rest()))
              case Ok(d, rest) => Delivers(r, TreeSimple(d), rest)
              case Fail(e) => r == Panic(e)
      decreases |s| - pos, 1
    {
      hide Lex, Symbol, ParseRedirs, ParseArgs, ParseLine, WordsAre, StandFor, TreeLine, TextOf, SpansOk, WrapAll,
           WrapSpans, WordsOf, RedirsOf;
      OneSymbol();
      var block := Peek("(");
      StartsWith(Rest(), '(');
      if block {
        r := Parseblock();
        return;
      }
      var before := Parseredirs();
      if before.RedirPanic? {
        return Panic(before.error);
      }
      ghost var more := Rest();
      var args := Parseargs();
      if args.ArgsPanic? {
        return Panic(args.error);
      }
      ExecText(s, args.words, before.list, args.list, ParseRedirs(old(Rest())).value, ParseArgs(more, 0).value);
      return Tree(WrapSpans(Exec(args.words), before.list + args.list));
    }

    method Parseblock() returns (r: Parsed)
      requires Valid() && At(Rest(), '(')
      modifies this`pos
      ensures Valid() && old(pos) <= pos
      ensures match ParseSimple(old(Rest()))
              case Ok(d, rest) => Delivers(r, TreeSimple(d), rest)
              case Fail(e) => r == Panic(e)
      decreases |s| - pos, 0
    {
      hide Lex, Symbol, ParseRedirs, ParseArgs, ParseLine, StandFor, TreeLine, TextOf, SpansOk, WrapAll, WrapSpans;
      OneSymbol();
      var _, _, _ := Gettoken();
      var body := Parseline();
      if body.Panic? {
        return body;
      }
      ghost var more := Rest();
      var closed := Peek(")");
      StartsWith(Rest(), ')');
      if !closed {
        return Panic(MissingParen);
      }
      var _, _, _ := Gettoken();
      var after := Parseredirs();
      if after.RedirPanic? {
        return Panic(after.error);
      }
      WrapText(s, body.cmd, after.list, ParseRedirs(more[1..]).value);
      return Tree(WrapSpans(body.cmd, after.list));
    }

    method Parsepipe() returns (r: Parsed)
      requires Valid()
      modifies this`pos
      ensures Valid() && old(pos) <= pos
      ensures match ParsePipe(old(Rest()))
              case Ok(d, rest) => Delivers(r, TreePipe(d), rest)
              case Fail(e) => r == Panic(e)
      decreases |s| - pos, 2
    {
      hide Lex, Symbol, ParseSimple, TreeSimple;
      OneSymbol();
      r := Parseexec();
      if r.Panic? {
        return;
      }
      var bar := Peek("|");
      StartsWith(Rest(), '|');
      if bar {
        var _, _, _ := Gettoken();
        var right := Parsepipe();
        if right.Panic? {
          return right;
        }
        r := Tree(PipeCmd(r.cmd, right.cmd));
      }
    }

    method Parseline() returns (r: Parsed)
      requires Valid()
      modifies this`pos
      ensures Valid() && old(pos) <= pos
      ensures match ParseLine(old(Rest()))
              case Ok(d, rest) => Delivers(r, TreeLine(d), rest)
              case Fail(e) => r == Panic(e)
      decreases |s| - pos, 3
    {
      hide Lex, Symbol, ParsePipe, TreePipe, CountBacks;
      OneSymbol();
      r := Parsepipe();
      if r.Panic? {
        return;
      }
      ghost var more, p := Rest(), TextOf(s, r.cmd);
      r := Parsebacks(r.cmd);
      var semi := Peek(";");
      StartsWith(Rest(), ';');
      if semi {
        var _, _, _ := Gettoken();
        var right := Parseline();
        if right.Panic? {
          return right;
        }
        r := Tree(List(r.cmd, right.cmd));
      }
    }

    /** parseline's loop over &. */
    method Parsebacks(c: Cmd<Span>) returns (r: Parsed)
      requires Valid() && SpansOk(s, c)
      modifies this`pos
      ensures Valid() && old(pos) <= pos
      ensures Delivers(r, BackN(TextOf(s, c), CountBacks(old(Rest()))), old(Rest())[CountBacks(old(Rest()))..])
    {
      hide Lex, Symbol;
      OneSymbol();
      r := Tree(c);
      ghost var n := 0;
      var more := Peek("&");
      StartsWith(Rest(), '&');
      while more
        invariant Valid() && old(pos) <= pos && more == At(Rest(), '&') && n <= |old(Rest())|
        invariant Delivers(r, BackN(TextOf(s, c), n), old(Rest())[n..])
        invariant CountBacks(old(Rest())) == n + CountBacks(Rest())
        decreases |s| - pos, more
      {
        var _, _, _ := Gettoken();
        r := Tree(Back(r.cmd));
        n := n + 1;
        more := Peek("&");
        StartsWith(Rest(), '&');
      }
    }
  }

  lemma OneSymbol()
    ensures Symbol('(') && Symbol(')') && Symbol('|') && Symbol('&') && Symbol(';')
    ensures forall c :: c in "(" || c in ")" || c in "|" || c in "&" || c in ";" ==> Symbol(c)
  {
  }

  lemma StartsWith(ts: seq<Token>, c: char)
    requires c != '>'
    ensures Starts(ts, [c]) <==> At(ts, c) && c != '+'
  {
  }

  lemma ExecText(s: string, words: seq<Span>, before: seq<RedirSpan>, list: seq<RedirSpan>, ds: seq<Redirect>,
                 xs: seq<Arg>)
    requires WordsAre(s, words, WordsOf(xs)) && StandFor(s, before, ds) && StandFor(s, list, RedirsOf(xs))
    ensures var c := WrapSpans(Exec(words), before + list);
            TextOf(s, c) == TreeSimple(Plain(ds, xs)) && SpansOk(s, c)
  {
    StandForBoth(s, before, ds, list, RedirsOf(xs));
    WrapText(s, Exec(words), before + list, ds + RedirsOf(xs));
  }

  datatype ArgsResult = Args(words: seq<Span>, list: seq<RedirSpan>) | ArgsPanic(error: Error)

  ghost predicate WordsAre(s: string, ps: seq<Span>, words: seq<string>) {
    Slices(s, ps) == words && forall i :: 0 <= i < |ps| ==> WordSpan(s, ps[i])
  }

  function BeforeArgs(xs: seq<Arg>, r: Result<seq<Arg>>): Result<seq<Arg>> {
    match r
    case Ok(more, rest) => Ok(xs + more, rest)
    case Fail(e) => Fail(e)
  }

  lemma Stops()
    ensures forall c :: c in "|)&;" ==> Symbol(c)
  {
  }

  lemma NoArgsYet(s: string, r: Result<seq<Arg>>)
    ensures BeforeArgs([], r) == r && WordsAre(s, [], WordsOf([])) && StandFor(s, [], RedirsOf([]))
  {
    if r.Ok? { assert [] + r.value == r.value; }
  }

  /** One turn of the loop, seen from the token ts[0] that it read. */
  lemma OneArg(xs: seq<Arg>, ts: seq<Token>)
    requires ts != [] && !Starts(ts, "|)&;")
    ensures !ts[0].Word? ==> ParseArgs(ts, |xs|) == Fail(Syntax)
    ensures ts[0].Word? && |xs| + 1 >= MAXARGS ==> ParseArgs(ts, |xs|) == Fail(TooManyArgs)
    ensures ts[0].Word? && |xs| + 1 < MAXARGS ==>
              match ParseRedirs(ts[1..])
              case Fail(e) => ParseArgs(ts, |xs|) == Fail(e)
              case Ok(rs, more) =>
                BeforeArgs(xs, ParseArgs(ts, |xs|)) == BeforeArgs(xs + [Arg(ts[0].text, rs)], ParseArgs(more, |xs| + 1))
  {
    assert !Stop(ts[0]);
    if ts[0].Word? && |xs| + 1 < MAXARGS {
      ArgUnfolds(ts, |xs|);
      if ParseRedirs(ts[1..]).Ok? {
        var x := Arg(ts[0].text, ParseRedirs(ts[1..]).value);
        Regroup(xs, x, ParseArgs(ParseRedirs(ts[1..]).rest, |xs| + 1));
      }
      hide ParseArgs, ParseRedirs, BeforeArgs;
    }
  }

  lemma ArgUnfolds(ts: seq<Token>, argc: nat)
    requires ts != [] && ts[0].Word? && argc + 1 < MAXARGS
    ensures match ParseRedirs(ts[1..])
            case Fail(e) => ParseArgs(ts, argc) == Fail(e)
            case Ok(rs, more) => ParseArgs(ts, argc) == BeforeArgs([Arg(ts[0].text, rs)], ParseArgs(more, argc + 1))
  {
  }

  lemma Regroup(xs: seq<Arg>, x: Arg, r: Result<seq<Arg>>)
    ensures BeforeArgs(xs, BeforeArgs([x], r)) == BeforeArgs(xs + [x], r)
  {
    if r.Ok? { assert xs + ([x] + r.value) == (xs + [x]) + r.value; }
  }

  lemma EndOfArgs(xs: seq<Arg>, ts: seq<Token>)
    requires ts == [] || Starts(ts, "|)&;")
    ensures BeforeArgs(xs, ParseArgs(ts, |xs|)) == Ok(xs, ts)
  {
    assert xs + [] == xs;
  }

  lemma {:induction false} WordsOfSnoc(xs: seq<Arg>, x: Arg)
    ensures WordsOf(xs + [x]) == WordsOf(xs) + [x.word]
  {
    if xs == [] {
      assert [] + [x] == [x];
    } else {
      WordsOfSnoc(xs[1..], x);
      assert (xs + [x])[1..] == xs[1..] + [x];
    }
  }

  lemma {:induction false} RedirsOfSnoc(xs: seq<Arg>, x: Arg)
    ensures RedirsOf(xs + [x]) == RedirsOf(xs) + x.redirs
  {
    if xs == [] {
      assert ([] + [x])[1..] == [] && x.redirs + [] == x.redirs;
    } else {
      RedirsOfSnoc(xs[1..], x);
      assert (xs + [x])[1..] == xs[1..] + [x];
      assert xs[0].redirs + (RedirsOf(xs[1..]) + x.redirs) == (xs[0].redirs + RedirsOf(xs[1..])) + x.redirs;
    }
  }

  lemma MoreWords(s: string, words: seq<Span>, p: Span, texts: seq<string>)
    requires WordsAre(s, words, texts) && WordSpan(s, p)
    ensures WordsAre(s, words + [p], texts + [Slice(s, p)])
  {
  }

  lemma StandForBoth(s: string, list: seq<RedirSpan>, ds: seq<Redirect>, list': seq<RedirSpan>, ds': seq<Redirect>)
    requires StandFor(s, list, ds) && StandFor(s, list', ds')
    ensures StandFor(s, list + list', ds + ds')
  {
    hide WordSpan, Slice;
  }

  lemma MoreArgs(s: string, words: seq<Span>, p: Span, list: seq<RedirSpan>, rs: seq<RedirSpan>, xs: seq<Arg>, x: Arg)
    requires WordsAre(s, words, WordsOf(xs)) && StandFor(s, list, RedirsOf(xs))
    requires WordSpan(s, p) && Slice(s, p) == x.word && StandFor(s, rs, x.redirs)
    ensures WordsAre(s, words + [p], WordsOf(xs + [x])) && StandFor(s, list + rs, RedirsOf(xs + [x]))
  {
    hide WordsAre, StandFor, WordsOf, RedirsOf, WordSpan, Slice;
    WordsOfSnoc(xs, x);
    RedirsOfSnoc(xs, x);
    MoreWords(s, words, p, WordsOf(xs));
    StandForBoth(s, list, RedirsOf(xs), rs, x.redirs);
  }

  /** The redirections ds and then whatever r says. */
  function BeforeRedirs(ds: seq<Redirect>, r: Result<seq<Redirect>>): Result<seq<Redirect>> {
    match r
    case Ok(more, rest) => Ok(ds + more, rest)
    case Fail(e) => Fail(e)
  }

  lemma Angles()
    ensures forall c :: c in "<>" ==> Symbol(c)
  {
  }

  lemma NoneBefore(r: Result<seq<Redirect>>)
    ensures BeforeRedirs([], r) == r
  {
    if r.Ok? { assert [] + r.value == r.value; }
  }

  lemma AngleIsRedir(ts: seq<Token>)
    ensures Starts(ts, "<>") <==> ts != [] && ts[0].Sym? && RedirSym(ts[0].c)
  {
  }

  lemma NotAWord(ts: seq<Token>)
    requires ts != [] && ts[0].Sym? && RedirSym(ts[0].c) && (|ts| < 2 || !ts[1].Word?)
    ensures ParseRedirs(ts) == Fail(MissingFile)
  {
  }

  lemma OneRedir(ds: seq<Redirect>, ts: seq<Token>)
    requires |ts| >= 2 && ts[0].Sym? && RedirSym(ts[0].c) && ts[1].Word?
    ensures BeforeRedirs(ds, ParseRedirs(ts))
         == BeforeRedirs(ds + [Redirect(ts[0].c, ts[1].text)], ParseRedirs(ts[2..]))
  {
    hide ParseRedirs, BeforeRedirs;
    var d, r := Redirect(ts[0].c, ts[1].text), ParseRedirs(ts[2..]);
    RedirUnfolds(ts);
    RegroupRedirs(ds, d, r);
  }

  lemma RedirUnfolds(ts: seq<Token>)
    requires |ts| >= 2 && ts[0].Sym? && RedirSym(ts[0].c) && ts[1].Word?
    ensures ParseRedirs(ts) == BeforeRedirs([Redirect(ts[0].c, ts[1].text)], ParseRedirs(ts[2..]))
  {
  }

  lemma RegroupRedirs(ds: seq<Redirect>, d: Redirect, r: Result<seq<Redirect>>)
    ensures BeforeRedirs(ds, BeforeRedirs([d], r)) == BeforeRedirs(ds + [d], r)
  {
    if r.Ok? { assert ds + ([d] + r.value) == (ds + [d]) + r.value; }
  }

  lemma NoMoreRedirs(ds: seq<Redirect>, ts: seq<Token>)
    requires !Starts(ts, "<>")
    ensures BeforeRedirs(ds, ParseRedirs(ts)) == Ok(ds, ts)
  {
    assert ds + [] == ds;
  }

  lemma StandForMore(s: string, list: seq<RedirSpan>, ds: seq<Redirect>, p: Span, c: char, text: string)
    requires StandFor(s, list, ds) && WordSpan(s, p) && Slice(s, p) == text
    ensures StandFor(s, list + [RedirSpan(p, c == '<')], ds + [Redirect(c, text)])
  {
  }

  // ---- NUL termination ------------------------------------------------------------------------------

  /** Some argument or file name of the tree ends just before i. */
  predicate EndsAt(c: Cmd<Span>, i: int) {
    match c
    case Exec(args) => exists k :: 0 <= k < |args| && args[k].hi == i
    case Redir(d, file, _) => EndsAt(d, i) || file.hi == i
    case PipeCmd(l, r) => EndsAt(l, i) || EndsAt(r, i)
    case List(l, r) => EndsAt(l, i) || EndsAt(r, i)
    case Back(d) => EndsAt(d, i)
  }

  /** The C string at a pointer. */
  function CStr(b: seq<char>, i: nat): string
    decreases |b| - i
  {
    if i >= |b| || b[i] == '\0' then [] else [b[i]] + CStr(b, i + 1)
  }

  function CStrs(b: seq<char>, ps: seq<Span>): seq<string> {
    seq(|ps|, i requires 0 <= i < |ps| => CStr(b, ps[i].lo))
  }

  /** What the program sees: every argument and file name read as a C string. */
  function ReadBack(b: seq<char>, c: Cmd<Span>): Cmd<string> {
    match c
    case Exec(args) => Exec(CStrs(b, args))
    case Redir(d, file, input) => Redir(ReadBack(b, d), CStr(b, file.lo), input)
    case PipeCmd(l, r) => PipeCmd(ReadBack(b, l), ReadBack(b, r))
    case List(l, r) => List(ReadBack(b, l), ReadBack(b, r))
    case Back(d) => Back(ReadBack(b, d))
  }

  lemma {:induction false} CStrIs(b: seq<char>, s: string, lo: nat, hi: nat)
    requires lo <= hi < |b| && hi <= |s| && b[hi] == '\0' && forall i :: lo <= i < hi ==> b[i] == s[i] != '\0'
    ensures CStr(b, lo) == s[lo..hi]
    decreases hi - lo
  {
    if lo < hi {
      CStrIs(b, s, lo + 1, hi);
      assert s[lo..hi] == [s[lo]] + s[lo + 1..hi];
    }
  }

  /** Words end only where no word goes on, so the NULs fall between them. */
  lemma {:induction false} EndsBetween(s: string, c: Cmd<Span>, i: int)
    requires SpansOk(s, c) && EndsAt(c, i)
    ensures 0 <= i <= |s| && (i < |s| ==> !WordChar(s[i]))
  {
    match c
    case Exec(_) =>
    case Redir(d, file, _) => if file.hi != i { EndsBetween(s, d, i); }
    case PipeCmd(l, r) => if EndsAt(l, i) { EndsBetween(s, l, i); } else { EndsBetween(s, r, i); }
    case List(l, r) => if EndsAt(l, i) { EndsBetween(s, l, i); } else { EndsBetween(s, r, i); }
    case Back(d) => EndsBetween(s, d, i);
  }

  /** The buffer has a NUL at every end and still every character of every word. */
  ghost predicate Terminated(b: seq<char>, s: string, c: Cmd<Span>) {
    && |b| > |s| && (forall i :: 0 <= i <= |s| && EndsAt(c, i) ==> b[i] == '\0')
    && (forall i :: 0 <= i < |s| && WordChar(s[i]) ==> b[i] == s[i])
  }

  lemma {:induction false} TextReadBack(b: seq<char>, s: string, c: Cmd<Span>)
    requires '\0' !in s && SpansOk(s, c) && Terminated(b, s, c)
    ensures ReadBack(b, c) == TextOf(s, c)
  {
    match c
    case Exec(args) =>
      forall k | 0 <= k < |args| ensures CStr(b, args[k].lo) == Slice(s, args[k]) {
        assert EndsAt(c, args[k].hi);
        CStrIs(b, s, args[k].lo, args[k].hi);
      }
      assert CStrs(b, args) == Slices(s, args);
    case Redir(d, file, _) =>
      assert EndsAt(c, file.hi);
      CStrIs(b, s, file.lo, file.hi);
      TextReadBack(b, s, d);
    case PipeCmd(l, r) =>
      TextReadBack(b, s, l);
      TextReadBack(b, s, r);
    case List(l, r) =>
      TextReadBack(b, s, l);
      TextReadBack(b, s, r);
    case Back(d) => TextReadBack(b, s, d);
  }

  /** Every span ends inside a buffer of n characters. */
  predicate Fits(c: Cmd<Span>, n: nat) {
    match c
    case Exec(args) => forall k :: 0 <= k < |args| ==> args[k].hi < n
    case Redir(d, file, _) => Fits(d, n) && file.hi < n
    case PipeCmd(l, r) => Fits(l, n) && Fits(r, n)
    case List(l, r) => Fits(l, n) && Fits(r, n)
    case Back(d) => Fits(d, n)
  }

  lemma SpansFit(s: string, c: Cmd<Span>, n: nat)
    requires SpansOk(s, c) && |s| < n
    ensures Fits(c, n)
  {
  }

  method Nulterminate(c: Cmd<Span>, buf: array<char>)
    requires Fits(c, buf.Length)
    modifies buf
    ensures forall i :: 0 <= i < buf.Length ==> buf[i] == if EndsAt(c, i) then '\0' else old(buf[i])
  {
    match c
    case Exec(args) =>
      var i := 0;
      while i < |args|
        invariant 0 <= i <= |args|
        invariant forall j :: 0 <= j < buf.Length ==>
                    buf[j] == if exists k :: 0 <= k < i && args[k].hi == j then '\0' else old(buf[j])
      {
        buf[args[i].hi] := '\0';
        i := i + 1;
      }
    case Redir(d, file, _) =>
      Nulterminate(d, buf);
      buf[file.hi] := '\0';
    case PipeCmd(l, r) =>
      Nulterminate(l, buf);
      Nulterminate(r, buf);
    case List(l, r) =>
      Nulterminate(l, buf);
      Nulterminate(r, buf);
    case Back(d) => Nulterminate(d, buf);
  }

  method Strlen(buf: array<char>) returns (n: nat)
    requires '\0' in buf[..]
    ensures n < buf.Length && buf[n] == '\0' && '\0' !in buf[..n]
  {
    n := 0;
    while buf[n] != '\0'
      invariant n < buf.Length && '\0' !in buf[..n] && exists k :: n <= k < buf.Length && buf[k] == '\0'
      decreases buf.Length - n
    {
      n := n + 1;
    }
  }

  /**
    Parse the line in buf: a tree whose strings, read back from the buffer afterwards, are
    exactly those of the line's derivation; or a panic, when the line has none.
   */
  method Parsecmd(buf: array<char>) returns (r: Parsed, ghost line: string)
    requires '\0' in buf[..]
    modifies buf
    ensures |line| < buf.Length && line == old(buf[..])[..|line|] && old(buf[|line|]) == '\0' && '\0' !in line
    ensures match ParseCmd(Lex(line))
            case Ok(d, _) => r.Tree? && ReadBack(buf[..], r.cmd) == TreeLine(d)
            case Fail(e) => r == Panic(e) && buf[..] == old(buf[..])
  {
    hide Lex, ParseLine;
    var n := Strlen(buf);
    var s := buf[..n];
    line := s;
    var p := new Parser(s);
    r := p.Parseline();
    if r.Panic? {
      return;
    }
    var _ := p.Peek("");
    if p.pos != n {
      return Panic(Leftovers), line;
    }
    forall i | EndsAt(r.cmd, i) ensures 0 <= i <= |s| && (i < |s| ==> !WordChar(s[i])) {
      EndsBetween(s, r.cmd, i);
    }
    SpansFit(s, r.cmd, buf.Length);
    Nulterminate(r.cmd, buf);
    TextReadBack(buf[..], s, r.cmd);
  }
}
