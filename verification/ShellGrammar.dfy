/**
  The shell's command grammar over tokens.  Line, Pipeline and Simple are derivations; the
  Yield functions give the tokens a derivation stands for and the Tree functions the command
  it means.  The Parse functions are the predictive parser, shown to find the derivation of
  every sentence and to fail on everything else.
 */
module ShellGrammar {
  import opened Wrappers

  /** A word, or one of < > + | & ; ( ) where + stands for >>. */
  datatype Token = Word(text: string) | Sym(c: char)

  const MAXARGS := 10

  // ---- derivations ------------------------------------------------------------------------------

  datatype Redirect = Redirect(sym: char, file: string)
  datatype Arg = Arg(word: string, redirs: seq<Redirect>)

  datatype Line = Line(first: Pipeline, backs: nat, rest: Option<Line>)
  datatype Pipeline = Pipeline(first: Simple, rest: Option<Pipeline>)
  datatype Simple = Block(body: Line, after: seq<Redirect>) | Plain(before: seq<Redirect>, args: seq<Arg>)

  predicate RedirSym(c: char) { c == '<' || c == '>' || c == '+' }

  /** A token no simple command can begin or go on with. */
  predicate Stop(t: Token) { t == Sym('|') || t == Sym(')') || t == Sym('&') || t == Sym(';') }

  function YieldRedirs(rs: seq<Redirect>): seq<Token> {
    if rs == [] then [] else [Sym(rs[0].sym), Word(rs[0].file)] + YieldRedirs(rs[1..])
  }

  function YieldArgs(xs: seq<Arg>): seq<Token> {
    if xs == [] then [] else [Word(xs[0].word)] + YieldRedirs(xs[0].redirs) + YieldArgs(xs[1..])
  }

  function Backs(n: nat): seq<Token> { seq(n, i => Sym('&')) }

  function YieldLine(d: Line): seq<Token> {
    YieldPipe(d.first) + Backs(d.backs) + (if d.rest.None? then [] else [Sym(';')] + YieldLine(d.rest.value))
  }

  function YieldPipe(d: Pipeline): seq<Token> {
    YieldSimple(d.first) + (if d.rest.None? then [] else [Sym('|')] + YieldPipe(d.rest.value))
  }

  function YieldSimple(d: Simple): seq<Token> {
    match d
    case Block(body, after) => [Sym('(')] + YieldLine(body) + [Sym(')')] + YieldRedirs(after)
    case Plain(before, args) => YieldRedirs(before) + YieldArgs(args)
  }

  predicate RedirsOk(rs: seq<Redirect>) { forall i :: 0 <= i < |rs| ==> RedirSym(rs[i].sym) }

  predicate ArgsOk(xs: seq<Arg>) { forall i :: 0 <= i < |xs| ==> RedirsOk(xs[i].redirs) }

  /** Fewer than MAXARGS words in every simple command. */
  predicate LineOk(d: Line) { PipeOk(d.first) && (d.rest.Some? ==> LineOk(d.rest.value)) }

  predicate PipeOk(d: Pipeline) { SimpleOk(d.first) && (d.rest.Some? ==> PipeOk(d.rest.value)) }

  predicate SimpleOk(d: Simple) {
    match d
    case Block(body, after) => LineOk(body) && RedirsOk(after)
    case Plain(before, args) => RedirsOk(before) && ArgsOk(args) && |args| < MAXARGS
  }

  // ---- the parser ---------------------------------------------------------------------------------

  datatype Error = MissingFile | Syntax | TooManyArgs | MissingParen | Leftovers

  datatype Result<+T> = Ok(value: T, rest: seq<Token>) | Fail(error: Error)

  predicate At(ts: seq<Token>, c: char) { ts != [] && ts[0] == Sym(c) }

  function ParseRedirs(ts: seq<Token>): (r: Result<seq<Redirect>>)
    ensures r.Ok? ==> |r.rest| <= |ts|
  {
    if ts == [] || !ts[0].Sym? || !RedirSym(ts[0].c) then Ok([], ts)
    else if |ts| < 2 || !ts[1].Word? then Fail(MissingFile)
    else match ParseRedirs(ts[2..])
      case Ok(rs, rest) => Ok([Redirect(ts[0].c, ts[1].text)] + rs, rest)
      case Fail(e) => Fail(e)
  }

  /** The words after the first argc, each with the redirections behind it. */
  function ParseArgs(ts: seq<Token>, argc: nat): (r: Result<seq<Arg>>)
    ensures r.Ok? ==> |r.rest| <= |ts|
    decreases |ts|
  {
    if ts == [] || Stop(ts[0]) then Ok([], ts)
    else if !ts[0].Word? then Fail(Syntax)
    else if argc + 1 >= MAXARGS then Fail(TooManyArgs)
    else match ParseRedirs(ts[1..])
      case Fail(e) => Fail(e)
      case Ok(rs, more) =>
        match ParseArgs(more, argc + 1)
        case Fail(e) => Fail(e)
        case Ok(xs, rest) => Ok([Arg(ts[0].text, rs)] + xs, rest)
  }

  function ParseSimple(ts: seq<Token>): (r: Result<Simple>)
    ensures r.Ok? ==> |r.rest| <= |ts|
    decreases |ts|, 0
  {
    if At(ts, '(') then
      match ParseLine(ts[1..])
      case Fail(e) => Fail(e)
      case Ok(d, more) =>
        if !At(more, ')') then Fail(MissingParen)
        else match ParseRedirs(more[1..])
          case Fail(e) => Fail(e)
          case Ok(rs, rest) => Ok(Block(d, rs), rest)
    else
      match ParseRedirs(ts)
      case Fail(e) => Fail(e)
      case Ok(rs, more) =>
        match ParseArgs(more, 0)
        case Fail(e) => Fail(e)
        case Ok(xs, rest) => Ok(Plain(rs, xs), rest)
  }

  function ParsePipe(ts: seq<Token>): (r: Result<Pipeline>)
    ensures r.Ok? ==> |r.rest| <= |ts|
    decreases |ts|, 1
  {
    match ParseSimple(ts)
    case Fail(e) => Fail(e)
    case Ok(d, more) =>
      if !At(more, '|') then Ok(Pipeline(d, None), more)
      else match ParsePipe(more[1..])
        case Fail(e) => Fail(e)
        case Ok(p, rest) => Ok(Pipeline(d, Some(p)), rest)
  }

  /** How many & the tokens begin with. */
  function CountBacks(ts: seq<Token>): (n: nat)
    ensures n <= |ts|
  {
    if At(ts, '&') then 1 + CountBacks(ts[1..]) else 0
  }

  function ParseLine(ts: seq<Token>): (r: Result<Line>)
    ensures r.Ok? ==> |r.rest| <= |ts|
    decreases |ts|, 2
  {
    match ParsePipe(ts)
    case Fail(e) => Fail(e)
    case Ok(p, more) =>
      var n := CountBacks(more);
      var after := more[n..];
      if !At(after, ';') then Ok(Line(p, n, None), after)
      else match ParseLine(after[1..])
        case Fail(e) => Fail(e)
        case Ok(d, rest) => Ok(Line(p, n, Some(d)), rest)
  }

  function ParseCmd(ts: seq<Token>): Result<Line> {
    match ParseLine(ts)
    case Fail(e) => Fail(e)
    case Ok(d, rest) => if rest == [] then Ok(d, rest) else Fail(Leftovers)
  }

  // ---- soundness ------------------------------------------------------------------------------------

  lemma {:induction false} RedirsSound(ts: seq<Token>)
    ensures ParseRedirs(ts).Ok? ==>
              RedirsOk(ParseRedirs(ts).value) && ts == YieldRedirs(ParseRedirs(ts).value) + ParseRedirs(ts).rest
  {
    if |ts| >= 2 && ts[0].Sym? && RedirSym(ts[0].c) && ts[1].Word? && ParseRedirs(ts[2..]).Ok? {
      RedirsSound(ts[2..]);
      var rs, rest := ParseRedirs(ts[2..]).value, ParseRedirs(ts[2..]).rest;
      var all := [Redirect(ts[0].c, ts[1].text)] + rs;
      assert all[1..] == rs;
      calc {
        YieldRedirs(all) + rest;
        [ts[0], ts[1]] + YieldRedirs(rs) + rest;
        [ts[0], ts[1]] + ts[2..];
        ts;
      }
    } else if ParseRedirs(ts).Ok? {
      assert YieldRedirs([]) + ts == ts;
    }
  }

  lemma YieldArgsCons(x: Arg, xs: seq<Arg>, rest: seq<Token>)
    ensures YieldArgs([x] + xs) + rest == [Word(x.word)] + (YieldRedirs(x.redirs) + (YieldArgs(xs) + rest))
  {
  }

  lemma {:induction false} ArgsSound(ts: seq<Token>, argc: nat)
    requires argc < MAXARGS
    ensures var r := ParseArgs(ts, argc);
            r.Ok? ==> ArgsOk(r.value) && argc + |r.value| < MAXARGS && ts == YieldArgs(r.value) + r.rest
    decreases |ts|
  {
    hide YieldArgs, YieldRedirs, ParseRedirs;
    var r := ParseArgs(ts, argc);
    if r.Ok? && !(ts == [] || Stop(ts[0])) {
      RedirsSound(ts[1..]);
      var rs, more := ParseRedirs(ts[1..]).value, ParseRedirs(ts[1..]).rest;
      ArgsSound(more, argc + 1);
      var xs, rest := ParseArgs(more, argc + 1).value, ParseArgs(more, argc + 1).rest;
      assert r == Ok([Arg(ts[0].text, rs)] + xs, rest);
      YieldArgsCons(Arg(ts[0].text, rs), xs, rest);
      assert ts == [ts[0]] + ts[1..];
    } else if r.Ok? {
      assert YieldArgs([]) + ts == ts by { NoArgs(ts); }
    }
  }

  lemma NoArgs(ts: seq<Token>)
    ensures YieldArgs([]) + ts == ts && YieldRedirs([]) + ts == ts
  {
  }

  lemma BacksSound(ts: seq<Token>)
    ensures ts == Backs(CountBacks(ts)) + ts[CountBacks(ts)..] && !At(ts[CountBacks(ts)..], '&')
  {
  }

  lemma YieldLineAppend(d: Line, rest: seq<Token>)
    ensures YieldLine(d) + rest == YieldPipe(d.first) + (Backs(d.backs) + AfterBacks(d, rest))
  {
  }

  function AfterBacks(d: Line, rest: seq<Token>): seq<Token> {
    if d.rest.None? then rest else [Sym(';')] + (YieldLine(d.rest.value) + rest)
  }

  lemma YieldPipeAppend(d: Pipeline, rest: seq<Token>)
    ensures YieldPipe(d) + rest
         == YieldSimple(d.first) + (if d.rest.None? then rest else [Sym('|')] + (YieldPipe(d.rest.value) + rest))
  {
  }

  lemma {:induction false} SimpleSound(ts: seq<Token>)
    ensures var r := ParseSimple(ts); r.Ok? ==> SimpleOk(r.value) && ts == YieldSimple(r.value) + r.rest
    decreases |ts|, 0
  {
    var r := ParseSimple(ts);
    hide YieldLine, YieldRedirs, YieldArgs, ParseRedirs, ParseArgs, ParseLine;
    if r.Ok? {
      if At(ts, '(') {
        LineSound(ts[1..]);
        var more := ParseLine(ts[1..]).rest;
        RedirsSound(more[1..]);
        var body := YieldLine(r.value.body);
        assert more == [Sym(')')] + more[1..] && ts == [Sym('(')] + ts[1..];
        assert ts == [Sym('(')] + (body + ([Sym(')')] + (YieldRedirs(r.value.after) + r.rest)));
      } else {
        RedirsSound(ts);
        var more := ParseRedirs(ts).rest;
        ArgsSound(more, 0);
        assert ts == YieldRedirs(r.value.before) + (YieldArgs(r.value.args) + r.rest);
      }
    }
  }

  lemma {:induction false} PipeSound(ts: seq<Token>)
    ensures var r := ParsePipe(ts); r.Ok? ==> PipeOk(r.value) && ts == YieldPipe(r.value) + r.rest
    decreases |ts|, 1
  {
    hide YieldSimple, ParseSimple, SimpleOk, YieldPipe;
    var r := ParsePipe(ts);
    if r.Ok? {
      YieldPipeAppend(r.value, r.rest);
      SimpleSound(ts);
      var more := ParseSimple(ts).rest;
      if At(more, '|') {
        PipeSound(more[1..]);
        assert more == [Sym('|')] + more[1..];
      }
    }
  }

  lemma {:induction false} LineSound(ts: seq<Token>)
    ensures var r := ParseLine(ts); r.Ok? ==> LineOk(r.value) && ts == YieldLine(r.value) + r.rest
    decreases |ts|, 2
  {
    hide YieldLine, YieldPipe, ParsePipe, PipeOk, CountBacks, Backs;
    var r := ParseLine(ts);
    if r.Ok? {
      YieldLineAppend(r.value, r.rest);
      PipeSound(ts);
      var more := ParsePipe(ts).rest;
      BacksSound(more);
      var after := more[CountBacks(more)..];
      if At(after, ';') {
        LineSound(after[1..]);
        assert after == [Sym(';')] + after[1..];
      }
    }
  }

  // ---- completeness -----------------------------------------------------------------------------------

  /** What may follow a simple command, a pipeline and a line. */
  predicate SimpleEnds(rest: seq<Token>) { rest == [] || Stop(rest[0]) }

  predicate PipeEnds(rest: seq<Token>) { SimpleEnds(rest) && !At(rest, '|') }

  predicate LineEnds(rest: seq<Token>) { rest == [] || At(rest, ')') }

  predicate NoRedirNext(rest: seq<Token>) { rest == [] || !rest[0].Sym? || !RedirSym(rest[0].c) }

  lemma {:induction false} RedirsComplete(rs: seq<Redirect>, rest: seq<Token>)
    requires RedirsOk(rs) && NoRedirNext(rest)
    ensures ParseRedirs(YieldRedirs(rs) + rest) == Ok(rs, rest)
  {
    var ts := YieldRedirs(rs) + rest;
    if rs == [] {
      assert ts == rest;
    } else {
      RedirsComplete(rs[1..], rest);
      assert ts[2..] == YieldRedirs(rs[1..]) + rest;
      assert rs == [rs[0]] + rs[1..];
    }
  }

  lemma ArgsStart(xs: seq<Arg>, rest: seq<Token>)
    requires SimpleEnds(rest)
    ensures NoRedirNext(YieldArgs(xs) + rest) && !At(YieldArgs(xs) + rest, '(')
  {
  }

  lemma {:induction false} ArgsComplete(xs: seq<Arg>, rest: seq<Token>, argc: nat)
    requires ArgsOk(xs) && SimpleEnds(rest) && argc + |xs| < MAXARGS
    ensures ParseArgs(YieldArgs(xs) + rest, argc) == Ok(xs, rest)
  {
    hide YieldArgs, YieldRedirs, ParseRedirs;
    NoArgs(rest);
    if xs != [] {
      var ts, more := YieldArgs(xs) + rest, YieldArgs(xs[1..]) + rest;
      assert xs == [xs[0]] + xs[1..];
      YieldArgsCons(xs[0], xs[1..], rest);
      assert ts[0] == Word(xs[0].word) && ts[1..] == YieldRedirs(xs[0].redirs) + more;
      ArgsStart(xs[1..], rest);
      RedirsComplete(xs[0].redirs, more);
      ArgsComplete(xs[1..], rest, argc + 1);
    }
  }

  lemma BacksComplete(n: nat, rest: seq<Token>)
    requires !At(rest, '&')
    ensures CountBacks(Backs(n) + rest) == n && (Backs(n) + rest)[n..] == rest
  {
    if n == 0 {
      assert Backs(0) + rest == rest;
    } else {
      BacksComplete(n - 1, rest);
      assert (Backs(n) + rest)[1..] == Backs(n - 1) + rest;
    }
  }

  lemma {:induction false} SimpleComplete(d: Simple, rest: seq<Token>)
    requires SimpleOk(d) && SimpleEnds(rest)
    ensures ParseSimple(YieldSimple(d) + rest) == Ok(d, rest)
    decreases d, 0
  {
    hide YieldLine, ParseLine, LineOk, ParseRedirs, ParseArgs;
    var ts := YieldSimple(d) + rest;
    match d
    case Block(body, after) =>
      var tail := [Sym(')')] + (YieldRedirs(after) + rest);
      assert ts == [Sym('(')] + (YieldLine(body) + tail);
      assert ts[1..] == YieldLine(body) + tail;
      LineComplete(body, tail);
      RedirsComplete(after, rest);
      assert tail[1..] == YieldRedirs(after) + rest;
    case Plain(before, args) =>
      var more := YieldArgs(args) + rest;
      assert ts == YieldRedirs(before) + more;
      ArgsStart(args, rest);
      assert !At(ts, '(');
      RedirsComplete(before, more);
      ArgsComplete(args, rest, 0);
  }

  lemma {:induction false} PipeComplete(d: Pipeline, rest: seq<Token>)
    requires PipeOk(d) && PipeEnds(rest)
    ensures ParsePipe(YieldPipe(d) + rest) == Ok(d, rest)
    decreases d, 1
  {
    hide YieldSimple, ParseSimple, SimpleOk, YieldPipe;
    var ts := YieldPipe(d) + rest;
    YieldPipeAppend(d, rest);
    if d.rest.None? {
      SimpleComplete(d.first, rest);
    } else {
      var more := [Sym('|')] + (YieldPipe(d.rest.value) + rest);
      SimpleComplete(d.first, more);
      assert more[1..] == YieldPipe(d.rest.value) + rest;
      PipeComplete(d.rest.value, rest);
    }
  }

  lemma {:induction false} LineComplete(d: Line, rest: seq<Token>)
    requires LineOk(d) && LineEnds(rest)
    ensures ParseLine(YieldLine(d) + rest) == Ok(d, rest)
    decreases d, 2
  {
    hide YieldLine, YieldPipe, ParsePipe, PipeOk, CountBacks, Backs;
    var after := AfterBacks(d, rest);
    var more := Backs(d.backs) + after;
    YieldLineAppend(d, rest);
    BacksComplete(d.backs, after);
    assert PipeEnds(more) by { BacksEnd(d.backs, after); }
    PipeComplete(d.first, more);
    if d.rest.Some? {
      assert after[1..] == YieldLine(d.rest.value) + rest;
      LineComplete(d.rest.value, rest);
    }
  }

  lemma BacksEnd(n: nat, after: seq<Token>)
    requires PipeEnds(after)
    ensures PipeEnds(Backs(n) + after)
  {
  }

  // ---- what the parser is for ----------------------------------------------------------------------------

  /** The parser accepts exactly the sentences of the grammar. */
  lemma AcceptsExactly(ts: seq<Token>)
    ensures ParseCmd(ts).Ok? <==> exists d :: LineOk(d) && YieldLine(d) == ts
  {
    if ParseCmd(ts).Ok? {
      LineSound(ts);
      var d := ParseCmd(ts).value;
      assert YieldLine(d) + [] == YieldLine(d);
    }
    if exists d :: LineOk(d) && YieldLine(d) == ts {
      var d :| LineOk(d) && YieldLine(d) == ts;
      assert YieldLine(d) + [] == ts;
      LineComplete(d, []);
    }
  }

  /** It finds the derivation, so the grammar is unambiguous. */
  lemma Unambiguous(d: Line, e: Line)
    requires LineOk(d) && LineOk(e) && YieldLine(d) == YieldLine(e)
    ensures d == e && ParseCmd(YieldLine(d)) == Ok(d, [])
  {
    assert YieldLine(d) + [] == YieldLine(d);
    LineComplete(d, []);
    LineComplete(e, []);
  }
}
