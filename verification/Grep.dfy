/**
  grep's regular expression matcher.  A C string is its characters before the terminating NUL.
  A pattern means a list of items, and a list of items matches a text when the text starts with
  one piece per item.
 */
module Grep {

  type CString = s: string | '\0' !in s

  datatype Item = One(c: char) | Star(c: char) | End

  // ---- meaning -----------------------------------------------------------------------------------

  predicate Fits(c: char, x: char) { c == '.' || c == x }

  predicate Accepts(it: Item, w: string) {
    match it
    case One(c) => |w| == 1 && Fits(c, w[0])
    case Star(c) => forall i :: 0 <= i < |w| ==> Fits(c, w[i])
    case End => w == []
  }

  function Concat(ws: seq<string>): string {
    if ws == [] then [] else ws[0] + Concat(ws[1..])
  }

  /** The pieces are accepted item by item and make up a prefix of the text, all of it before an End. */
  ghost predicate Splits(items: seq<Item>, text: string, ws: seq<string>) {
    && |ws| == |items|
    && (forall k :: 0 <= k < |items| ==> Accepts(items[k], ws[k]))
    && Concat(ws) <= text
    && (End in items ==> Concat(ws) == text)
  }

  ghost predicate MatchesAt(items: seq<Item>, text: string) { exists ws :: Splits(items, text, ws) }

  /** A star makes the character before it repeat, whatever it is; a final $ is an anchor; the rest are
      literals or dots. */
  function Items(re: string): seq<Item> {
    if re == [] then []
    else if |re| > 1 && re[1] == '*' then [Star(re[0])] + Items(re[2..])
    else if re == "$" then [End]
    else [One(re[0])] + Items(re[1..])
  }

  ghost predicate Matches(re: string, text: string) {
    if re != [] && re[0] == '^' then MatchesAt(Items(re[1..]), text)
    else exists k :: 0 <= k <= |text| && MatchesAt(Items(re), text[k..])
  }

  // ---- one item at a time -----------------------------------------------------------------------------

  lemma {:induction false} EndIsLast(re: string)
    ensures forall k :: 0 <= k < |Items(re)| - 1 ==> !Items(re)[k].End?
  {
    if re != [] {
      if |re| > 1 && re[1] == '*' { EndIsLast(re[2..]); } else { EndIsLast(re[1..]); }
      if re[1..] == [] { assert Items(re[1..]) == []; }
    }
  }

  lemma Prepend(items: seq<Item>, text: string, w: string, ws: seq<string>)
    requires items != [] && Accepts(items[0], w) && !items[0].End? && w <= text && Splits(items[1..], text[|w|..], ws)
    ensures Splits(items, text, [w] + ws)
  {
  }

  lemma Behead(items: seq<Item>, text: string, ws: seq<string>)
    requires items != [] && Splits(items, text, ws) && (items[0].End? ==> |items| == 1)
    ensures ws != [] && ws[0] <= text && Accepts(items[0], ws[0]) && Splits(items[1..], text[|ws[0]|..], ws[1..])
  {
  }

  /** An item and the rest: what the matcher tries first. */
  lemma MatchesFirst(items: seq<Item>, text: string)
    requires items != [] && (items[0].End? ==> |items| == 1)
    ensures items[0].End? ==> (MatchesAt(items, text) <==> text == [])
    ensures !items[0].End? ==>
              (MatchesAt(items, text) <==>
                exists n :: 0 <= n <= |text| && Accepts(items[0], text[..n]) && MatchesAt(items[1..], text[n..]))
  {
    if items[0].End? {
      if text == [] { assert Splits(items, text, [[]]); }
      if MatchesAt(items, text) {
        var ws :| Splits(items, text, ws);
        Behead(items, text, ws);
      }
    } else {
      if MatchesAt(items, text) {
        var ws :| Splits(items, text, ws);
        Behead(items, text, ws);
        assert text[..|ws[0]|] == ws[0];
      }
      if exists n :: 0 <= n <= |text| && Accepts(items[0], text[..n]) && MatchesAt(items[1..], text[n..]) {
        var n :| 0 <= n <= |text| && Accepts(items[0], text[..n]) && MatchesAt(items[1..], text[n..]);
        var ws :| Splits(items[1..], text[n..], ws);
        Prepend(items, text, text[..n], ws);
      }
    }
  }

  // ---- what patterns find ------------------------------------------------------------------------------

  /** Characters that stand for themselves wherever they are. */
  predicate Literal(w: string) { forall i :: 0 <= i < |w| ==> w[i] !in "^$.*" }

  /** A literal, with a $ behind it or not, matches at the texts that begin with it, or are it. */
  lemma {:induction false} LiteralHere(w: string, text: string, anchored: bool)
    requires Literal(w)
    ensures MatchesAt(Items(w + if anchored then "$" else ""), text) <==> if anchored then text == w else w <= text
  {
    var re := w + if anchored then "$" else "";
    if w == [] {
      if anchored {
        assert re == "$" && Items(re) == [End];
        MatchesFirst(Items(re), text);
      } else {
        assert re == [] && Splits([], text, []);
      }
    } else {
      assert re[1..] == w[1..] + if anchored then "$" else "";
      assert re[0] == w[0] && (|re| > 1 ==> re[1] != '*') && re != "$";
      assert Items(re) == [One(w[0])] + Items(re[1..]) && Items(re)[1..] == Items(re[1..]);
      MatchesFirst(Items(re), text);
      if text != [] {
        assert text[..1] == [text[0]] && text == [text[0]] + text[1..] && w == [w[0]] + w[1..];
        LiteralHere(w[1..], text[1..], anchored);
      }
    }
  }

  /** A pattern without special characters is found exactly in the texts that contain it. */
  lemma LiteralFound(w: string, text: string)
    requires Literal(w)
    ensures Matches(w, text) <==> exists k :: 0 <= k <= |text| && w <= text[k..]
    ensures Matches("^" + w, text) <==> w <= text
    ensures Matches("^" + w + "$", text) <==> text == w
  {
    assert w + "" == w && ("^" + w)[1..] == w && ("^" + w + "$")[1..] == w + "$";
    LiteralHere(w, text, false);
    LiteralHere(w, text, true);
    forall k | 0 <= k <= |text| ensures MatchesAt(Items(w), text[k..]) <==> w <= text[k..] {
      LiteralHere(w, text[k..], false);
    }
  }

  /** Between anchors a starred character matches its repetitions, and a starred dot everything. */
  lemma StarRepeats(c: char, text: string)
    ensures Matches(['^', c, '*', '$'], text) <==> c == '.' || forall i :: 0 <= i < |text| ==> text[i] == c
  {
    var re := [c, '*', '$'];
    assert ['^', c, '*', '$'][1..] == re && re[2..] == "$";
    assert Items("$") == [End] && Items(re) == [Star(c), End] && Items(re)[1..] == [End];
    MatchesFirst(Items(re), text);
    forall n | 0 <= n <= |text| ensures MatchesAt([End], text[n..]) <==> n == |text| {
      MatchesFirst([End], text[n..]);
    }
    assert text[..|text|] == text;
  }

  // ---- the matcher ---------------------------------------------------------------------------------------

  /** The character at a pointer, or the NUL at the end. */
  function At(s: string, i: nat): char { if i < |s| then s[i] else '\0' }

  method Match(re: CString, text: CString) returns (b: bool)
    ensures b <==> Matches(re, text)
  {
    if At(re, 0) == '^' {
      b := MatchHere(re[1..], text);
      return;
    }
    var i := 0;
    while true
      invariant 0 <= i <= |text| && forall k :: 0 <= k < i ==> !MatchesAt(Items(re), text[k..])
      decreases |text| - i
    {
      b := MatchHere(re, text[i..]);
      if b {
        return;
      }
      if At(text, i) == '\0' {
        break;
      }
      i := i + 1;
    }
  }

  method MatchHere(re: CString, text: CString) returns (b: bool)
    ensures b <==> MatchesAt(Items(re), text)
    decreases |re|, |text|, 0
  {
    if At(re, 0) == '\0' {
      assert Splits([], text, []);
      return true;
    }
    EndIsLast(re);
    MatchesFirst(Items(re), text);
    if At(re, 1) == '*' {
      b := MatchStar(re[0], re[2..], text);
      assert Items(re)[1..] == Items(re[2..]);
      return;
    }
    if At(re, 0) == '$' && At(re, 1) == '\0' {
      return At(text, 0) == '\0';
    }
    assert Items(re)[1..] == Items(re[1..]);
    if At(text, 0) != '\0' && (At(re, 0) == '.' || At(re, 0) == At(text, 0)) {
      b := MatchHere(re[1..], text[1..]);
      assert text[..1] == [text[0]];
      return;
    }
    return false;
  }

  /** c* and then re, at the start of text. */
  method MatchStar(c: char, re: CString, text: CString) returns (b: bool)
    ensures b <==> exists n :: 0 <= n <= |text| && Accepts(Star(c), text[..n]) && MatchesAt(Items(re), text[n..])
    decreases |re| + 1, |text|, 1
  {
    var i := 0;
    while true
      invariant 0 <= i <= |text| && Accepts(Star(c), text[..i])
      invariant forall k :: 0 <= k < i ==> !MatchesAt(Items(re), text[k..])
      decreases |text| - i
    {
      b := MatchHere(re, text[i..]);
      if b {
        return;
      }
      if At(text, i) == '\0' || !(At(text, i) == c || c == '.') {
        forall n | i < n <= |text| ensures !Accepts(Star(c), text[..n]) {
          assert text[..n][i] == text[i];
        }
        break;
      }
      assert text[..i + 1] == text[..i] + [text[i]];
      i := i + 1;
    }
  }
}
