/**
 The line and token grammar of bootstrap scripts, as pure functions on strings
 (sysinit/run_s.c, s_readline and s_tokenize).
 */
module Lexer {
  import opened CStrings

  const EOL: set<char> := {'\r', '\n'}
  const SPACE: set<char> := {' '}
  const QUOTE: set<char> := {'"'}

  // ---------------------------------------------------------------- lines

  /** The line the reader returns next from a non-empty text: up to a CR, an LF or the end. */
  function FirstLine(text: string): (line: string) {
    text[..Span(text, EOL)]
  }

  /** What is left after that line and the one CR or LF that ended it. */
  function AfterLine(text: string): (rest: string)
    ensures text != [] ==> |rest| < |text|
  {
    var n := Span(text, EOL);
    if n < |text| then text[n + 1..] else []
  }

  /** A line together with the terminator consumed with it (empty at the end of the script). */
  datatype Line = Line(text: string, eol: string)

  function Lines(text: string): seq<Line>
    decreases |text|
  {
    if text == [] then []
    else
      var n := Span(text, EOL);
      [Line(text[..n], if n < |text| then [text[n]] else [])] + Lines(AfterLine(text))
  }

  function Unlines(ls: seq<Line>): string {
    if ls == [] then [] else ls[0].text + ls[0].eol + Unlines(ls[1..])
  }

  /** The shape of a decomposition: EOL-free lines, each ended by one CR or LF; only the last
      may instead be ended by the end of the script, and then it is not empty. */
  predicate LineShaped(ls: seq<Line>) {
    ls != [] ==>
      && Avoids(ls[0].text, EOL)
      && (if ls[0].eol == [] then ls[0].text != [] && |ls| == 1
          else |ls[0].eol| == 1 && ls[0].eol[0] in EOL)
      && LineShaped(ls[1..])
  }

  /** The CR or LF that ends the first line, if there is one. */
  function EolOf(text: string): string {
    var n := Span(text, EOL);
    if n < |text| then [text[n]] else []
  }

  lemma LinesUnfold(text: string)
    requires text != []
    ensures Lines(text) == [Line(FirstLine(text), EolOf(text))] + Lines(AfterLine(text))
  {
    hide Span;
  }

  lemma SplitAtEnd(text: string)
    requires text != []
    ensures text == FirstLine(text) + EolOf(text) + AfterLine(text)
    ensures Avoids(FirstLine(text), EOL)
    ensures if EolOf(text) == [] then FirstLine(text) != [] && AfterLine(text) == []
            else |EolOf(text)| == 1 && EolOf(text)[0] in EOL
  {
    SpanStops(text, EOL);
    hide Span;
    var n := Span(text, EOL);
    if n < |text| {
      assert text == text[..n] + [text[n]] + text[n + 1..];
    }
  }

  /** The first line, its terminator and the rest make up the text. */
  lemma FirstLineSplits(text: string)
    requires text != []
    ensures Lines(text) != [] && Lines(text)[1..] == Lines(AfterLine(text))
    ensures var l := Lines(text)[0];
            && text == l.text + l.eol + AfterLine(text)
            && Avoids(l.text, EOL)
            && (if l.eol == [] then l.text != [] && AfterLine(text) == []
                else |l.eol| == 1 && l.eol[0] in EOL)
  {
    LinesUnfold(text);
    SplitAtEnd(text);
    hide Lines, Span;
  }

  lemma LinesOfEmpty()
    ensures Lines([]) == []
  {
  }

  /** Lines and consumed terminators give back exactly the script. */
  lemma {:induction false} LinesReconstruct(text: string)
    ensures Unlines(Lines(text)) == text
    ensures LineShaped(Lines(text))
    decreases |text|
  {
    if text == [] {
    } else {
      FirstLineSplits(text);
      hide Lines, AfterLine;
      LinesReconstruct(AfterLine(text));
      LinesOfEmpty();
    }
  }

  /** ... and no other decomposition of that shape exists. */
  lemma {:induction false} LinesUnique(ls: seq<Line>)
    requires LineShaped(ls)
    ensures Lines(Unlines(ls)) == ls
  {
    if ls == [] {
    } else {
      var l, rest := ls[0], Unlines(ls[1..]);
      var text := Unlines(ls);
      assert text == l.text + l.eol + rest;
      SpanIs(text, EOL, |l.text|);
      assert text[..|l.text|] == l.text;
      if l.eol == [] {
        assert ls[1..] == [];
        assert text == l.text;
      } else {
        assert l.eol == [text[|l.text|]];
        assert AfterLine(text) == rest;
      }
      LinesUnique(ls[1..]);
      assert ls == [l] + ls[1..];
    }
  }

  /** Cutting a text at any CR or LF: the first line of the whole is that of the front part. */
  lemma FirstLineOfJoin(a: string, c: char, b: string)
    requires c in EOL
    ensures FirstLine(a + [c] + b) == FirstLine(a)
    ensures Avoids(a, EOL) ==> FirstLine(a) == a && AfterLine(a) == []
    ensures AfterLine(a + [c] + b) ==
            if Avoids(a, EOL) then b else AfterLine(a) + [c] + b
    ensures !Avoids(a, EOL) ==> a != []
  {
    SpanStops(a, EOL);
    var n := Span(a, EOL);
    var t := a + [c] + b;
    SpanIs(t, EOL, n);
    assert t[..n] == a[..n];
    if n < |a| {
      assert t[n + 1..] == a[n + 1..] + [c] + b;
    } else {
      assert t[n + 1..] == b;
    }
  }

  /** A text without line ends is one line. */
  lemma OneLine(a: string)
    requires Avoids(a, EOL)
    ensures FirstLine(a) == a && AfterLine(a) == []
  {
    SpanIs(a, EOL, |a|);
  }

  /** The first line holds no line end. */
  lemma FirstLineIsClean(text: string)
    ensures Avoids(FirstLine(text), EOL)
  {
    SpanStops(text, EOL);
  }

  // --------------------------------------------------------------- tokens

  datatype Lexeme = End | Token(text: string, rest: string)

  /** The text before the first separator, and what follows that separator. */
  function CutAt(s: string, sep: char): (x: Lexeme) {
    var n := Span(s, {sep});
    Token(s[..n], if n < |s| then s[n + 1..] else [])
  }

  /** A token that does not start with a quote takes at least one character. */
  lemma NonSpaceAt(line: string)
    ensures var n := Lead(line, SPACE); n < |line| ==> Span(line[n..], {' '}) > 0
  {
    LeadStops(line, SPACE);
  }

  /** One token: skip spaces; a double quote opens a token that runs to the next double quote,
      any other character a token that runs to the next space; either may run to the end. */
  function NextToken(line: string): (x: Lexeme)
    ensures x.Token? ==> |x.rest| < |line|
  {
    var n := Lead(line, SPACE);
    if n == |line| then End
    else if line[n] == '"' then CutAt(line[n + 1..], '"')
    else
      NonSpaceAt(line);
      CutAt(line[n..], ' ')
  }

  /** The next token, when `n` spaces precede it. */
  lemma NextTokenAt(line: string, n: nat)
    requires n == Lead(line, SPACE)
    ensures n == |line| ==> NextToken(line) == End
    ensures n < |line| && line[n] == '"' ==> NextToken(line) == CutAt(line[n + 1..], '"')
    ensures n < |line| && line[n] != '"' ==> NextToken(line) == CutAt(line[n..], ' ')
    ensures n < |line| && line[n] != '"' ==> Span(line[n..], {' '}) > 0
  {
    NonSpaceAt(line);
  }

  /** All tokens of a line. */
  function Tokens(line: string): seq<string>
    decreases |line|
  {
    match NextToken(line)
    case End => []
    case Token(t, rest) => [t] + Tokens(rest)
  }

  lemma TokensOfEmpty()
    ensures Tokens([]) == []
  {
  }

  lemma TokensStep(line: string, t: string, rest: string)
    requires NextToken(line) == Token(t, rest)
    ensures Tokens(line) == [t] + Tokens(rest)
  {
    hide NextToken;
  }

  lemma TokensUnfold(line: string)
    ensures Tokens(line) ==
            match NextToken(line) case End => [] case Token(t, rest) => [t] + Tokens(rest)
  {
    hide NextToken;
  }

  /** A token that is followed by more text used up at least two characters. */
  lemma NextTokenShrinks(line: string)
    ensures var x := NextToken(line);
            x.Token? && x.rest != [] ==> |x.rest| + 2 <= |line|
  {
    NonSpaceAt(line);
  }

  /** A line of n characters has at most (n + 1) / 2 tokens. */
  lemma {:induction false} TokenBound(line: string)
    ensures |Tokens(line)| <= (|line| + 1) / 2
    decreases |line|
  {
    hide NextToken;
    match NextToken(line)
    case End =>
    case Token(t, rest) =>
      NextTokenShrinks(line);
      TokensOfEmpty();
      TokenBound(rest);
  }

  /** The bound is reached at every length. */
  function Dense(n: nat): string {
    if n == 0 then [] else if n == 1 then "a" else "a " + Dense(n - 2)
  }

  lemma NextOfLetter(tail: string)
    requires tail == [] || tail[0] == ' '
    ensures NextToken("a" + tail) == Token("a", if tail == [] then [] else tail[1..])
  {
    LeadIs("a" + tail, SPACE, 0);
    SpanIs("a" + tail, {' '}, 1);
    assert ("a" + tail)[0..] == "a" + tail;
  }

  lemma {:induction false} TokenBoundTight(n: nat)
    ensures |Dense(n)| == n
    ensures |Tokens(Dense(n))| == (n + 1) / 2
  {
    hide NextToken, Tokens;
    TokensOfEmpty();
    if n == 0 {
    } else if n == 1 {
      NextOfLetter([]);
      assert "a" + [] == "a";
      TokensStep("a", "a", []);
    } else {
      var rest := Dense(n - 2);
      TokenBoundTight(n - 2);
      NextOfLetter(" " + rest);
      assert "a" + (" " + rest) == Dense(n);
      TokensStep(Dense(n), "a", rest);
    }
  }

  // ------------------------------------------------- printing token lists

  /** Token texts that need no quote in front. */
  predicate Bare(t: string) {
    t != [] && t[0] != '"' && Avoids(t, SPACE)
  }

  /** Token texts some line can produce. */
  predicate Lexable(t: string) {
    Avoids(t, QUOTE) || Bare(t)
  }

  /** A quoted token followed by anything is lexed as that token. */
  lemma NextOfQuoted(t: string, tail: string)
    requires Avoids(t, QUOTE)
    ensures NextToken("\"" + t + "\"" + tail) == Token(t, tail)
  {
    var l := "\"" + t + "\"" + tail;
    LeadIs(l, SPACE, 0);
    var s := l[1..];
    assert s == t + "\"" + tail;
    SpanIs(s, {'"'}, |t|);
    assert s[..|t|] == t && s[|t| + 1..] == tail;
  }

  /** At the end of the line it needs no closing quote. */
  lemma NextOfOpen(t: string)
    requires Avoids(t, QUOTE)
    ensures NextToken("\"" + t) == Token(t, [])
  {
    LeadIs("\"" + t, SPACE, 0);
    assert ("\"" + t)[1..] == t;
    SpanIs(t, {'"'}, |t|);
  }

  /** A bare token followed by a space or nothing is lexed as that token. */
  lemma NextOfBare(t: string, tail: string)
    requires Bare(t)
    requires tail == [] || tail[0] == ' '
    ensures NextToken(t + tail) == Token(t, if tail == [] then [] else tail[1..])
  {
    var l := t + tail;
    LeadIs(l, SPACE, 0);
    SpanIs(l, {' '}, |t|);
    assert l[0..] == l && l[..|t|] == t;
    if tail != [] {
      assert l[|t| + 1..] == tail[1..];
    }
  }

  /** A token in quotes wherever it may stand in quotes. */
  function PrintToken(t: string): string {
    if Avoids(t, QUOTE) then "\"" + t + "\"" else t
  }

  /** The tokens, quoted where possible, separated by single spaces. */
  function PrintTokens(ts: seq<string>): string {
    if ts == [] then []
    else if |ts| == 1 then PrintToken(ts[0])
    else PrintToken(ts[0]) + " " + PrintTokens(ts[1..])
  }

  lemma LeadingSpace(s: string)
    ensures Tokens(" " + s) == Tokens(s)
  {
    LeadStops(s, SPACE);
    var n := Lead(s, SPACE);
    var l := " " + s;
    LeadIs(l, SPACE, n + 1);
    assert l[n + 1..] == s[n..];
    if n < |s| {
      assert l[n + 2..] == s[n + 1..];
    }
    assert NextToken(l) == NextToken(s);
  }

  lemma TokensOfPrinted(t: string, s: string)
    requires Lexable(t)
    ensures Tokens(PrintToken(t) + " " + s) == [t] + Tokens(s)
    ensures Tokens(PrintToken(t)) == [t]
  {
    hide NextToken;
    var p := PrintToken(t);
    var tail := " " + s;
    assert p + " " + s == p + tail && p + [] == p && tail[1..] == s;
    TokensOfEmpty();
    LeadingSpace(s);
    if Avoids(t, QUOTE) {
      NextOfQuoted(t, tail);
      NextOfQuoted(t, []);
      TokensStep(p + tail, t, tail);
    } else {
      NextOfBare(t, tail);
      NextOfBare(t, []);
      TokensStep(p + tail, t, s);
    }
    TokensStep(p, t, []);
  }

  /** Printing any list of lexable tokens and lexing the line gives the list back. */
  lemma {:induction false} PrintedTokensRoundTrip(ts: seq<string>)
    requires forall t :: t in ts ==> Lexable(t)
    ensures Tokens(PrintTokens(ts)) == ts
  {
    hide NextToken, Tokens;
    if ts == [] {
      TokensOfEmpty();
    } else {
      PrintedTokensRoundTrip(ts[1..]);
      TokensOfPrinted(ts[0], PrintTokens(ts[1..]));
      assert ts == [ts[0]] + ts[1..];
    }
  }

  // --------------------------------------------------- the shortest line

  /** A token with no more than the quote it needs in front. */
  function Opened(t: string): string {
    if Bare(t) then t else "\"" + t
  }

  /** The one character that must end a token before another one. */
  function Gap(t: string): char {
    if Bare(t) then ' ' else '"'
  }

  /** The tokens with as few characters between them as possible; a closing quote separates as well
      as a space does, and the last token needs neither. */
  function Shortest(ts: seq<string>): string {
    if ts == [] then []
    else if |ts| == 1 then Opened(ts[0])
    else Opened(ts[0]) + [Gap(ts[0])] + Shortest(ts[1..])
  }

  /** One for each character of a token, one for each token that needs a quote, and one between
      tokens. */
  function MinLen(ts: seq<string>): nat {
    if ts == [] then 0
    else |ts[0]| + (if Bare(ts[0]) then 0 else 1) + (if |ts| == 1 then 0 else 1) + MinLen(ts[1..])
  }

  lemma TokensOfOpened(t: string, s: string)
    requires Lexable(t)
    ensures Tokens(Opened(t) + [Gap(t)] + s) == [t] + Tokens(s)
    ensures Tokens(Opened(t)) == [t]
  {
    hide NextToken;
    var p, tail := Opened(t), [Gap(t)] + s;
    assert p + [Gap(t)] + s == p + tail && p + [] == p && tail[1..] == s;
    TokensOfEmpty();
    if Bare(t) {
      NextOfBare(t, tail);
      NextOfBare(t, []);
    } else {
      assert p + tail == "\"" + t + "\"" + s;
      NextOfQuoted(t, s);
      NextOfOpen(t);
    }
    TokensStep(p + tail, t, s);
    TokensStep(p, t, []);
  }

  /** The shortest line has exactly these tokens and that length. */
  lemma {:induction false} ShortestRoundTrip(ts: seq<string>)
    requires forall t :: t in ts ==> Lexable(t)
    ensures Tokens(Shortest(ts)) == ts
    ensures |Shortest(ts)| == MinLen(ts)
  {
    hide NextToken, Tokens, Bare;
    if ts == [] {
      TokensOfEmpty();
    } else {
      ShortestRoundTrip(ts[1..]);
      TokensOfOpened(ts[0], Shortest(ts[1..]));
      assert ts == [ts[0]] + ts[1..];
    }
  }

  /** A token, its quote if it needs one, and what separates it from a rest were all in the line. */
  lemma TokenCost(line: string, t: string, rest: string)
    requires NextToken(line) == Token(t, rest)
    ensures |Opened(t)| + (if rest == [] then 0 else 1) + |rest| <= |line|
  {
    var n := Lead(line, SPACE);
    LeadStops(line, SPACE);
    NonSpaceAt(line);
    if line[n] != '"' {
      SpanStops(line[n..], {' '});
      assert Bare(t);
    }
  }

  /** No line with these tokens is shorter. */
  lemma {:induction false} ShortestIsShortest(line: string)
    ensures MinLen(Tokens(line)) <= |line|
    decreases |line|
  {
    hide NextToken, Bare;
    match NextToken(line)
    case End =>
    case Token(t, rest) =>
      TokenCost(line, t, rest);
      TokensStep(line, t, rest);
      TokensOfEmpty();
      hide Tokens;
      ShortestIsShortest(rest);
  }

  /** One token of a line is lexable and holds only characters of the line. */
  lemma NextTokenIsLexable(line: string, bad: set<char>)
    requires Avoids(line, bad) && NextToken(line).Token?
    ensures Lexable(NextToken(line).text)
    ensures Avoids(NextToken(line).text, bad) && Avoids(NextToken(line).rest, bad)
  {
    var n := Lead(line, SPACE);
    LeadStops(line, SPACE);
    if line[n] == '"' {
      SpanStops(line[n + 1..], {'"'});
    } else {
      NonSpaceAt(line);
      SpanStops(line[n..], {' '});
    }
  }

  /** Conversely every token of every line is lexable, and holds only characters of the line. */
  lemma {:induction false} TokensAreLexable(line: string, bad: set<char>)
    requires Avoids(line, bad)
    ensures forall t :: t in Tokens(line) ==> Lexable(t) && Avoids(t, bad)
    decreases |line|
  {
    hide NextToken;
    match NextToken(line)
    case End =>
    case Token(t, rest) =>
      NextTokenIsLexable(line, bad);
      TokensAreLexable(rest, bad);
  }

  /** Exactly the lists of lexable tokens with that minimal length are the token lists of some line
      of at most `n` characters. */
  lemma ShortLinesExactly(ts: seq<string>, n: nat)
    ensures (exists line :: |line| <= n && Tokens(line) == ts) <==>
            (forall t :: t in ts ==> Lexable(t)) && MinLen(ts) <= n
  {
    if forall t :: t in ts ==> Lexable(t) {
      ShortestRoundTrip(ts);
    }
    forall line | |line| <= n && Tokens(line) == ts
      ensures (forall t :: t in ts ==> Lexable(t)) && MinLen(ts) <= n
    {
      TokensAreLexable(line, {});
      ShortestIsShortest(line);
    }
  }

  /** Leaving tokens out at the end, or making tokens shorter to print, makes the line shorter. */
  lemma {:induction false} MinLenMonotone(ts: seq<string>, ts': seq<string>)
    requires |ts| <= |ts'|
    requires forall k :: 0 <= k < |ts| ==> |Opened(ts[k])| <= |Opened(ts'[k])|
    ensures MinLen(ts) <= MinLen(ts')
  {
    hide Bare;
    if ts == [] {
    } else {
      assert |Opened(ts[0])| <= |Opened(ts'[0])|;
      MinLenMonotone(ts[1..], ts'[1..]);
    }
  }

  /** Exactly the lists of lexable tokens are the token lists of some line. */
  lemma LexableExactly(ts: seq<string>)
    ensures (exists line :: Tokens(line) == ts) <==> (forall t :: t in ts ==> Lexable(t))
  {
    if forall t :: t in ts ==> Lexable(t) {
      PrintedTokensRoundTrip(ts);
    }
    forall line | Tokens(line) == ts
      ensures forall t :: t in ts ==> Lexable(t)
    {
      TokensAreLexable(line, {});
    }
  }

  /** Printing keeps a token list on one line. */
  lemma {:induction false} PrintedTokensOneLine(ts: seq<string>, bad: set<char>)
    requires bad !! (SPACE + QUOTE)
    requires forall t :: t in ts ==> Avoids(t, bad)
    ensures Avoids(PrintTokens(ts), bad) && Avoids(Shortest(ts), bad)
  {
    if ts == [] {
    } else {
      assert Avoids(ts[0], bad);
      assert Avoids(PrintToken(ts[0]), bad) && Avoids(Opened(ts[0]), bad);
      PrintedTokensOneLine(ts[1..], bad);
    }
  }
}
