/**
 What a bootstrap script means: the list of system requests it makes
 (sysinit/run_s.c, process_bootstrap_script and the s_cmd_* handlers).
 */
module Script {
  import opened CStrings
  import opened Lexer

  /** Requests to the system, in the order the interpreter makes them.  `Spawn` is a fork whose
      child executes `argv`; `Exit` ends the process. */
  datatype Effect =
    | Spawn(argv: seq<string>)
    | WaitFor(path: string)
    | Exit
    | Mknod(path: string, mode: string, kind: char)
    | Sleep(seconds: string)
    | Chdir(path: string)
    | Pivot(newRoot: string, oldRoot: string)
    | RenameMount(newPath: string, oldPath: string)
    | CreatePort

  /** A line whose first token is missing, empty or starts with `#` asks for nothing. */
  predicate Ignored(ts: seq<string>) {
    ts == [] || ts[0] == [] || ts[0][0] == '#'
  }

  // What each command asks for, given the tokens after the command word.

  function StartEffects(args: seq<string>): seq<Effect> {
    if args == [] then [] else [Spawn(args)]
  }

  function WaitForEffects(args: seq<string>): seq<Effect> {
    if args == [] then [Exit] else [WaitFor(args[0])]
  }

  function MknodEffects(args: seq<string>): seq<Effect> {
    if |args| < 3 || args[2] == [] || (args[2][0] != 'c' && args[2][0] != 'b') then []
    else [Mknod(args[0], args[1], args[2][0])]
  }

  function SleepEffects(args: seq<string>): seq<Effect> {
    if args == [] then [] else [Sleep(args[0])]
  }

  function ChdirEffects(args: seq<string>): seq<Effect> {
    if args == [] then [] else [Chdir(args[0])]
  }

  function PivotEffects(args: seq<string>): seq<Effect> {
    if |args| < 2 then [] else [Pivot(args[0], args[1])]
  }

  function RenameMountEffects(args: seq<string>): seq<Effect> {
    if |args| < 2 then [] else [RenameMount(args[0], args[1])]
  }

  /** The command table; unknown commands ask for nothing. */
  function Command(cmd: string, args: seq<string>): seq<Effect> {
    if cmd == "start" then StartEffects(args)
    else if cmd == "waitfor" then WaitForEffects(args)
    else if cmd == "mknod" then MknodEffects(args)
    else if cmd == "sleep" then SleepEffects(args)
    else if cmd == "chdir" then ChdirEffects(args)
    else if cmd == "pivot" then PivotEffects(args)
    else if cmd == "renamemount" then RenameMountEffects(args)
    else if cmd == "createport" then [CreatePort]
    else []
  }

  /** What one tokenized line asks for: at most one request. */
  function LineEffects(ts: seq<string>): (es: seq<Effect>)
    ensures |es| <= 1
  {
    if Ignored(ts) then [] else Command(ts[0], ts[1..])
  }

  function Meaning(line: string): (es: seq<Effect>) {
    LineEffects(Tokens(line))
  }

  /** The token list of a line asks for a request: the command with as many tokens as it takes, and
      any more behind them; the type of a device is known by its first letter, and only the bare
      word `waitfor` ends the process. */
  predicate AsksFor(ts: seq<string>, e: Effect) {
    match e
    case Spawn(argv) => argv != [] && ts == ["start"] + argv
    case WaitFor(p) => ["waitfor", p] <= ts
    case Exit => ts == ["waitfor"]
    case Mknod(p, m, k) =>
      ["mknod", p, m] <= ts && |ts| > 3 && ts[3] != [] && ts[3][0] == k && (k == 'c' || k == 'b')
    case Sleep(s) => ["sleep", s] <= ts
    case Chdir(p) => ["chdir", p] <= ts
    case Pivot(n, o) => ["pivot", n, o] <= ts
    case RenameMount(n, o) => ["renamemount", n, o] <= ts
    case CreatePort => ["createport"] <= ts
  }

  lemma RequestIsAskedFor(ts: seq<string>, e: Effect)
    requires LineEffects(ts) == [e]
    ensures AsksFor(ts, e)
  {
    assert ts == [ts[0]] + ts[1..];
  }

  lemma AskedForIsRequest(ts: seq<string>, e: Effect)
    requires AsksFor(ts, e)
    ensures LineEffects(ts) == [e]
  {
    assert e.Spawn? ==> ts[1..] == e.argv;
  }

  lemma RequestExactly(ts: seq<string>, e: Effect)
    ensures LineEffects(ts) == [e] <==> AsksFor(ts, e)
  {
    if LineEffects(ts) == [e] {
      RequestIsAskedFor(ts, e);
    }
    if AsksFor(ts, e) {
      AskedForIsRequest(ts, e);
    }
    hide LineEffects, AsksFor;
  }

  /** For every line and every request: the line makes it if and only if its tokens ask for it. */
  lemma MeaningExactly(line: string, e: Effect)
    ensures Meaning(line) == [e] <==> AsksFor(Tokens(line), e)
    ensures Meaning(line) == [] || exists e' :: Meaning(line) == [e']
  {
    RequestExactly(Tokens(line), e);
    hide Tokens, LineEffects;
    if Meaning(line) != [] {
      assert Meaning(line) == [Meaning(line)[0]];
    }
  }

  /** The tokens of the line that asks for an effect. */
  function EffectTokens(e: Effect): seq<string> {
    match e
    case Spawn(argv) => ["start"] + argv
    case WaitFor(p) => ["waitfor", p]
    case Exit => ["waitfor"]
    case Mknod(p, m, k) => ["mknod", p, m, [k]]
    case Sleep(s) => ["sleep", s]
    case Chdir(p) => ["chdir", p]
    case Pivot(n, o) => ["pivot", n, o]
    case RenameMount(n, o) => ["renamemount", n, o]
    case CreatePort => ["createport"]
  }

  /** More tokens than a command takes change nothing, and only a line of the one token `waitfor` ends
      the process. */
  lemma FurtherTokensIgnored(line: string, e: Effect, extra: seq<string>)
    requires !e.Spawn? && !e.Exit?
    requires e.Mknod? ==> e.kind == 'c' || e.kind == 'b'
    ensures Tokens(line) == EffectTokens(e) + extra ==> Meaning(line) == [e]
    ensures Exit in Meaning(line) <==> Tokens(line) == ["waitfor"]
  {
    MeaningExactly(line, e);
    MeaningExactly(line, Exit);
    hide Tokens, LineEffects;
    if Exit in Meaning(line) {
      assert Meaning(line) == [Exit];
    }
  }

  /** The requests of a whole script; nothing after an `Exit` is read. */
  function Trace(text: string): seq<Effect>
    decreases |text|
  {
    if text == [] then []
    else
      var es := Meaning(FirstLine(text));
      if es == [Exit] then es else es + Trace(AfterLine(text))
  }

  /** Every line the interpreter reads fits the line buffer of 256 bytes with its NUL. */
  predicate Fits(text: string)
    decreases |text|
  {
    text != [] ==>
      && |FirstLine(text)| <= 255
      && (Meaning(FirstLine(text)) == [Exit] || Fits(AfterLine(text)))
  }

  /** Running `second` after `first`. */
  function Then(first: seq<Effect>, second: seq<Effect>): seq<Effect> {
    if Exit in first then first else first + second
  }

  /** One line of a script, as a composition. */
  lemma TraceStep(text: string)
    requires text != []
    ensures Trace(text) == Then(Meaning(FirstLine(text)), Trace(AfterLine(text)))
    ensures |Meaning(FirstLine(text))| <= 1
  {
    hide LineEffects;
    var es := Meaning(FirstLine(text));
    assert |es| <= 1;
    assert Exit in es <==> es == [Exit];
  }

  lemma MeaningOfNothing()
    ensures Meaning([]) == []
  {
    TokensOfEmpty();
  }

  lemma TraceOfNothing()
    ensures Trace([]) == [] && Fits([])
  {
  }

  /** `Exit` comes last. */
  predicate ExitsLast(es: seq<Effect>) {
    forall k :: 0 <= k < |es| - 1 ==> es[k] != Exit
  }

  /** `Exit` can only be the last request of a script. */
  lemma {:induction false} ExitIsLast(text: string)
    ensures ExitsLast(Trace(text))
    decreases |text|
  {
    if text == [] {
    } else {
      TraceStep(text);
      ExitIsLast(AfterLine(text));
      hide Trace, Meaning;
    }
  }

  /** A script of one line, with no line end. */
  lemma TraceOfLine(line: string)
    requires Avoids(line, EOL)
    ensures Trace(line) == Meaning(line)
  {
    hide Meaning, FirstLine, AfterLine;
    OneLine(line);
    if line == [] {
      MeaningOfNothing();
    } else {
      TraceStep(line);
    }
  }

  /** Two scripts joined by a line end run one after the other: the lexer state the first one
      leaves never reaches the second, unless the first one exits. */
  lemma {:induction false} Compose(a: string, c: char, b: string)
    requires c in EOL
    ensures Trace(a + [c] + b) == Then(Trace(a), Trace(b))
    decreases |a|
  {
    hide Trace, Meaning, FirstLine, AfterLine;
    FirstLineOfJoin(a, c, b);
    TraceStep(a + [c] + b);
    if Avoids(a, EOL) {
      TraceOfLine(a);
    } else {
      TraceStep(a);
      Compose(AfterLine(a), c, b);
    }
  }

  /** One line of a script, as far as the line buffer is concerned. */
  lemma FitsStep(text: string)
    requires text != []
    ensures Fits(text) <==>
            |FirstLine(text)| <= 255 && (Exit in Meaning(FirstLine(text)) || Fits(AfterLine(text)))
  {
    hide LineEffects;
    var es := Meaning(FirstLine(text));
    assert |es| <= 1;
    assert Exit in es <==> es == [Exit];
  }

  /** The joined script stays within the line buffer exactly when its parts do; the second part
      matters only if it is reached. */
  lemma {:induction false} ComposeFits(a: string, c: char, b: string)
    requires c in EOL
    ensures Fits(a + [c] + b) <==> Fits(a) && (Exit in Trace(a) || Fits(b))
    decreases |a|
  {
    hide Trace, Meaning, FirstLine, AfterLine;
    FirstLineOfJoin(a, c, b);
    FitsStep(a + [c] + b);
    if Avoids(a, EOL) {
      TraceOfLine(a);
      MeaningOfNothing();
      if a != [] {
        FitsStep(a);
      }
    } else {
      FitsStep(a);
      TraceStep(a);
      ComposeFits(AfterLine(a), c, b);
    }
  }

  // ------------------------------------------- edits that keep the meaning

  /** Every LF replaced by CR LF. */
  function CrLf(text: string): string {
    if text == [] then []
    else (if text[0] == '\n' then "\r\n" else [text[0]]) + CrLf(text[1..])
  }

  lemma {:induction false} CrLfOfLine(line: string, rest: string)
    requires Avoids(line, {'\n'})
    ensures CrLf(line + rest) == line + CrLf(rest)
  {
    if line == [] {
      assert line + rest == rest;
    } else {
      CrLfOfLine(line[1..], rest);
      assert (line + rest)[1..] == line[1..] + rest;
    }
  }

  /** One line end replaced, the rest by induction. */
  lemma CrLfAtLineEnd(line: string, c: char, rest: string)
    requires Avoids(line, EOL) && c in EOL
    ensures CrLf(line + [c] + rest) ==
            if c == '\n' then line + ['\r'] + ([] + ['\n'] + CrLf(rest)) else line + [c] + CrLf(rest)
  {
    assert line + [c] + rest == line + ([c] + rest);
    CrLfOfLine(line, [c] + rest);
    assert ([c] + rest)[1..] == rest;
    if c == '\n' {
      assert line + ("\r\n" + CrLf(rest)) == line + ['\r'] + ([] + ['\n'] + CrLf(rest));
    } else {
      assert line + ([c] + CrLf(rest)) == line + [c] + CrLf(rest);
    }
  }

  lemma BlankLineFirst(b: string)
    ensures Trace([] + ['\n'] + b) == Trace(b)
    ensures Fits([] + ['\n'] + b) == Fits(b)
  {
    hide Meaning;
    Compose([], '\n', b);
    ComposeFits([], '\n', b);
  }

  /** Joining through CR LF is joining through LF: the empty line in between is silent. */
  lemma ComposeCrLf(a: string, b: string)
    ensures Trace(a + ['\r'] + ([] + ['\n'] + b)) == Then(Trace(a), Trace(b))
    ensures Fits(a + ['\r'] + ([] + ['\n'] + b)) <==> Fits(a) && (Exit in Trace(a) || Fits(b))
  {
    hide Trace, Fits;
    var b' := [] + ['\n'] + b;
    BlankLineFirst(b);
    Compose(a, '\r', b');
    ComposeFits(a, '\r', b');
  }

  /** Changing line ends from LF to CR LF changes neither what a script asks for nor whether it
      fits the line buffer, even for scripts that already mix the two. */
  lemma {:induction false} CrLfKeepsTrace(text: string)
    ensures Trace(CrLf(text)) == Trace(text)
    ensures Fits(CrLf(text)) == Fits(text)
    decreases |text|
  {
    var n := Span(text, EOL);
    var line := text[..n];
    SpanStops(text, EOL);
    hide Trace, Fits;
    if n == |text| {
      CrLfOfLine(text, []);
      assert text + [] == text;
    } else {
      var c, rest := text[n], text[n + 1..];
      assert text == line + [c] + rest;
      CrLfAtLineEnd(line, c, rest);
      Compose(line, c, rest);
      ComposeFits(line, c, rest);
      CrLfKeepsTrace(rest);
      if c == '\n' {
        ComposeCrLf(line, CrLf(rest));
      } else {
        Compose(line, c, CrLf(rest));
        ComposeFits(line, c, CrLf(rest));
      }
    }
  }

  /** Blank lines, lines of spaces only, and lines whose first token is empty or starts
      with `#`, quoted or not; read off the characters of the line. */
  predicate BlankOrComment(line: string) {
    var s := line[Lead(line, SPACE)..];
    Avoids(line, EOL) &&
    (s == [] || s[0] == '#' || (s[0] == '"' && (|s| == 1 || s[1] == '#' || s[1] == '"')))
  }

  lemma FirstOfCut(s: string, sep: char)
    ensures CutAt(s, sep).text == [] <==> s == [] || s[0] == sep
    ensures CutAt(s, sep).text != [] ==> CutAt(s, sep).text[0] == s[0]
  {
  }

  /** These are exactly the lines the dispatcher skips. */
  lemma BlankOrCommentExactly(line: string)
    requires Avoids(line, EOL)
    ensures BlankOrComment(line) <==> Ignored(Tokens(line))
  {
    var n := Lead(line, SPACE);
    var s := line[n..];
    if s != [] {
      var x := NextToken(line);
      TokensStep(line, x.text, x.rest);
      hide Tokens;
      LeadStops(line, SPACE);
      FirstOfCut(if s[0] == '"' then line[n + 1..] else s, if s[0] == '"' then '"' else ' ');
    }
  }

  lemma BlankOrCommentIsSilent(line: string)
    requires BlankOrComment(line)
    ensures Trace(line) == []
  {
    BlankOrCommentExactly(line);
    TraceOfLine(line);
  }

  /** The lines of a script file, each ended by LF. */
  function Join(ls: seq<string>): string {
    if ls == [] then [] else ls[0] + ['\n'] + Join(ls[1..])
  }

  /** The lines that are not blank and not comments. */
  function Stripped(ls: seq<string>): seq<string> {
    if ls == [] then []
    else (if BlankOrComment(ls[0]) then [] else [ls[0]]) + Stripped(ls[1..])
  }

  /** Every blank or comment line that is reached fits the line buffer. */
  predicate ShortComments(ls: seq<string>) {
    ls != [] ==>
      && (BlankOrComment(ls[0]) ==> |ls[0]| <= 255)
      && (Exit in Trace(ls[0]) || ShortComments(ls[1..]))
  }

  lemma JoinCons(l: string, ls: seq<string>)
    ensures Join([l] + ls) == l + ['\n'] + Join(ls)
  {
    assert ([l] + ls)[1..] == ls;
  }

  /** A single line fits when it has at most 255 characters. */
  lemma FitsLine(line: string)
    requires Avoids(line, EOL)
    ensures Fits(line) <==> |line| <= 255
  {
    OneLine(line);
    if line != [] {
      FitsStep(line);
    }
  }

  /** Removing the blank and comment lines keeps the requests; it keeps the fit too, but for the
      lines removed. */
  lemma {:induction false} StripKeepsTrace(ls: seq<string>)
    ensures Trace(Join(ls)) == Trace(Join(Stripped(ls)))
    ensures Fits(Join(ls)) <==> Fits(Join(Stripped(ls))) && ShortComments(ls)
  {
    hide Trace, Fits;
    if ls == [] {
    } else {
      StripKeepsTrace(ls[1..]);
      var rest := Stripped(ls[1..]);
      Compose(ls[0], '\n', Join(ls[1..]));
      ComposeFits(ls[0], '\n', Join(ls[1..]));
      if BlankOrComment(ls[0]) {
        BlankOrCommentIsSilent(ls[0]);
        FitsLine(ls[0]);
        assert Stripped(ls) == rest;
      } else {
        Compose(ls[0], '\n', Join(rest));
        ComposeFits(ls[0], '\n', Join(rest));
        JoinCons(ls[0], rest);
      }
    }
  }

  /** Any number of blank or comment lines may be inserted or removed anywhere.  A script that fits
      the line buffer still does afterwards exactly when the inserted lines do. */
  lemma BlanksAndCommentsAreFree(ls: seq<string>, ls': seq<string>)
    requires Stripped(ls) == Stripped(ls')
    ensures Trace(Join(ls)) == Trace(Join(ls'))
    ensures Fits(Join(ls)) ==> (Fits(Join(ls')) <==> ShortComments(ls'))
  {
    StripKeepsTrace(ls);
    StripKeepsTrace(ls');
  }

  // ----------------------------------------------------------- normal form

  /** Characters no line of a script holds. */
  const STOPS: set<char> := EOL + {NUL}

  /** Some line of a script asks for the effect. */
  predicate Printable(e: Effect) {
    && (forall t :: t in EffectTokens(e) ==> Lexable(t) && Avoids(t, STOPS))
    && (e.Spawn? ==> e.argv != [])
    && (e.Mknod? ==> e.kind in {'c', 'b'})
  }

  /** Some line that fits the line buffer asks for it. */
  predicate Storable(e: Effect) {
    Printable(e) && MinLen(EffectTokens(e)) <= 255
  }

  /** A script that asks for exactly the given effects, one line of least length for each. */
  function PrintScript(es: seq<Effect>): string {
    if es == [] then [] else Shortest(EffectTokens(es[0])) + ['\n'] + PrintScript(es[1..])
  }

  lemma AvoidsFewer(s: string, bad: set<char>, bad': set<char>)
    requires Avoids(s, bad) && bad' <= bad
    ensures Avoids(s, bad')
  {
  }

  lemma EffectOfTokens(e: Effect)
    requires e.Spawn? ==> e.argv != []
    requires e.Mknod? ==> e.kind in {'c', 'b'}
    ensures LineEffects(EffectTokens(e)) == [e]
  {
    assert e.Spawn? ==> EffectTokens(e)[1..] == e.argv;
  }

  lemma PrintedEffect(e: Effect)
    requires Printable(e)
    ensures var line := Shortest(EffectTokens(e));
            && Trace(line) == [e]
            && (Fits(line) <==> Storable(e))
            && NUL !in line
  {
    var ts := EffectTokens(e);
    hide Trace, Fits, LineEffects, Tokens, EffectTokens, Bare;
    ShortestRoundTrip(ts);
    PrintedTokensOneLine(ts, STOPS);
    AvoidsFewer(Shortest(ts), STOPS, EOL);
    TraceOfLine(Shortest(ts));
    FitsLine(Shortest(ts));
    EffectOfTokens(e);
  }

  /** The quoting round trip through the line reader as well as the tokenizer; the line with its
      quotes must still fit the line buffer. */
  lemma TraceOfPrinted(ts: seq<string>)
    requires forall t :: t in ts ==> Lexable(t) && Avoids(t, EOL)
    ensures FirstLine(PrintTokens(ts)) == PrintTokens(ts)
    ensures Tokens(FirstLine(PrintTokens(ts))) == ts
    ensures Trace(PrintTokens(ts)) == LineEffects(ts)
    ensures Fits(PrintTokens(ts)) <==> |PrintTokens(ts)| <= 255
  {
    hide Trace, Fits, LineEffects;
    PrintedTokensRoundTrip(ts);
    PrintedTokensOneLine(ts, EOL);
    TraceOfLine(PrintTokens(ts));
    OneLine(PrintTokens(ts));
    FitsLine(PrintTokens(ts));
  }

  lemma RequestsAfterFirst(es: seq<Effect>)
    requires es != [] && ExitsLast(es)
    ensures ExitsLast(es[1..])
    ensures Then([es[0]], es[1..]) == es
    ensures Exit in [es[0]] ==> es[1..] == []
    ensures (forall e :: e in es ==> Storable(e)) <==>
            Storable(es[0]) && forall e :: e in es[1..] ==> Storable(e)
  {
    assert es == [es[0]] + es[1..];
    hide Storable;
  }

  /** Printing a list of effects and running the script performs exactly that list; the script fits
      the line buffer exactly when every effect has a line that does, and it holds no NUL. */
  lemma {:induction false} PrintedScriptRuns(es: seq<Effect>)
    requires forall e :: e in es ==> Printable(e)
    requires ExitsLast(es)
    ensures Trace(PrintScript(es)) == es
    ensures Fits(PrintScript(es)) <==> forall e :: e in es ==> Storable(e)
    ensures NUL !in PrintScript(es)
  {
    hide Trace, Fits, Shortest, Printable, Storable, ExitsLast;
    if es == [] {
      TraceOfNothing();
    } else {
      var e, rest := es[0], es[1..];
      RequestsAfterFirst(es);
      PrintedScriptRuns(rest);
      PrintedEffect(e);
      Compose(Shortest(EffectTokens(e)), '\n', PrintScript(rest));
      ComposeFits(Shortest(EffectTokens(e)), '\n', PrintScript(rest));
    }
  }

  lemma DeviceLetter(e: Effect)
    ensures e.Mknod? && e.kind in {'c', 'b'} ==> Lexable([e.kind]) && Avoids([e.kind], STOPS)
  {
  }

  /** The tokens of an effect are the first tokens of its line, except for a device letter. */
  lemma EffectTokensAreFirst(ts: seq<string>, e: Effect)
    requires LineEffects(ts) == [e]
    ensures e.Spawn? ==> e.argv != []
    ensures e.Mknod? ==> e.kind in {'c', 'b'}
    ensures var ts' := EffectTokens(e);
            && |ts'| <= |ts|
            && forall k :: 0 <= k < |ts'| ==>
                 ts'[k] == ts[k] || (e.Mknod? && ts'[k] == [e.kind] && ts[k] != [])
  {
    var ts' := EffectTokens(e);
    assert ts == [ts[0]] + ts[1..];
    assert ts'[0] == ts[0];
    if e.Spawn? {
      assert ts' == ts;
    }
  }

  lemma EffectTokensComeFromLine(ts: seq<string>, e: Effect)
    requires LineEffects(ts) == [e]
    ensures e.Spawn? ==> e.argv != []
    ensures e.Mknod? ==> e.kind in {'c', 'b'}
    ensures forall t :: t in EffectTokens(e) ==> t in ts || (e.Mknod? && t == [e.kind])
    ensures MinLen(EffectTokens(e)) <= MinLen(ts)
  {
    EffectTokensAreFirst(ts, e);
    var ts' := EffectTokens(e);
    hide LineEffects, EffectTokens, MinLen;
    MinLenMonotone(ts', ts);
  }

  lemma MeaningIsPrintable(line: string)
    requires Avoids(line, STOPS)
    ensures forall e :: e in Meaning(line) ==> Printable(e) && MinLen(EffectTokens(e)) <= |line|
  {
    TokensAreLexable(line, STOPS);
    ShortestIsShortest(line);
    var ts, es := Tokens(line), Meaning(line);
    if es != [] {
      var e := es[0];
      EffectTokensComeFromLine(ts, e);
      DeviceLetter(e);
      hide Tokens, MinLen, Lexable, Avoids, LineEffects, EffectTokens;
      assert es == [e];
      assert Printable(e);
    }
  }

  /** Every effect a script can produce is printable, and one that is read through the line buffer
      has a line that fits it. */
  lemma {:induction false} TraceIsPrintable(text: string)
    requires NUL !in text
    ensures forall e :: e in Trace(text) ==> Printable(e)
    ensures Fits(text) ==> forall e :: e in Trace(text) ==> Storable(e)
    decreases |text|
  {
    if text == [] {
    } else {
      var line := FirstLine(text);
      TraceIsPrintable(AfterLine(text));
      TraceStep(text);
      FitsStep(text);
      FirstLineIsClean(text);
      assert Avoids(line, STOPS);
      hide Trace, Fits, Meaning, Printable, MinLen, EffectTokens;
      MeaningIsPrintable(line);
    }
  }

  /** Every script has a normal form, the printed list of its effects, that does the same; it fits
      the line buffer if the script does. */
  lemma NormalForm(text: string)
    requires NUL !in text
    ensures Trace(PrintScript(Trace(text))) == Trace(text)
    ensures Fits(text) ==> Fits(PrintScript(Trace(text)))
    ensures NUL !in PrintScript(Trace(text))
  {
    hide Trace, Fits, Storable, Printable, PrintScript;
    TraceIsPrintable(text);
    ExitIsLast(text);
    PrintedScriptRuns(Trace(text));
  }

  /** Exactly the lists of storable effects in which `Exit` comes last are the traces of scripts the
      interpreter can run: C strings whose lines fit the line buffer. */
  lemma TracesExactly(es: seq<Effect>)
    ensures (exists text :: NUL !in text && Fits(text) && Trace(text) == es) <==>
            (forall e :: e in es ==> Storable(e)) && ExitsLast(es)
  {
    hide Trace, Fits, PrintScript, EffectTokens, MinLen;
    if (forall e :: e in es ==> Storable(e)) && ExitsLast(es) {
      PrintedScriptRuns(es);
    }
    forall text | NUL !in text && Fits(text) && Trace(text) == es
      ensures (forall e :: e in es ==> Storable(e)) && ExitsLast(es)
    {
      TraceIsPrintable(text);
      ExitIsLast(text);
    }
  }
}
