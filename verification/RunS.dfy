/**
 The bootstrap script interpreter as it runs: one cursor over the script, one fixed line buffer
 that the tokenizer cuts up in place, one static tokenizer cursor, and an argument array of
 pointers into the line buffer (sysinit/run_s.c).
 */
module RunS {
  import opened CStrings
  import opened Lexer
  import opened Script

  const ARG_SZ := 256
  const LINE_SZ := 256

  // The steps of the two lexers on the bytes of a buffer.

  /** Within the first line, the byte at the cursor tells whether the line ends there. */
  lemma LineScan(b: seq<char>, i: nat, k: nat)
    requires Terminated(b, i) && k <= |FirstLine(CStr(b, i))|
    ensures i + k < |b|
    ensures k < |FirstLine(CStr(b, i))| <==> b[i + k] != NUL && b[i + k] != '\r' && b[i + k] != '\n'
    ensures CStr(b, i) == [] <==> b[i] == NUL
  {
    ScanAt(b, i, EOL, k);
  }

  lemma CopyReads(b: seq<char>, i: nat, n: nat, lb: seq<char>)
    requires i <= |b| && n <= |CStr(b, i)|
    requires n < |lb| && lb[n] == NUL && forall k :: 0 <= k < n ==> lb[k] == b[i + k]
    ensures CStr(lb, 0) == CStr(b, i)[..n]
  {
    hide CStr;
    CStrShape(b, i);
    assert lb[0..n] == CStr(b, i)[..n];
    CStrIs(lb, 0, n);
  }

  /** Past the first line and the CR or LF that ended it, the rest of the script is left; and a
      buffer holding a copy of the line and a NUL reads as that line. */
  lemma LineDone(b: seq<char>, i: nat, n: nat, i': nat, lb: seq<char>)
    requires Terminated(b, i) && n == |FirstLine(CStr(b, i))| && i + n < |b|
    requires i' == if b[i + n] != NUL then i + n + 1 else i + n
    requires n < |lb| && lb[n] == NUL && forall k :: 0 <= k < n ==> lb[k] == b[i + k]
    ensures Terminated(b, i') && CStr(b, i') == AfterLine(CStr(b, i))
    ensures CStr(lb, 0) == FirstLine(CStr(b, i))
  {
    hide CStr, Span;
    ScanAt(b, i, EOL, n);
    StillTerminated(b, i, i' - i);
    CopyReads(b, i, n, lb);
  }

  /** Cutting a string at its separator in place is cutting it on paper. */
  lemma CutAtInPlace(b: seq<char>, i: nat, sep: char, e: nat, b': seq<char>, c: nat)
    requires Terminated(b, i) && e == i + Span(CStr(b, i), {sep}) < |b|
    requires b' == if b[e] == sep then b[e := NUL] else b
    requires c == if b[e] == sep then e + 1 else e
    requires sep != NUL
    ensures c < |b| && Terminated(b', c) && i + |CStr(b', i)| == e
    ensures CutAt(CStr(b, i), sep) == Token(CStr(b', i), CStr(b', c))
  {
    hide CStr, Span;
    ScanAt(b, i, {sep}, e - i);
    CutInPlace(b, i, {sep}, e, b', c);
  }

  /** A token cut out in place: after the spaces and perhaps an opening quote, up to offset `e`,
      where the separator, if there is one, becomes NUL. */
  lemma TokenInPlace(b: seq<char>, c: nat, n: nat, sep: char, start: nat, e: nat,
                     b': seq<char>, c': nat)
    requires Terminated(b, c) && n == Lead(CStr(b, c), SPACE)
    requires c + n < |b| && b[c + n] != NUL
    requires if b[c + n] == '"' then sep == '"' && start == c + n + 1 else sep == ' ' && start == c + n
    requires start <= |b| && e == start + Span(CStr(b, start), {sep}) < |b|
    requires b' == if b[e] == sep then b[e := NUL] else b
    requires c' == if b[e] == sep then e + 1 else e
    ensures c < e && start <= e
    ensures start < c' + 1 <= |b| == |b'| && Terminated(b', c')
    ensures start + |CStr(b', start)| <= c'
    ensures NextToken(CStr(b, c)) == Token(CStr(b', start), CStr(b', c'))
  {
    hide NextToken, CutAt, CStr, Lead, Span;
    SkipAt(b, c, SPACE, n);
    StillTerminated(b, c, start - c);
    NextTokenAt(CStr(b, c), n);
    CutAtInPlace(b, start, sep, e, b', c');
  }

  /** Only spaces are left. */
  lemma NoTokenLeft(b: seq<char>, c: nat, n: nat)
    requires Terminated(b, c) && n == Lead(CStr(b, c), SPACE)
    requires c + n < |b| && b[c + n] == NUL
    ensures NextToken(CStr(b, c)) == End && CStr(b, c + n) == []
  {
    SkipAt(b, c, SPACE, n);
  }

  /** A string is empty at a NUL and otherwise starts with the byte it points to. */
  lemma FirstByte(b: seq<char>, i: nat)
    requires i < |b|
    ensures CStr(b, i) == if b[i] == NUL then [] else [b[i]] + CStr(b, i + 1)
  {
  }

  /** Having made the requests `done` without exiting, the interpreter still has `rest` to run. */
  ghost predicate RunsAs(text: string, done: seq<Effect>, rest: string) {
    Trace(text) == done + Trace(rest) && Exit !in done
  }

  lemma RunBegins(text: string)
    ensures RunsAs(text, [], text)
  {
  }

  lemma AppendStep(done: seq<Effect>, es: seq<Effect>, later: seq<Effect>)
    requires Exit !in done && |es| <= 1
    ensures if es == [Exit] then done + Then(es, later) == done + es && Exit in done + es
            else done + Then(es, later) == (done + es) + later && Exit !in done + es && Exit !in es
  {
    if es != [] {
      assert es == [es[0]];
      assert (done + es)[|done|] == es[0];
    }
  }

  lemma RunStep(text: string, done: seq<Effect>, rest: string)
    requires RunsAs(text, done, rest) && rest != []
    ensures var es := Meaning(FirstLine(rest));
            if es == [Exit] then Trace(text) == done + es && Exit in Trace(text)
            else RunsAs(text, done + es, AfterLine(rest)) && Exit !in es
  {
    hide Trace, Meaning, FirstLine, AfterLine;
    TraceStep(rest);
    AppendStep(done, Meaning(FirstLine(rest)), Trace(AfterLine(rest)));
  }

  lemma RunEnds(text: string, done: seq<Effect>)
    requires RunsAs(text, done, [])
    ensures Trace(text) == done && Exit !in Trace(text)
  {
    TraceOfNothing();
  }

  class Interpreter {
    // script buffer and cursor (src)
    var script: array<char>
    var src: nat
    // line buffer, tokenizer cursor into it (static ch), argument array
    const linebuf: array<char>
    var ch: nat
    const startArgv: array<Option<nat>>
    // the requests made so far
    var trace: seq<Effect>

    constructor ()
      ensures Valid() && trace == [] && fresh(linebuf) && fresh(startArgv) && fresh(script)
    {
      script, src, ch, trace := new char[1](_ => NUL), 0, 0, [];
      linebuf := new char[LINE_SZ](_ => NUL);
      startArgv := new Option<nat>[ARG_SZ](_ => None);
    }

    /** The buffers are separate objects of their fixed sizes, and pointers stay inside them. */
    ghost predicate Valid()
      reads this`script, startArgv
    {
      && linebuf.Length == LINE_SZ && startArgv.Length == ARG_SZ
      && linebuf != script
      && forall k :: 0 <= k < ARG_SZ && startArgv[k].Some? ==> startArgv[k].value < LINE_SZ
    }

    /** The script cursor points into a NUL-terminated buffer. */
    ghost predicate Loaded()
      reads this`script, this`src, script
    {
      Terminated(script[..], src)
    }

    /** What is left of the script. */
    ghost function Text(): string
      requires src <= script.Length
      reads this`script, this`src, script
    {
      CStr(script[..], src)
    }

    /** A line has been read and the tokenizer cursor points into it. */
    ghost predicate InLine()
      reads this`ch, linebuf
    {
      linebuf.Length == LINE_SZ && ch < LINE_SZ && linebuf[LINE_SZ - 1] == NUL
    }

    /** What a pointer into the line buffer reads as. */
    function Str(p: nat): string
      requires p <= linebuf.Length
      reads linebuf
    {
      CStr(linebuf[..], p)
    }

    /** What the tokenizer has not consumed yet. */
    ghost function Rest(): string
      requires InLine()
      reads this`ch, linebuf
    {
      Str(ch)
    }

    /** The string at `p` ends at or before the tokenizer cursor. */
    ghost predicate Sealed(p: nat)
      reads this`ch, linebuf
    {
      p <= linebuf.Length && p + |Str(p)| <= ch
    }

    /** Copies the next line into the line buffer; false is the NULL result at the end. */
    method ReadLine() returns (more: bool)
      requires Valid() && Loaded()
      requires Text() != [] ==> |FirstLine(Text())| < LINE_SZ
      modifies this`src, linebuf
      ensures Loaded()
      ensures more <==> old(Text()) != []
      ensures more ==> src > old(src) && Text() == AfterLine(old(Text()))
      ensures more ==> linebuf[LINE_SZ - 1] == NUL && Str(0) == FirstLine(old(Text()))
      ensures !more ==> src == old(src)
    {
      hide FirstLine, AfterLine, CStr;
      ghost var b, s0, n := script[..], src, |FirstLine(Text())|;
      var dst := 0;
      linebuf[255] := NUL;
      LineScan(b, s0, 0);
      if script[src] == NUL {
        return false;
      }
      while script[src] != NUL && script[src] != '\r' && script[src] != '\n'
        invariant dst <= n && src == s0 + dst < |b| && script[..] == b
        invariant dst < n <==> b[src] != NUL && b[src] != '\r' && b[src] != '\n'
        invariant forall k :: 0 <= k < dst ==> linebuf[k] == b[s0 + k]
        invariant linebuf[LINE_SZ - 1] == NUL
        decreases n - dst
      {
        linebuf[dst] := script[src];
        dst, src := dst + 1, src + 1;
        LineScan(b, s0, dst);
      }
      if script[src] != NUL {
        src := src + 1;
      }
      linebuf[dst] := NUL;
      assert script[..] == b;
      LineDone(b, s0, n, src, linebuf[..]);
      return true;
    }

    /** Skips the spaces at the cursor. */
    method SkipSpaces()
      requires InLine()
      modifies this`ch
      ensures InLine() && ch == old(ch) + Lead(old(Rest()), SPACE)
    {
      hide Lead, CStr;
      ghost var b, c0 := linebuf[..], ch;
      ghost var n := Lead(CStr(b, c0), SPACE);
      TerminatedBy(b, c0, LINE_SZ - 1);
      SkipAt(b, c0, SPACE, 0);
      while linebuf[ch] != NUL
        invariant 0 <= ch - c0 <= n && ch < LINE_SZ
        invariant ch - c0 < n <==> b[ch] != NUL && b[ch] == ' '
        decreases LINE_SZ - ch
      {
        if linebuf[ch] != ' ' {
          break;
        }
        ch := ch + 1;
        SkipAt(b, c0, SPACE, ch - c0);
      }
    }

    /** Moves the cursor to the next separator or to the end of the line. */
    method ScanTo(separator: char)
      requires InLine()
      modifies this`ch
      ensures InLine() && ch == old(ch) + Span(old(Rest()), {separator})
    {
      hide Span, CStr;
      ghost var b, c0 := linebuf[..], ch;
      ghost var n := Span(CStr(b, c0), {separator});
      TerminatedBy(b, c0, LINE_SZ - 1);
      ScanAt(b, c0, {separator}, 0);
      while linebuf[ch] != NUL && linebuf[ch] != separator
        invariant 0 <= ch - c0 <= n && ch < LINE_SZ
        invariant ch - c0 < n <==> b[ch] != NUL && b[ch] != separator
        decreases LINE_SZ - ch
      {
        ch := ch + 1;
        ScanAt(b, c0, {separator}, ch - c0);
      }
    }

    /** One token from the cursor on.  The result is a pointer into the line buffer, None for
        NULL.  At most one byte changes, the separator behind the token, at offset `cut`. */
    method TokenAtCursor() returns (tok: Option<nat>, ghost cut: Option<nat>)
      requires InLine()
      modifies this`ch, linebuf
      ensures InLine() && old(ch) <= ch
      ensures tok.Some? ==> tok.value < LINE_SZ && Sealed(tok.value) && old(ch) < ch
      ensures NextToken(old(Rest())) == if tok.None? then End else Token(Str(tok.value), Rest())
      ensures tok.None? ==> Rest() == [] && cut.None?
      ensures linebuf[..] == if cut.None? then old(linebuf[..]) else
                if cut.value < LINE_SZ then old(linebuf[..])[cut.value := NUL] else []
      ensures cut.Some? ==> old(ch) < cut.value < LINE_SZ && old(linebuf[..])[cut.value] in {' ', '"'}
    {
      hide NextToken, CStr, Lead, Span;
      ghost var b, c0 := linebuf[..], ch;
      TerminatedBy(b, c0, LINE_SZ - 1);
      SkipSpaces();
      ghost var n := ch - c0;
      cut := None;
      if linebuf[ch] == NUL {
        NoTokenLeft(b, c0, n);
        return None, None;
      }
      var separator := ' ';
      if linebuf[ch] == '"' {
        separator := '"';
        ch := ch + 1;
      }
      tok := Some(ch);
      ScanTo(separator);
      ghost var e := ch;
      if linebuf[ch] == separator {
        cut := Some(ch);
        linebuf[ch] := NUL;
        ch := ch + 1;
      }
      TokenInPlace(b, c0, n, separator, tok.value, e, linebuf[..], ch);
    }

    /** One token (s_tokenize), from the start of the line buffer or from where the last call
        stopped; strings that ended before the cursor stay as they were. */
    method Tokenize(restart: bool) returns (tok: Option<nat>, ghost cut: Option<nat>)
      requires Valid() && linebuf[LINE_SZ - 1] == NUL && (restart || ch < LINE_SZ)
      modifies this`ch, linebuf
      ensures InLine()
      ensures tok.Some? ==> tok.value < LINE_SZ && Sealed(tok.value)
      ensures NextToken(old(Str(if restart then 0 else ch))) ==
              if tok.None? then End else Token(Str(tok.value), Rest())
      ensures tok.None? ==> Rest() == [] && cut.None?
      ensures tok.Some? && !restart ==> old(ch) < ch
      ensures cut.None? ==> linebuf[..] == old(linebuf[..])
      ensures cut.Some? ==>
                && cut.value < LINE_SZ && old(linebuf[..])[cut.value] in {' ', '"'}
                && linebuf[..] == old(linebuf[..])[cut.value := NUL]
      ensures !restart ==> forall p: nat :: old(Sealed(p)) ==> Sealed(p) && Str(p) == old(Str(p))
    {
      hide NextToken, CStr;
      if restart {
        ch := 0;
      }
      ghost var b, c0 := linebuf[..], ch;
      tok, cut := TokenAtCursor();
      EarlierStrings(b, linebuf[..], c0);
    }

    /** Points the argument array at the remaining tokens of the line, up to the NULL, and forks a
        child that executes it.  Whatever the array held before, the child sees exactly the
        tokens after the command word. */
    method CmdStart() returns (rc: int, es: seq<Effect>)
      requires Valid() && InLine()
      modifies this`ch, linebuf, startArgv
      ensures Valid() && InLine()
      ensures es == StartEffects(Tokens(old(Rest())))
      ensures var ts := Tokens(old(Rest()));
              && |ts| < ARG_SZ && startArgv[|ts|].None?
              && forall k :: 0 <= k < |ts| ==> startArgv[k].Some? && Str(startArgv[k].value) == ts[k]
      ensures (es == [] ==> rc == -1) && (rc == -1 || rc == 0)
    {
      hide NextToken, Tokens, CStr;
      ghost var ts := Tokens(Rest());
      TokenBound(Rest());
      TokensOfEmpty();
      var t, more := 0, true;
      while t < ARG_SZ && more
        invariant Valid() && InLine() && t <= |ts| <= LINE_SZ / 2
        invariant !more ==> t == |ts| && startArgv[t].None?
        invariant forall j :: 0 <= j < t ==>
                    && startArgv[j].Some?
                    && Sealed(startArgv[j].value) && Str(startArgv[j].value) == ts[j]
        invariant Tokens(Rest()) == ts[t..]
        decreases ARG_SZ - t, more
      {
        TokensUnfold(Rest());
        var tok, _ := Tokenize(false);
        startArgv[t] := tok;
        if tok.None? {
          more := false;
        } else {
          t := t + 1;
        }
      }
      if startArgv[0].None? {
        return -1, [];
      }
      ReadArgvStops(startArgv[..], linebuf[..], ts);
      es := [Spawn(ReadArgv(startArgv[..], linebuf[..]))];
      var pid: int := *;
      rc := if pid < 0 then -1 else 0;
    }

    /** Waits for a mount; with no path the process exits. */
    method CmdWaitFor() returns (exited: bool, es: seq<Effect>)
      requires Valid() && InLine()
      modifies this`ch, linebuf
      ensures InLine()
      ensures es == WaitForEffects(Tokens(old(Rest())))
      ensures exited <==> Tokens(old(Rest())) == []
      ensures es == if exited then [Exit] else [WaitFor(Tokens(old(Rest()))[0])]
    {
      var tok, _ := Tokenize(false);
      if tok.None? {
        return true, [Exit];
      }
      return false, [WaitFor(Str(tok.value))];
    }

    /** Makes a device node; the first letter of the type must be `c` or `b`. */
    method CmdMknod() returns (rc: int, es: seq<Effect>)
      requires Valid() && InLine()
      modifies this`ch, linebuf
      ensures InLine()
      ensures es == MknodEffects(Tokens(old(Rest())))
      ensures es == [] ==> rc == -1
    {
      hide NextToken, Tokens, CStr;
      TokensUnfold(Rest());
      var path, _ := Tokenize(false);
      if path.None? {
        return -1, [];
      }
      TokensUnfold(Rest());
      var mode, _ := Tokenize(false);
      if mode.None? {
        return -1, [];
      }
      TokensUnfold(Rest());
      var kind, _ := Tokenize(false);
      if kind.None? {
        return -1, [];
      }
      var letter := linebuf[kind.value];
      FirstByte(linebuf[..], kind.value);
      if letter != 'c' && letter != 'b' {
        return -1, [];
      }
      es := [Mknod(Str(path.value), Str(mode.value), letter)];
      rc := *;
    }

    /** Sleeps. */
    method CmdSleep() returns (rc: int, es: seq<Effect>)
      requires Valid() && InLine()
      modifies this`ch, linebuf
      ensures InLine()
      ensures es == SleepEffects(Tokens(old(Rest())))
      ensures rc == if es == [] then -1 else 0
    {
      var tok, _ := Tokenize(false);
      if tok.None? {
        return -1, [];
      }
      es := [Sleep(Str(tok.value))];
      rc := 0;
    }

    /** Changes the working directory. */
    method CmdChdir() returns (rc: int, es: seq<Effect>)
      requires Valid() && InLine()
      modifies this`ch, linebuf
      ensures InLine()
      ensures es == ChdirEffects(Tokens(old(Rest())))
      ensures es == [] ==> rc == -1
    {
      var tok, _ := Tokenize(false);
      if tok.None? {
        return -1, [];
      }
      es := [Chdir(Str(tok.value))];
      rc := *;
    }

    /** Pivots the root directory. */
    method CmdPivot() returns (rc: int, es: seq<Effect>)
      requires Valid() && InLine()
      modifies this`ch, linebuf
      ensures InLine()
      ensures es == PivotEffects(Tokens(old(Rest())))
      ensures es == [] ==> rc == -1
    {
      var first, _ := Tokenize(false);
      if first.None? {
        return -1, [];
      }
      ghost var rest := Rest();
      var second, _ := Tokenize(false);
      if second.None? {
        return -1, [];
      }
      assert Tokens(old(Rest()))[1..] == Tokens(rest);
      es := [Pivot(Str(first.value), Str(second.value))];
      rc := *;
    }

    /** Renames a mount. */
    method CmdRenameMount() returns (rc: int, es: seq<Effect>)
      requires Valid() && InLine()
      modifies this`ch, linebuf
      ensures InLine()
      ensures es == RenameMountEffects(Tokens(old(Rest())))
      ensures es == [] ==> rc == -1
    {
      var first, _ := Tokenize(false);
      if first.None? {
        return -1, [];
      }
      ghost var rest := Rest();
      var second, _ := Tokenize(false);
      if second.None? {
        return -1, [];
      }
      assert Tokens(old(Rest()))[1..] == Tokens(rest);
      es := [RenameMount(Str(first.value), Str(second.value))];
      rc := *;
    }

    /** Creates the message port of the server. */
    method CmdCreatePort() returns (rc: int, es: seq<Effect>)
      ensures es == [CreatePort]
    {
      es := [CreatePort];
      rc := *;
    }

    /** The command table of the dispatcher, for a first token that is not ignored. */
    method RunCommand(cmd: string) returns (exited: bool, es: seq<Effect>)
      requires Valid() && InLine()
      modifies this`ch, linebuf, startArgv
      ensures Valid()
      ensures es == Command(cmd, Tokens(old(Rest())))
      ensures exited <==> es == [Exit]
    {
      hide Tokens, CStr;
      exited, es := false, [];
      var rc: int;
      if cmd == "start" {
        rc, es := CmdStart();
      } else if cmd == "waitfor" {
        exited, es := CmdWaitFor();
      } else if cmd == "mknod" {
        rc, es := CmdMknod();
      } else if cmd == "sleep" {
        rc, es := CmdSleep();
      } else if cmd == "chdir" {
        rc, es := CmdChdir();
      } else if cmd == "pivot" {
        rc, es := CmdPivot();
      } else if cmd == "renamemount" {
        rc, es := CmdRenameMount();
      } else if cmd == "createport" {
        rc, es := CmdCreatePort();
      }
    }

    /** One line of the script: its first token chooses the command. */
    method RunLine() returns (exited: bool, es: seq<Effect>)
      requires Valid() && linebuf[LINE_SZ - 1] == NUL
      modifies this`ch, linebuf, startArgv
      ensures Valid()
      ensures es == Meaning(old(Str(0)))
      ensures exited <==> es == [Exit]
    {
      hide NextToken, Tokens, CStr, Command;
      TokensUnfold(Str(0));
      var tok, _ := Tokenize(true);
      if tok.None? {
        return false, [];
      }
      FirstByte(linebuf[..], tok.value);
      if linebuf[tok.value] == NUL || linebuf[tok.value] == '#' {
        return false, [];
      }
      exited, es := RunCommand(CStr(linebuf[..], tok.value));
    }

    /** One turn of the interpreter loop, after the requests `done` of the script `text`. */
    method RunNextLine(ghost text: string, ghost done: seq<Effect>)
      returns (more: bool, exited: bool, es: seq<Effect>)
      requires Valid() && Loaded() && Fits(Text()) && RunsAs(text, done, Text())
      modifies this`src, this`ch, linebuf, startArgv
      ensures Valid() && Loaded()
      ensures !more ==> !exited && es == [] && Trace(text) == done && Exit !in Trace(text)
      ensures more && exited ==> Trace(text) == done + es && Exit in Trace(text)
      ensures more && !exited ==>
                src > old(src) && Fits(Text()) && RunsAs(text, done + es, Text())
    {
      hide Trace, Fits, Meaning, CStr, FirstLine, AfterLine, RunsAs;
      ghost var rest := Text();
      if rest != [] {
        FitsStep(rest);
        RunStep(text, done, rest);
      } else {
        RunEnds(text, done);
      }
      exited, es := false, [];
      more := ReadLine();
      if more {
        exited, es := RunLine();
      }
    }

    /** Interprets a script (process_bootstrap_script): -1 for a missing buffer, and otherwise the
        requests made are exactly those the script means, whatever earlier scripts left in the
        line buffer, the cursors and the argument array.  The script itself is only read. */
    method RunScript(buf: array<char>) returns (exited: bool)
      requires Valid() && buf != linebuf
      requires Terminated(buf[..], 0) && Fits(CStr(buf[..], 0))
      modifies this, linebuf, startArgv
      ensures Valid()
      ensures trace == old(trace) + Trace(CStr(buf[..], 0))
      ensures exited <==> Exit in Trace(CStr(buf[..], 0))
    {
      hide Trace, Fits, CStr, RunsAs;
      script, src := buf, 0;
      ghost var text, done: seq<Effect> := Text(), [];
      RunBegins(text);
      exited := false;
      var more := true;
      while more && !exited
        invariant Valid() && script == buf && Loaded() && trace == old(trace) + done
        invariant more && !exited ==> Fits(Text()) && RunsAs(text, done, Text())
        invariant !more || exited ==> done == Trace(text) && (exited <==> Exit in Trace(text))
        decreases more && !exited, script.Length - src
      {
        var es;
        more, exited, es := RunNextLine(text, done);
        trace, done := trace + es, done + es;
      }
    }

    /** Interprets a script (process_bootstrap_script): -1 for a missing buffer. */
    method ProcessBootstrapScript(buf: array?<char>) returns (rc: int, exited: bool)
      requires Valid() && buf != linebuf
      requires buf != null ==> Terminated(buf[..], 0) && Fits(CStr(buf[..], 0))
      modifies this, linebuf, startArgv
      ensures Valid()
      ensures buf == null ==> rc == -1 && !exited && trace == old(trace)
      ensures buf != null ==> rc == 0 && trace == old(trace) + Trace(CStr(buf[..], 0))
      ensures buf != null ==> (exited <==> Exit in Trace(CStr(buf[..], 0)))
    {
      if buf == null {
        return -1, false;
      }
      hide Trace, Fits, CStr;
      exited := RunScript(buf);
      rc := 0;
    }
  }
}
