/**
 The argument vector of a getty: strtok over a command line, and the array built from it
 (sysinit/sessions.c, construct_argv and setupargv; strtok is section 7.21.5.8 of
 ISO/IEC 9899:1999).
 */
module Argv {
  import opened CStrings
  import opened Lexer

  const SEPARATORS: set<char> := {' ', '\t'}

  lemma WordStarts(s: string)
    ensures var n := Lead(s, SEPARATORS); n < |s| ==> Span(s[n..], SEPARATORS) > 0
  {
    LeadStops(s, SEPARATORS);
  }

  /** The next word: skip separators, then everything up to the next separator. */
  function NextWord(s: string): (x: Lexeme)
    ensures x.Token? ==> |x.rest| < |s|
  {
    var n := Lead(s, SEPARATORS);
    if n == |s| then End
    else
      WordStarts(s);
      var k := Span(s[n..], SEPARATORS);
      Token(s[n..n + k], s[n + k..])
  }

  /** The words of a command line: its maximal runs of non-separators. */
  function Words(s: string): seq<string>
    decreases |s|
  {
    match NextWord(s)
    case End => []
    case Token(t, rest) => [t] + Words(rest)
  }

  predicate IsWord(t: string) {
    t != [] && Avoids(t, SEPARATORS)
  }

  lemma WordsOfEmpty()
    ensures Words([]) == []
  {
  }

  lemma WordsUnfold(s: string)
    ensures Words(s) == match NextWord(s) case End => [] case Token(t, rest) => [t] + Words(rest)
  {
    hide NextWord;
  }

  /** The first word, when `n` separators precede it and it has `k` characters. */
  lemma NextWordIs(s: string, n: nat, k: nat)
    requires LeadsTo(s, SEPARATORS, n) && n < |s|
    requires StopsAt(s[n..], SEPARATORS, k)
    ensures NextWord(s) == Token(s[n..n + k], s[n + k..])
  {
    LeadIs(s, SEPARATORS, n);
    SpanIs(s[n..], SEPARATORS, k);
  }

  lemma WordsSkipOne(c: char, s: string)
    requires c in SEPARATORS
    ensures Words([c] + s) == Words(s)
  {
    hide Words;
    LeadStops(s, SEPARATORS);
    var n := Lead(s, SEPARATORS);
    var l := [c] + s;
    LeadIs(l, SEPARATORS, n + 1);
    if n < |s| {
      assert l[n + 1..] == s[n..];
      var k := Span(s[n..], SEPARATORS);
      assert l[n + 1..n + 1 + k] == s[n..n + k] && l[n + 1 + k..] == s[n + k..];
    }
    assert NextWord(l) == NextWord(s);
    WordsUnfold(l);
    WordsUnfold(s);
  }

  lemma WordThenRest(t: string, s: string)
    requires IsWord(t)
    requires s == [] || s[0] in SEPARATORS
    ensures Words(t + s) == [t] + Words(s)
  {
    var l := t + s;
    assert l[0..] == l && l[0..0 + |t|] == t && l[0 + |t|..] == s;
    NextWordIs(l, 0, |t|);
    WordsUnfold(l);
  }

  lemma NextWordIsWord(s: string)
    requires NextWord(s).Token?
    ensures IsWord(NextWord(s).text)
  {
    WordStarts(s);
    SpanStops(s[Lead(s, SEPARATORS)..], SEPARATORS);
  }

  lemma IsWordIs(t: string)
    ensures IsWord(t) <==> t != [] && ' ' !in t && '\t' !in t
  {
    if ' ' !in t && '\t' !in t {
      assert forall k :: 0 <= k < |t| ==> t[k] in t;
    }
  }

  /** Every word is non-empty and free of spaces and tabs ... */
  lemma {:induction false} WordsAreWords(s: string)
    ensures forall t :: t in Words(s) ==> t != [] && ' ' !in t && '\t' !in t
    decreases |s|
  {
    hide NextWord, IsWord;
    match NextWord(s)
    case End =>
    case Token(t, rest) =>
      NextWordIsWord(s);
      IsWordIs(t);
      WordsAreWords(rest);
  }

  /** ... a text that is, is its own single word ... */
  lemma OneWord(t: string)
    requires t != [] && ' ' !in t && '\t' !in t
    ensures Words(t) == [t]
  {
    IsWordIs(t);
    WordThenRest(t, []);
    WordsOfEmpty();
    assert t + [] == t;
  }

  /** Words joined by single spaces. */
  function JoinWords(ts: seq<string>): string {
    if ts == [] then [] else if |ts| == 1 then ts[0] else ts[0] + ([' '] + JoinWords(ts[1..]))
  }

  /** ... and splitting what was joined gives the words back. */
  lemma {:induction false} JoinedWordsSplit(ts: seq<string>)
    requires forall t :: t in ts ==> IsWord(t)
    ensures Words(JoinWords(ts)) == ts
  {
    hide Words;
    WordsOfEmpty();
    if ts == [] {
    } else if |ts| == 1 {
      WordThenRest(ts[0], []);
      assert ts[0] + [] == ts[0];
    } else {
      JoinedWordsSplit(ts[1..]);
      WordThenRest(ts[0], [' '] + JoinWords(ts[1..]));
      WordsSkipOne(' ', JoinWords(ts[1..]));
      assert ts == [ts[0]] + ts[1..];
    }
  }

  lemma SpanPositive(a: string)
    requires a != [] && a[0] !in SEPARATORS
    ensures Span(a, SEPARATORS) > 0
  {
  }

  /** The words of two texts with a space or a tab between them. */
  lemma {:induction false} WordsOfJoin(a: string, c: char, b: string)
    requires c == ' ' || c == '\t'
    ensures Words(a + [c] + b) == Words(a) + Words(b)
    decreases |a|
  {
    hide Words;
    if a == [] {
      WordsOfEmpty();
      assert a + [c] + b == [c] + b;
      WordsSkipOne(c, b);
    } else if a[0] in SEPARATORS {
      assert a == [a[0]] + a[1..];
      assert a + [c] + b == [a[0]] + (a[1..] + [c] + b);
      WordsSkipOne(a[0], a[1..]);
      WordsSkipOne(a[0], a[1..] + [c] + b);
      WordsOfJoin(a[1..], c, b);
    } else {
      SpanStops(a, SEPARATORS);
      var k := Span(a, SEPARATORS);
      SpanPositive(a);
      var t, r := a[..k], a[k..];
      assert a == t + r;
      assert a + [c] + b == t + (r + [c] + b);
      WordThenRest(t, r);
      WordThenRest(t, r + [c] + b);
      WordsOfJoin(r, c, b);
    }
  }

  lemma WordBoundAtWord(s: string)
    requires s != [] && s[0] !in SEPARATORS
    ensures var k := Span(s, SEPARATORS);
            && k > 0
            && |Words(s)| == 1 + if k < |s| then |Words(s[k + 1..])| else 0
  {
    hide Words;
    SpanStops(s, SEPARATORS);
    var k := Span(s, SEPARATORS);
    assert s == s[..k] + s[k..];
    WordThenRest(s[..k], s[k..]);
    WordsOfEmpty();
    if k < |s| {
      assert s[k..] == [s[k]] + s[k + 1..];
      WordsSkipOne(s[k], s[k + 1..]);
    }
  }

  /** A text of n characters has at most (n + 1) / 2 words, so the words and the closing NULL fit
      the (n + 1) / 2 + 1 slots that are allocated. */
  lemma {:induction false} WordBound(s: string)
    ensures |Words(s)| <= (|s| + 1) / 2
    decreases |s|
  {
    if s != [] {
      if s[0] in SEPARATORS {
        assert s == [s[0]] + s[1..];
        WordsSkipOne(s[0], s[1..]);
        WordBound(s[1..]);
      } else {
        WordBoundAtWord(s);
        var k := Span(s, SEPARATORS);
        if k < |s| {
          WordBound(s[k + 1..]);
        }
      }
    } else {
      WordsOfEmpty();
    }
  }

  /** The bound is tight: at every length some command line needs all slots. */
  lemma {:induction false} WordBoundTight(n: nat)
    ensures |Dense(n)| == n && |Words(Dense(n))| == (n + 1) / 2
  {
    hide Words;
    WordsOfEmpty();
    if n == 0 {
    } else if n == 1 {
      assert "a" + [] == "a";
      WordThenRest("a", []);
    } else {
      WordBoundTight(n - 2);
      assert Dense(n) == "a" + ([' '] + Dense(n - 2));
      WordThenRest("a", [' '] + Dense(n - 2));
      WordsSkipOne(' ', Dense(n - 2));
    }
  }

  /** The words of a getty command line built from the two columns of a tty entry. */
  lemma WordsOfGettyLine(getty: string, name: string)
    ensures Words(getty + " " + name) == Words(getty) + Words(name)
    ensures name != [] && ' ' !in name && '\t' !in name ==> Words(name) == [name]
  {
    WordsOfJoin(getty, ' ', name);
    if name != [] && ' ' !in name && '\t' !in name {
      OneWord(name);
    }
  }

  // ------------------------------------------------------- strtok in place

  /** The separator behind a word may be dropped with the word. */
  lemma WordsPastSeparator(s: string, w: string)
    requires w == s[Lead(s, SEPARATORS)..] && w != []
    ensures var k := Span(w, SEPARATORS);
            k > 0 && Words(s) == [w[..k]] + Words(if k < |w| then w[k + 1..] else [])
  {
    hide Words, Lead, Span;
    WordStarts(s);
    WordsUnfold(s);
    SpanStops(w, SEPARATORS);
    var n, k := Lead(s, SEPARATORS), Span(w, SEPARATORS);
    assert s[n..n + k] == w[..k] && s[n + k..] == w[k..];
    if k < |w| {
      assert w[k..] == [w[k]] + w[k + 1..];
      WordsSkipOne(w[k], w[k + 1..]);
    }
  }

  /** A word cut out in place, from offset `start` to offset `e`. */
  lemma WordInPlace(b: seq<char>, c: nat, start: nat, e: nat, b': seq<char>, c': nat)
    requires Terminated(b, c) && start == c + Lead(CStr(b, c), SEPARATORS)
    requires start < |b| && b[start] != NUL
    requires e == start + Span(CStr(b, start), SEPARATORS) < |b|
    requires b' == if b[e] != NUL then b[e := NUL] else b
    requires c' == if b[e] != NUL then e + 1 else e
    ensures c < c' < |b| == |b'| && Terminated(b', c') && c < e
    ensures start + |CStr(b', start)| <= c'
    ensures Words(CStr(b, c)) == [CStr(b', start)] + Words(CStr(b', c'))
  {
    hide CStr, Lead, Span, Words;
    var n := start - c;
    SkipAt(b, c, SEPARATORS, n);
    StillTerminated(b, c, n);
    ScanAt(b, start, SEPARATORS, e - start);
    CutInPlace(b, start, SEPARATORS, e, b', c');
    WordsPastSeparator(CStr(b, c), CStr(b, start));
  }

  lemma NoWordLeft(b: seq<char>, c: nat, n: nat)
    requires Terminated(b, c) && n == Lead(CStr(b, c), SEPARATORS)
    requires c + n < |b| && b[c + n] == NUL
    ensures Words(CStr(b, c)) == [] && CStr(b, c + n) == [] && Words([]) == []
  {
    SkipAt(b, c, SEPARATORS, n);
  }

  /** The library tokenizer with its hidden cursor. */
  class Strtok {
    const buf: array<char>
    var pos: nat

    /** The first call names the string. */
    constructor (command: array<char>)
      ensures buf == command && pos == 0
    {
      buf, pos := command, 0;
    }

    ghost predicate InString()
      reads this`pos, buf
    {
      Terminated(buf[..], pos)
    }

    ghost function Rest(): string
      requires InString()
      reads this`pos, buf
    {
      CStr(buf[..], pos)
    }

    /** The string at `p` ends at or before the cursor. */
    ghost predicate Sealed(p: nat)
      reads this`pos, buf
    {
      p < buf.Length && p + |CStr(buf[..], p)| <= pos
    }

    method SkipSeparators()
      requires InString()
      modifies this`pos
      ensures InString() && pos == old(pos) + Lead(old(Rest()), SEPARATORS)
    {
      hide Lead, CStr;
      ghost var b, c0 := buf[..], pos;
      ghost var n := Lead(CStr(b, c0), SEPARATORS);
      SkipAt(b, c0, SEPARATORS, 0);
      while buf[pos] != NUL && (buf[pos] == ' ' || buf[pos] == '\t')
        invariant 0 <= pos - c0 <= n && pos < |b|
        invariant pos - c0 < n <==> b[pos] != NUL && b[pos] in SEPARATORS
        decreases |b| - pos
      {
        pos := pos + 1;
        SkipAt(b, c0, SEPARATORS, pos - c0);
      }
      StillTerminated(b, c0, n);
    }

    method ScanToSeparator()
      requires InString()
      modifies this`pos
      ensures InString() && pos == old(pos) + Span(old(Rest()), SEPARATORS)
    {
      hide Span, CStr;
      ghost var b, c0 := buf[..], pos;
      ghost var n := Span(CStr(b, c0), SEPARATORS);
      ScanAt(b, c0, SEPARATORS, 0);
      while buf[pos] != NUL && buf[pos] != ' ' && buf[pos] != '\t'
        invariant 0 <= pos - c0 <= n && pos < |b|
        invariant pos - c0 < n <==> b[pos] != NUL && b[pos] !in SEPARATORS
        decreases |b| - pos
      {
        pos := pos + 1;
        ScanAt(b, c0, SEPARATORS, pos - c0);
      }
      StillTerminated(b, c0, n);
    }

    /** The next word, cut out in place, or None for NULL; words cut out before stay as they
        were. */
    method Next() returns (tok: Option<nat>)
      requires InString()
      modifies this`pos, buf
      ensures InString()
      ensures tok.Some? ==> Sealed(tok.value) && old(pos) < pos
      ensures Words(old(Rest())) ==
              if tok.None? then [] else [CStr(buf[..], tok.value)] + Words(Rest())
      ensures tok.None? ==> buf[..] == old(buf[..]) && Words(Rest()) == []
      ensures forall p: nat :: old(Sealed(p)) ==>
                Sealed(p) && CStr(buf[..], p) == old(CStr(buf[..], p))
    {
      hide Words, CStr, Lead, Span;
      ghost var b, c0 := buf[..], pos;
      SkipSeparators();
      if buf[pos] == NUL {
        NoWordLeft(b, c0, pos - c0);
        return None;
      }
      ghost var start := pos;
      tok := Some(pos);
      ScanToSeparator();
      ghost var e := pos;
      if buf[pos] != NUL {
        buf[pos] := NUL;
        pos := pos + 1;
      }
      WordInPlace(b, c0, start, e, buf[..], pos);
      EarlierStrings(b, buf[..], c0);
    }
  }

  /** What a NULL-terminated pointer array into `b` must hold after `ts` was stored in it. */
  ghost predicate Holds(argv: seq<Option<nat>>, b: seq<char>, ts: seq<string>) {
    && |ts| < |argv| && argv[|ts|].None?
    && (forall p :: p in argv && p.Some? ==> p.value <= |b|)
    && ReadArgv(argv, b) == ts
  }

  /** The loop of construct_argv, after the first word has been stored. */
  method FillRest(argv: array<Option<nat>>, strtok: Strtok, ghost ts: seq<string>)
    requires strtok.InString() && 0 < |ts| < argv.Length
    requires forall j :: 0 <= j < argv.Length && argv[j].Some? ==> j == 0
    requires argv[0].Some? && strtok.Sealed(argv[0].value)
    requires ts == [CStr(strtok.buf[..], argv[0].value)] + Words(strtok.Rest())
    modifies argv, strtok`pos, strtok.buf
    ensures argv[|ts|].None?
    ensures forall j :: 0 <= j < argv.Length && argv[j].Some? ==> argv[j].value < strtok.buf.Length
    ensures forall j :: 0 <= j < |ts| ==>
              argv[j].Some? && CStr(strtok.buf[..], argv[j].value) == ts[j]
  {
    hide Words, CStr;
    var argc, more := 1, true;
    while more
      invariant strtok.InString() && 0 < argc <= |ts|
      invariant forall j :: 0 <= j < argc ==>
                  && argv[j].Some? && strtok.Sealed(argv[j].value)
                  && CStr(strtok.buf[..], argv[j].value) == ts[j]
      invariant forall j :: argc <= j < argv.Length ==> argv[j].None?
      invariant ts[argc..] == Words(strtok.Rest())
      invariant !more ==> argc == |ts|
      decreases |ts| - argc, more
    {
      var tok := strtok.Next();
      argv[argc] := tok;
      if tok.None? {
        more := false;
      } else {
        argc := argc + 1;
      }
    }
  }

  /** Splits a command in place into an argument array (construct_argv); null when there is no
      memory or no word.  All stores stay inside the (n + 1) / 2 + 1 allocated slots. */
  method ConstructArgv(command: array<char>, memory: bool) returns (argv: array?<Option<nat>>)
    requires Terminated(command[..], 0)
    modifies command
    ensures argv == null <==> !memory || Words(old(CStr(command[..], 0))) == []
    ensures argv != null ==>
              && fresh(argv) && argv.Length == (|old(CStr(command[..], 0))| + 1) / 2 + 1
              && Holds(argv[..], command[..], Words(old(CStr(command[..], 0))))
  {
    hide Words, CStr;
    if !memory {
      return null;
    }
    ghost var ts := Words(CStr(command[..], 0));
    WordBound(CStr(command[..], 0));
    var slots := new Option<nat>[(|CStr(command[..], 0)| + 1) / 2 + 1](_ => None);
    var strtok := new Strtok(command);
    var tok := strtok.Next();
    slots[0] := tok;
    if tok.None? {
      return null;
    }
    FillRest(slots, strtok, ts);
    ReadArgvStops(slots[..], command[..], ts);
    argv := slots;
  }

  /** Which allocations succeed. */
  datatype Memory = Memory(session: bool, device: bool, getty: bool, argv: bool)

  /** The argument vector of a getty (setupargv): the command line is the getty column, a space
      and the tty name.  None is the failure result. */
  method SetupArgv(getty: string, name: string, memory: Memory) returns (argv: Option<seq<string>>)
    requires NUL !in getty && NUL !in name
    ensures argv ==
            if memory.getty && memory.argv && Words(getty) + Words(name) != []
            then Some(Words(getty) + Words(name)) else None
    ensures argv.Some? ==> forall t :: t in argv.value ==> t != [] && ' ' !in t && '\t' !in t
  {
    hide Words, CStr;
    if !memory.getty {
      return None;
    }
    var line := getty + " " + name;
    var command := new char[|line| + 1](i requires 0 <= i <= |line| =>
                                          if i < |line| then line[i] else NUL);
    assert command[..][0..|line|] == line;
    CStrIs(command[..], 0, |line|);
    TerminatedBy(command[..], 0, |line|);
    WordsOfGettyLine(getty, name);
    WordsAreWords(line);
    var slots := ConstructArgv(command, memory.argv);
    if slots == null {
      return None;
    }
    argv := Some(ReadArgv(slots[..], command[..]));
  }
}
