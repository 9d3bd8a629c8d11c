/**
 C strings: what a pointer into a character buffer reads as, and the two scanning
 primitives every lexer of sysinit is built from.
 */
module CStrings {


  const NUL: char := '\0'

  datatype Option<+T> = None | Some(value: T)

  /** The string a pointer to offset `i` of buffer `b` denotes: everything before the next NUL. */
  function CStr(b: seq<char>, i: nat): (s: string)
    requires i <= |b|
    ensures i + |s| <= |b|
    decreases |b| - i
  {
    if i == |b| || b[i] == NUL then [] else [b[i]] + CStr(b, i + 1)
  }

  /** That string is the run of bytes from `i` up to the first NUL (or the end of the buffer). */
  lemma {:induction false} CStrShape(b: seq<char>, i: nat)
    requires i <= |b|
    ensures var s := CStr(b, i);
            && s == b[i..i + |s|]
            && '\0' !in s
            && (i + |s| < |b| ==> b[i + |s|] == '\0')
    decreases |b| - i
  {
    if i == |b| || b[i] == NUL {
    } else {
      CStrShape(b, i + 1);
    }
  }

  /** Some byte of `b` at or after `i` is NUL, so a scan from `i` stays inside the buffer. */
  ghost predicate Terminated(b: seq<char>, i: nat) {
    i < |b| && NUL in b[i..]
  }

  lemma TerminatedBy(b: seq<char>, i: nat, e: nat)
    requires i <= e < |b| && b[e] == NUL
    ensures Terminated(b, i)
  {
    assert b[i..][e - i] == NUL;
  }

  /** A scan for the end of a terminated string finds its NUL inside the buffer. */
  lemma TerminatedEnd(b: seq<char>, i: nat)
    requires Terminated(b, i)
    ensures i + |CStr(b, i)| < |b| && b[i + |CStr(b, i)|] == NUL
  {
    CStrShape(b, i);
    assert b[i..] == CStr(b, i) + b[i + |CStr(b, i)|..];
  }

  /** A run of `n` bytes without NUL followed by a NUL is the string read there. */
  lemma {:induction false} CStrIs(b: seq<char>, i: nat, n: nat)
    requires i + n < |b|
    requires NUL !in b[i..i + n]
    requires b[i + n] == NUL
    ensures CStr(b, i) == b[i..i + n]
    decreases n
  {
    if n == 0 {
    } else {
      assert b[i..i + n] == [b[i]] + b[i + 1..i + n];
      CStrIs(b, i + 1, n - 1);
    }
  }

  /** Reading from the middle of a string gives the rest of that string. */
  lemma {:induction false} CStrSuffix(b: seq<char>, i: nat, k: nat)
    requires i <= |b| && k <= |CStr(b, i)|
    ensures CStr(b, i + k) == CStr(b, i)[k..]
    decreases k
  {
    if k == 0 {
    } else {
      CStrSuffix(b, i + 1, k - 1);
      assert CStr(b, i)[1..] == CStr(b, i + 1);
    }
  }

  /** A string whose NUL lies inside the part two buffers share reads the same in both. */
  lemma CStrFrame(b: seq<char>, b': seq<char>, i: nat, hi: nat)
    requires |b| == |b'| && i <= hi < |b|
    requires i + |CStr(b, i)| <= hi
    requires b[i..hi + 1] == b'[i..hi + 1]
    ensures CStr(b', i) == CStr(b, i)
  {
    var n := |CStr(b, i)|;
    CStrShape(b, i);
    assert b[i..i + n] == b[i..hi + 1][..n] == b'[i..i + n];
    assert b[i..hi + 1][n] == b'[i..hi + 1][n];
    CStrIs(b', i, n);
  }

  /** All strings that end at or before `hi` read the same if the bytes up to `hi` do. */
  lemma EarlierStrings(b: seq<char>, b': seq<char>, hi: nat)
    requires hi < |b| == |b'|
    requires forall k :: 0 <= k <= hi ==> b[k] == b'[k]
    ensures forall p: nat :: p <= |b| && p + |CStr(b, p)| <= hi ==> CStr(b', p) == CStr(b, p)
  {
    forall p: nat | p <= |b| && p + |CStr(b, p)| <= hi
      ensures CStr(b', p) == CStr(b, p)
    {
      assert b[p..hi + 1] == b'[p..hi + 1];
      CStrFrame(b, b', p, hi);
    }
  }

  /** Number of leading characters of `s` outside `stop`. */
  function Span(s: string, stop: set<char>): (n: nat)
    ensures n <= |s|
  {
    if s == [] || s[0] in stop then 0 else 1 + Span(s[1..], stop)
  }

  /** Number of leading characters of `s` inside `skip`. */
  function Lead(s: string, skip: set<char>): (n: nat)
    ensures n <= |s|
  {
    if s == [] || s[0] !in skip then 0 else 1 + Lead(s[1..], skip)
  }

  /** Up to `n` no character is in `stop`, and the one at `n`, if any, is. */
  predicate StopsAt(s: string, stop: set<char>, n: nat) {
    && n <= |s|
    && (forall k :: 0 <= k < n ==> s[k] !in stop)
    && (n < |s| ==> s[n] in stop)
  }

  predicate LeadsTo(s: string, skip: set<char>, n: nat) {
    && n <= |s|
    && (forall k :: 0 <= k < n ==> s[k] in skip)
    && (n < |s| ==> s[n] !in skip)
  }

  lemma {:induction false} SpanStops(s: string, stop: set<char>)
    ensures StopsAt(s, stop, Span(s, stop))
  {
    if s == [] || s[0] in stop {
    } else {
      SpanStops(s[1..], stop);
      assert s == [s[0]] + s[1..];
    }
  }

  lemma {:induction false} LeadStops(s: string, skip: set<char>)
    ensures LeadsTo(s, skip, Lead(s, skip))
  {
    if s == [] || s[0] !in skip {
    } else {
      LeadStops(s[1..], skip);
      assert s == [s[0]] + s[1..];
    }
  }

  lemma SpanIs(s: string, stop: set<char>, n: nat)
    requires StopsAt(s, stop, n)
    ensures Span(s, stop) == n
  {
    SpanStops(s, stop);
  }

  lemma LeadIs(s: string, skip: set<char>, n: nat)
    requires LeadsTo(s, skip, n)
    ensures Lead(s, skip) == n
  {
    LeadStops(s, skip);
  }

  /** While scanning a terminated string for `stop`, the byte at the cursor decides. */
  lemma ScanAt(b: seq<char>, i: nat, stop: set<char>, k: nat)
    requires Terminated(b, i) && k <= Span(CStr(b, i), stop)
    ensures i + k < |b|
    ensures k < Span(CStr(b, i), stop) <==> b[i + k] != NUL && b[i + k] !in stop
    ensures k < |CStr(b, i)| <==> b[i + k] != NUL
  {
    CStrShape(b, i);
    TerminatedEnd(b, i);
    SpanStops(CStr(b, i), stop);
    var text := CStr(b, i);
    if k < |text| {
      assert text[k] == b[i + k];
    }
  }

  /** While skipping characters of a terminated string, the byte at the cursor decides. */
  lemma SkipAt(b: seq<char>, i: nat, skip: set<char>, k: nat)
    requires Terminated(b, i) && k <= Lead(CStr(b, i), skip)
    ensures i + k < |b|
    ensures k < Lead(CStr(b, i), skip) <==> b[i + k] != NUL && b[i + k] in skip
    ensures k < |CStr(b, i)| <==> b[i + k] != NUL
    ensures k < |CStr(b, i)| ==> CStr(b, i)[k] == b[i + k]
  {
    CStrShape(b, i);
    TerminatedEnd(b, i);
    LeadStops(CStr(b, i), skip);
    var text := CStr(b, i);
    if k < |text| {
      assert text[k] == b[i + k];
    }
  }

  /** From inside a terminated string the NUL is still ahead. */
  lemma StillTerminated(b: seq<char>, i: nat, k: nat)
    requires Terminated(b, i) && k <= |CStr(b, i)|
    ensures Terminated(b, i + k) && CStr(b, i + k) == CStr(b, i)[k..]
  {
    TerminatedEnd(b, i);
    CStrSuffix(b, i, k);
    TerminatedBy(b, i + k, i + |CStr(b, i)|);
  }

  /** A string depends only on the bytes from its start on. */
  lemma {:induction false} CStrSameTail(b: seq<char>, b': seq<char>, i: nat)
    requires i <= |b| == |b'| && b[i..] == b'[i..]
    ensures CStr(b', i) == CStr(b, i)
    decreases |b| - i
  {
    if i == |b| {
    } else {
      assert b[i] == b[i..][0] == b'[i..][0] == b'[i];
      assert b[i + 1..] == b[i..][1..] == b'[i..][1..] == b'[i + 1..];
      CStrSameTail(b, b', i + 1);
    }
  }

  /** Cutting a string in place at its first separator, at offset `e`: the front becomes a string
      of its own, and the cursor `c` behind the cut reads what follows the separator. */
  lemma CutInPlace(b: seq<char>, i: nat, stop: set<char>, e: nat, b': seq<char>, c: nat)
    requires Terminated(b, i) && e == i + Span(CStr(b, i), stop) < |b|
    requires b' == if b[e] != NUL then b[e := NUL] else b
    requires c == if b[e] != NUL then e + 1 else e
    ensures c < |b| && Terminated(b', c)
    ensures CStr(b', i) == CStr(b, i)[..e - i]
    ensures CStr(b', c) == if e - i < |CStr(b, i)| then CStr(b, i)[e - i + 1..] else []
  {
    var text := CStr(b, i);
    ScanAt(b, i, stop, e - i);
    CStrShape(b, i);
    TerminatedEnd(b, i);
    assert b'[i..e] == text[..e - i];
    CStrIs(b', i, e - i);
    StillTerminated(b, i, c - i);
    assert b'[c..] == b[c..];
    CStrSameTail(b, b', c);
  }

  /** The characters of `s` all lie outside `bad`. */
  predicate Avoids(s: string, bad: set<char>) {
    forall k :: 0 <= k < |s| ==> s[k] !in bad
  }

  /** The strings of a NULL-terminated pointer array, read from buffer `b`. */
  function ReadArgv(argv: seq<Option<nat>>, b: seq<char>): seq<string>
    requires forall p :: p in argv && p.Some? ==> p.value <= |b|
  {
    if argv == [] || argv[0].None? then []
    else [CStr(b, argv[0].value)] + ReadArgv(argv[1..], b)
  }

  /** Reading stops at the first NULL, whatever pointers follow it. */
  lemma {:induction false} ReadArgvStops(argv: seq<Option<nat>>, b: seq<char>, ts: seq<string>)
    requires forall p :: p in argv && p.Some? ==> p.value <= |b|
    requires |ts| < |argv| && argv[|ts|].None?
    requires forall k :: 0 <= k < |ts| ==> argv[k].Some? && CStr(b, argv[k].value) == ts[k]
    ensures ReadArgv(argv, b) == ts
  {
    if ts == [] {
    } else {
      ReadArgvStops(argv[1..], b, ts[1..]);
    }
  }
}
