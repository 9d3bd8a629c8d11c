/**
 Which sessions a tty table gives, and how they are started, as functions on values
 (sysinit/sessions.c, state_start_sessions, alloc_session).
 */
module StartModel {
  import opened CStrings
  import opened SessionModel
  import opened Argv

  const PATH_DEV := "/dev/"

  /** A line of the tty table; None stands for a NULL column. */
  datatype Tty = Tty(on: bool, name: Option<string>, getty: Option<string>)

  predicate Usable(t: Tty) {
    t.on && t.name.Some? && t.getty.Some?
  }

  /** The tty gets a session: it is enabled and fully named, memory suffices, and its command line
      has a word. */
  predicate Accepted(t: Tty, m: Memory) {
    && Usable(t)
    && m.session && m.device && m.getty && m.argv
    && Words(t.getty.value) + Words(t.name.value) != []
  }

  function NewEntry(t: Tty, index: nat): Entry
    requires Usable(t)
  {
    Entry(index, 0, false, true, PATH_DEV + t.name.value,
          Words(t.getty.value) + Words(t.name.value))
  }

  /** The sessions for the first `n` lines, in order. */
  function Built(ttys: seq<Tty>, mem: nat -> Memory, n: nat): seq<Entry>
    requires n <= |ttys|
  {
    if n == 0 then []
    else
      Built(ttys, mem, n - 1)
      + (if Accepted(ttys[n - 1], mem(n - 1)) then [NewEntry(ttys[n - 1], n - 1)] else [])
  }

  lemma NothingBuilt(ttys: seq<Tty>, mem: nat -> Memory)
    ensures Built(ttys, mem, 0) == []
  {
  }

  lemma BuiltNext(ttys: seq<Tty>, mem: nat -> Memory, n: nat)
    requires n < |ttys|
    ensures Accepted(ttys[n], mem(n)) ==>
              Built(ttys, mem, n + 1) == Built(ttys, mem, n) + [NewEntry(ttys[n], n)]
    ensures !Accepted(ttys[n], mem(n)) ==> Built(ttys, mem, n + 1) == Built(ttys, mem, n)
  {
  }

  /** The tty is on, has both columns with a word in them, and no allocation fails. */
  ghost predicate GetsSession(t: Tty, m: Memory) {
    && t.on && t.name.Some? && t.getty.Some?
    && m == Memory(true, true, true, true)
    && Words(t.getty.value) + Words(t.name.value) != []
  }

  /** `e` is the new session of the tty, apart from its position. */
  ghost predicate IsSessionOf(e: Entry, t: Tty, m: Memory) {
    && GetsSession(t, m)
    && e == Entry(e.index, 0, false, true, "/dev/" + t.name.value,
                  Words(t.getty.value) + Words(t.name.value))
  }

  /** `tab` holds exactly the sessions of the lines before `n` that are enabled and fully named, have
      a word in their columns, and met no lack of memory: in the order of the table, each under its
      original position, on its device, and with no process yet. */
  ghost predicate HoldsAccepted(tab: seq<Entry>, ttys: seq<Tty>, mem: nat -> Memory, n: nat)
    requires n <= |ttys|
  {
    && (forall k :: 0 <= k < |tab| ==>
          tab[k].index < n && IsSessionOf(tab[k], ttys[tab[k].index], mem(tab[k].index)))
    && (forall i :: 0 <= i < n && GetsSession(ttys[i], mem(i)) ==>
          exists k :: 0 <= k < |tab| && tab[k].index == i)
    && (forall j, k :: 0 <= j < k < |tab| ==> tab[j].index < tab[k].index)
  }

  lemma AcceptedIs(t: Tty, m: Memory, index: nat)
    ensures Accepted(t, m) <==> GetsSession(t, m)
    ensures Accepted(t, m) ==>
              Usable(t) && NewEntry(t, index).index == index && IsSessionOf(NewEntry(t, index), t, m)
  {
  }

  lemma HoldsOneMore(tab: seq<Entry>, ttys: seq<Tty>, mem: nat -> Memory, n: nat)
    requires n < |ttys| && HoldsAccepted(tab, ttys, mem, n)
    ensures HoldsAccepted(
              tab + if Accepted(ttys[n], mem(n)) then [NewEntry(ttys[n], n)] else [], ttys, mem, n + 1)
  {
    AcceptedIs(ttys[n], mem(n), n);
    hide Accepted, NewEntry, GetsSession, IsSessionOf;
    if Accepted(ttys[n], mem(n)) {
      var tab' := tab + [NewEntry(ttys[n], n)];
      assert tab'[|tab|] == NewEntry(ttys[n], n);
      forall i | 0 <= i < n && GetsSession(ttys[i], mem(i))
        ensures exists k :: 0 <= k < |tab'| && tab'[k].index == i
      {
        var k :| 0 <= k < |tab| && tab[k].index == i;
        assert tab'[k].index == i;
      }
    } else {
      assert tab + [] == tab;
    }
  }

  lemma {:induction false} BuiltExactly(ttys: seq<Tty>, mem: nat -> Memory, n: nat)
    requires n <= |ttys|
    ensures HoldsAccepted(Built(ttys, mem, n), ttys, mem, n)
  {
    if n == 0 {
    } else {
      BuiltExactly(ttys, mem, n - 1);
      hide HoldsAccepted, Accepted, NewEntry, Built, Words;
      HoldsOneMore(Built(ttys, mem, n - 1), ttys, mem, n - 1);
      BuiltNext(ttys, mem, n - 1);
      assert Built(ttys, mem, n - 1) + [] == Built(ttys, mem, n - 1);
    }
  }

  /** With enough memory, an enabled and named tty with any word in its columns is accepted, and a
      plain tty name is the last argument of its getty. */
  lemma PlainTtyAccepted(t: Tty, m: Memory)
    requires t.on && t.name.Some? && t.getty.Some? && m == Memory(true, true, true, true)
    requires t.name.value != [] && ' ' !in t.name.value && '\t' !in t.name.value
    ensures Accepted(t, m)
    ensures NewEntry(t, 0).argv == Words(t.getty.value) + [t.name.value]
  {
    WordsOfGettyLine(t.getty.value, t.name.value);
  }

  // ------------------------------------------------------ the second loop

  /** How the starting loop ends: every session has a getty, a fork failed, or it never ends
      because it stands on a session that already has a process. */
  datatype Ending = AllStarted | ForkFailed | Spins

  datatype Start = Start(tab: seq<Entry>, ending: Ending, attempts: nat)

  /** The loop from session `i` on; `forks(i)` is the answer of the fork for session `i`. */
  function StartFrom(tab: seq<Entry>, forks: nat -> int, i: nat): Start
    requires i <= |tab|
    decreases |tab| - i
  {
    if i == |tab| then Start(tab, AllStarted, i)
    else if tab[i].process != 0 then Start(tab, Spins, i)
    else if forks(i) == -1 then Start(tab, ForkFailed, i + 1)
    else StartFrom(tab[i := tab[i].(process := forks(i))], forks, i + 1)
  }

  lemma StartUnfold(tab: seq<Entry>, forks: nat -> int, i: nat)
    requires i <= |tab|
    ensures StartFrom(tab, forks, i) ==
            if i == |tab| then Start(tab, AllStarted, i)
            else if tab[i].process != 0 then Start(tab, Spins, i)
            else if forks(i) == -1 then Start(tab, ForkFailed, i + 1)
            else StartFrom(tab[i := tab[i].(process := forks(i))], forks, i + 1)
  {
  }

  lemma NothingToStart(forks: nat -> int)
    ensures StartFrom([], forks, 0) == Start([], AllStarted, 0)
  {
  }

  /** Session `k` has no process and its fork succeeds. */
  predicate Starts(tab: seq<Entry>, forks: nat -> int, k: nat)
    requires k < |tab|
  {
    tab[k].process == 0 && forks(k) != -1
  }

  /** The table in which the first `n` sessions have their gettys. */
  function WithGettys(tab: seq<Entry>, forks: nat -> int, n: nat): seq<Entry>
    requires n <= |tab|
  {
    seq(|tab|, k requires 0 <= k < |tab| =>
      if k < n then tab[k].(process := forks(k)) else tab[k])
  }

  /** The sessions are tried in order, each at most once, and the loop stops at the first that does
      not start; how it ends is decided by why that one does not. */
  lemma {:induction false} StartExactly(tab: seq<Entry>, forks: nat -> int, i: nat, n: nat)
    requires i <= n <= |tab|
    requires forall k :: i <= k < n ==> Starts(tab, forks, k)
    requires n < |tab| ==> !Starts(tab, forks, n)
    ensures var r := StartFrom(WithGettys(tab, forks, i), forks, i);
            && r.tab == WithGettys(tab, forks, n)
            && r.ending == (if n == |tab| then AllStarted
                            else if tab[n].process != 0 then Spins else ForkFailed)
            && r.attempts == if r.ending.ForkFailed? then n + 1 else n
    decreases n - i
  {
    var tab' := WithGettys(tab, forks, i);
    if i == n {
    } else {
      assert Starts(tab, forks, i);
      assert tab'[i := tab'[i].(process := forks(i))] == WithGettys(tab, forks, i + 1);
      StartExactly(tab, forks, i + 1, n);
    }
  }

  /** Sessions that do not start leave a first one. */
  lemma {:induction false} FirstNotStarting(tab: seq<Entry>, forks: nat -> int, i: nat) returns (n: nat)
    requires i <= |tab|
    ensures i <= n <= |tab|
    ensures forall k :: i <= k < n ==> Starts(tab, forks, k)
    ensures n < |tab| ==> !Starts(tab, forks, n)
    decreases |tab| - i
  {
    if i == |tab| || !Starts(tab, forks, i) {
      n := i;
    } else {
      n := FirstNotStarting(tab, forks, i + 1);
    }
  }

  /** The starting loop from the beginning, for every table: it never ends exactly when the first
      session that does not start already has a process, and all gettys run exactly when every
      session is idle and every fork succeeds. */
  lemma StartEndings(tab: seq<Entry>, forks: nat -> int)
    ensures var r := StartFrom(tab, forks, 0);
            && (r.ending.AllStarted? <==> forall k :: 0 <= k < |tab| ==> Starts(tab, forks, k))
            && (r.ending.Spins? <==>
                  exists n :: 0 <= n < |tab| && tab[n].process != 0 &&
                              forall k :: 0 <= k < n ==> Starts(tab, forks, k))
            && r.attempts <= |tab|
  {
    var n := FirstNotStarting(tab, forks, 0);
    assert WithGettys(tab, forks, 0) == tab;
    StartExactly(tab, forks, 0, n);
    if n < |tab| && tab[n].process != 0 {
      assert forall k :: 0 <= k < n ==> Starts(tab, forks, k);
    }
    forall n' | 0 <= n' < |tab| && tab[n'].process != 0 &&
                forall k :: 0 <= k < n' ==> Starts(tab, forks, k)
      ensures n' == n
    {
      assert !Starts(tab, forks, n');
    }
  }

  /** After a successful start, with distinct pids of live children, sessions and gettys correspond
      one to one. */
  lemma StartedOneToOne(tab: seq<Entry>, forks: nat -> int, live: set<int>)
    requires StartFrom(tab, forks, 0).ending.AllStarted?
    requires forall k :: 0 <= k < |tab| ==> forks(k) in live
    requires forall j, k :: 0 <= j < k < |tab| ==> forks(j) != forks(k)
    ensures OneToOne(World(StartFrom(tab, forks, 0).tab, live))
  {
    StartEndings(tab, forks);
    assert WithGettys(tab, forks, 0) == tab;
    StartExactly(tab, forks, 0, |tab|);
  }

  /** Of an idle table, the sessions whose gettys were started are drained at shutdown, and those
      from the first failing fork on stay. */
  lemma StartedDrain(tab: seq<Entry>, forks: nat -> int, live: set<int>, m: nat)
    requires forall k :: 0 <= k < |tab| ==> tab[k].process == 0
    requires m <= |tab| && (m < |tab| ==> forks(m) == -1)
    requires forall k :: 0 <= k < m ==> forks(k) != -1
    requires 0 !in live && forall k :: 0 <= k < m ==> forks(k) in live
    requires forall j, k :: 0 <= j < k < m ==> forks(j) != forks(k)
    ensures Survivors(Marked(StartFrom(tab, forks, 0).tab), live) == Marked(tab)[m..]
  {
    assert WithGettys(tab, forks, 0) == tab;
    StartExactly(tab, forks, 0, m);
    hide StartFrom, Survivors;
    var tab' := Marked(WithGettys(tab, forks, m));
    assert tab'[m..] == Marked(tab)[m..];
    SurvivorsAreNotLive(tab', live, live);
    NotLiveSplit(tab', live, m);
  }

  /** A freshly built table has only idle sessions, so the starting loop ends on it. */
  lemma FreshTableEnds(ttys: seq<Tty>, mem: nat -> Memory, forks: nat -> int)
    ensures var tab := Built(ttys, mem, |ttys|);
            var r := StartFrom(tab, forks, 0);
            && !r.ending.Spins?
            && (r.ending.AllStarted? <==> forall k :: 0 <= k < |tab| ==> forks(k) != -1)
  {
    BuiltExactly(ttys, mem, |ttys|);
    var tab := Built(ttys, mem, |ttys|);
    StartEndings(tab, forks);
    assert forall k :: 0 <= k < |tab| ==> tab[k].process == 0;
    assert forall k :: 0 <= k < |tab| ==> (Starts(tab, forks, k) <==> forks(k) != -1);
  }
}
