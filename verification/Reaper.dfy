/**
 Bringing the system down (sysinit/shutdown.c, state_reaper).
 */
module Reaper {
  import opened CStrings
  import opened SessionModel
  import opened Sessions
  import Lifecycle

  datatype Errno = ESRCH | EINTR | ECHILD | Other

  datatype Signal = SIGHUP | SIGTERM | SIGKILL

  /** waitpid sets errno only when it fails. */
  function ErrnoAfter(errno: Errno, e: Wait): Errno {
    match e
    case Interrupted => EINTR
    case NoChildren => ECHILD
    case Child(_, _, _, _, _) => errno
  }

  /** How many answers of waitpid the wait loop takes before it finds errno to be ECHILD; None if
      it is still waiting after all of them. */
  function Taken(errno: Errno, es: seq<Wait>): (n: Option<nat>)
    ensures n.Some? ==> n.value <= |es|
    decreases |es|
  {
    if es == [] then None
    else if ErrnoAfter(errno, es[0]) == ECHILD then Some(1)
    else match Taken(ErrnoAfter(errno, es[0]), es[1..]) case None => None case Some(n) => Some(n + 1)
  }

  predicate Quiet(es: seq<Wait>) {
    forall k :: 0 <= k < |es| ==> !es[k].NoChildren?
  }

  /** With a clean errno the loop takes everything up to the first report of no children. */
  lemma {:induction false} TakenUntilNoChildren(errno: Errno, es: seq<Wait>)
    requires errno != ECHILD
    ensures match Taken(errno, es)
            case None => Quiet(es)
            case Some(n) => 0 < n <= |es| && es[n - 1].NoChildren? && Quiet(es[..n - 1])
    decreases |es|
  {
    if es == [] || es[0].NoChildren? {
    } else {
      var errno' := ErrnoAfter(errno, es[0]);
      TakenUntilNoChildren(errno', es[1..]);
      match Taken(errno', es[1..])
      case None =>
        assert es == [es[0]] + es[1..];
      case Some(n) =>
        assert es[..n] == [es[0]] + es[1..][..n - 1];
    }
  }

  lemma {:induction false} PossiblePrefix(w: World, es: seq<Wait>, n: nat)
    requires PossibleRun(w, es) && n <= |es|
    ensures PossibleRun(w, es[..n])
    decreases |es|
  {
    if n == 0 {
    } else {
      PossiblePrefix(Step(w, es[0]), es[1..], n - 1);
      assert es[..n][1..] == es[1..][..n - 1];
    }
  }

  function Interruptions(es: seq<Wait>): nat {
    if es == [] then 0 else (if es[0].Interrupted? then 1 else 0) + Interruptions(es[1..])
  }

  lemma {:induction false} QuietLength(es: seq<Wait>)
    requires Quiet(es)
    ensures |es| == Exits(es) + Interruptions(es)
  {
    if es == [] {
    } else {
      assert forall k :: 0 <= k < |es| - 1 ==> es[1..][k] == es[k + 1];
      QuietLength(es[1..]);
    }
  }

  /** The reaper ends: however the children die, once more answers have come than there were
      children and interruptions, the loop is over. */
  lemma ReaperEnds(w: World, errno: Errno, es: seq<Wait>)
    requires errno != ECHILD
    requires AllShutdown(w.tab) && PossibleRun(w, es) && OnlyExits(es)
    requires |es| > |w.live| + Interruptions(es)
    ensures Taken(errno, es).Some?
  {
    TakenUntilNoChildren(errno, es);
    if Taken(errno, es).None? {
      DrainRun(w, es);
      QuietLength(es);
    }
  }

  /** When the loop ends, no child is left, no getty was started, and the table holds exactly the
      sessions that survive the exit of every child. */
  lemma ReaperDrains(tab: seq<Entry>, live: set<int>, errno: Errno, es: seq<Wait>)
    requires errno != ECHILD && Taken(errno, es).Some?
    requires PossibleRun(World(Marked(tab), live), es) && OnlyExits(es)
    ensures var n := Taken(errno, es).value;
            && n <= |es|
            && Run(World(Marked(tab), live), es[..n]) == World(Survivors(Marked(tab), live), {})
            && CollectAll(Marked(tab), es[..n]) == Survivors(Marked(tab), live)
            && multiset(CollectAll(Marked(tab), es[..n]))
               + multiset(AllFreed(Marked(tab), es[..n])) == multiset(Marked(tab))
  {
    TakenUntilNoChildren(errno, es);
    var n := Taken(errno, es).value;
    var w := World(Marked(tab), live);
    PossiblePrefix(w, es, n);
    DrainEnds(w, es[..n]);
    CollectAllIsRun(w, es[..n]);
  }

  lemma NoneAliveAt(w: World, es: seq<Wait>, n: nat)
    requires PossibleRun(w, es) && 0 < n <= |es| && es[n - 1].NoChildren?
    ensures Run(w, es[..n]).live == {}
  {
    PossiblePrefix(w, es, n);
    LastNoChildren(w, es[..n]);
  }

  lemma OneChildLeft(live: set<int>, pid: int)
    requires pid in live
    ensures live - {pid} == {} <==> |live| <= 1
  {
    assert live == (live - {pid}) + {pid};
  }

  /** The first answer of a drain leaves no child unless it reports an exit of one of several. */
  lemma AfterFirst(w: World, es: seq<Wait>)
    requires AllShutdown(w.tab) && PossibleRun(w, es) && OnlyExits(es)
    requires es != [] && !es[0].Interrupted?
    ensures Run(w, es[..1]).live == {} <==> !(es[0].Child? && |w.live| > 1)
  {
    assert es[..1] == [es[0]];
    DrainStep(w, es[0]);
    assert Run(w, es[..1]) == Step(w, es[0]);
    hide Step, Survivors;
    if es[0].Child? {
      OneChildLeft(w.live, es[0].pid);
    }
  }

  /** From a table in one-to-one correspondence, through any run before shutdown and then the reaper:
      as many sessions are left as lost their getty and were not repaired. */
  lemma LeftByReaper(w: World, before: seq<Wait>, errno: Errno, es: seq<Wait>)
    requires PossibleRun(w, before) && NoneShutdown(w.tab) && OneToOne(w)
    requires errno != ECHILD && Taken(errno, es).Some?
    requires PossibleRun(World(Marked(Run(w, before).tab), Run(w, before).live), es) && OnlyExits(es)
    ensures |CollectAll(Marked(Run(w, before).tab), es[..Taken(errno, es).value])|
            == Losses(w, before) - Repairs(w, before)
  {
    LeftAfterRun(w, before);
    ReaperDrains(Run(w, before).tab, Run(w, before).live, errno, es);
  }

  /** The loop tests errno after successful calls too.  For every errno it can start with: when it
      ends, all children have been reaped, unless errno was ECHILD from before, the first call
      reported an exit, and there was more than that one child. */
  lemma DrainedExactly(w: World, errno: Errno, es: seq<Wait>)
    requires AllShutdown(w.tab) && PossibleRun(w, es) && OnlyExits(es)
    requires Taken(errno, es).Some?
    ensures var n := Taken(errno, es).value;
            n <= |es| &&
            (Run(w, es[..n]).live == {} <==> !(errno == ECHILD && es[0].Child? && |w.live| > 1))
  {
    hide Run, Survivors;
    if errno != ECHILD {
      TakenUntilNoChildren(errno, es);
      NoneAliveAt(w, es, Taken(errno, es).value);
    } else if es[0].Interrupted? {
      TakenUntilNoChildren(EINTR, es[1..]);
      NoneAliveAt(w, es, Taken(errno, es).value);
    } else {
      AfterFirst(w, es);
    }
  }

  /** A stale ECHILD with two children: the loop stops after the first exit. */
  lemma StaleErrnoLeavesChildren()
    ensures var w := World([], {5, 7});
            var es := [Child(5, false, true, 0, -1), Child(7, false, true, 0, -1), NoChildren];
            && PossibleRun(w, es) && Taken(ECHILD, es) == Some(1) && Run(w, es[..1]).live == {7}
  {
    var w := World([], {5, 7});
    var e5, e7 := Child(5, false, true, 0, -1), Child(7, false, true, 0, -1);
    var es := [e5, e7, NoChildren];
    assert Step(w, e5) == World([], {7});
    assert Step(World([], {7}), e7) == World([], {});
    assert es[1..] == [e7, NoChildren] && es[1..][1..] == [NoChildren] && es[..1] == [e5];
    assert PossibleRun(World([], {}), [NoChildren]);
    assert PossibleRun(World([], {7}), [e7, NoChildren]);
    assert PossibleRun(w, es);
  }

  function Shifted(n: Option<nat>, k: nat): Option<nat> {
    if n.None? then None else Some(n.value + k)
  }

  lemma TakenFromStart(errno: Errno, es: seq<Wait>)
    ensures Shifted(Taken(errno, es[0..]), 0) == Taken(errno, es)
  {
    assert es[0..] == es;
  }

  lemma TakenNext(errno: Errno, es: seq<Wait>, k: nat)
    requires k < |es|
    ensures var errno' := ErrnoAfter(errno, es[k]);
            Shifted(Taken(errno, es[k..]), k) ==
            if errno' == ECHILD then Some(k + 1) else Shifted(Taken(errno', es[k + 1..]), k + 1)
  {
    assert es[k..][1..] == es[k + 1..];
  }

  lemma TakenAtEnd(errno: Errno, es: seq<Wait>)
    ensures Shifted(Taken(errno, es[|es|..]), |es|) == None
  {
  }

  /** The wait loop of the reaper. */
  method WaitLoop(table: SessionTable, errno: Errno, es: seq<Wait>) returns (done: bool, used: nat)
    requires table.Valid()
    modifies table, table.nodes`next, table.nodes`prev, table.nodes`process
    ensures table.Valid() && used <= |es|
    ensures Collected(old(table.Books()), table.Books(), es, used)
    ensures var n := Taken(errno, es);
            if n.Some? then done && used == n.value else !done && used == |es|
  {
    var err := errno;
    done, used := false, 0;
    ghost var books0, nodes0 := table.Books(), table.nodes;
    assert Within(nodes0, nodes0);
    hide Within, LedgerAfter, Collected, Taken, ErrnoAfter, Shifted, Linked, Views;
    CollectedAtStart(books0, es);
    TakenFromStart(errno, es);
    while used < |es| && !done
      invariant table.Valid() && used <= |es|
      invariant Collected(books0, table.Books(), es, used)
      invariant Within(table.nodes, nodes0)
      invariant Taken(errno, es) ==
                if done then Some(used) else Shifted(Taken(err, es[used..]), used)
    {
      var e := es[used];
      CollectedNext(books0, table.Books(), es, used);
      TakenNext(err, es, used);
      ghost var nodes := table.nodes;
      WithinMeans(nodes, nodes0);
      table.Report(e);
      WithinTransitive(table.nodes, nodes, nodes0);
      err := ErrnoAfter(err, e);
      used := used + 1;
      done := err == ECHILD;
    }
    TakenAtEnd(err, es);
  }

  /** Marks all sessions, sends SIGHUP to every process and reaps children (state_reaper).  `kill`
      is None or the error kill fails with; `es` are the answers of waitpid.  The other two signals
      of the source are never sent, because the first turn of its loop returns.  None means that
      the call is still waiting after all answers. */
  method StateReaper(table: SessionTable, errno: Errno, kill: Option<Errno>, es: seq<Wait>)
    returns (next: Option<Lifecycle.State>, signals: seq<Signal>, used: nat)
    requires table.Valid()
    modifies table, table.nodes`next, table.nodes`prev, table.nodes`process, table.nodes`shutdown
    ensures table.Valid()
    ensures signals == [SIGHUP] && used <= |es|
    ensures table.Table() == CollectAll(Marked(old(table.Table())), es[..used])
    ensures table.freed == old(table.freed) + AllFreed(Marked(old(table.Table())), es[..used])
    ensures table.reported == old(table.reported) + Pids(es[..used])
    ensures kill == Some(ESRCH) ==> next == Some(Lifecycle.Shutdown) && used == 0
    ensures kill != Some(ESRCH) ==>
              var n := Taken(if kill.Some? then kill.value else errno, es);
              if n.Some? then next == Some(Lifecycle.Shutdown) && used == n.value
              else next == None && used == |es|
  {
    table.MarkShutdown();
    signals := [SIGHUP];
    var err := errno;
    if kill.Some? {
      err := kill.value;
      if err == ESRCH {
        CollectNoneYet(table.Table(), es);
        return Some(Lifecycle.Shutdown), signals, 0;
      }
    }
    var done;
    done, used := WaitLoop(table, err, es);
    next := if done then Some(Lifecycle.Shutdown) else None;
  }
}
