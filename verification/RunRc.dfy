/**
 Running an rc script and waiting for it (sysinit/run_rc.c).
 */
module RunRc {
  import opened CStrings
  import opened SessionModel
  import opened Sessions
  import Lifecycle

  /** The wait for process `pid` over the answers of waitpid: how many it takes, its result (None
      if it is still waiting), and how often it continues the process. */
  datatype RcWait = RcWait(used: nat, verdict: Option<int>, conts: nat)

  function RcLoop(pid: int, es: seq<Wait>): RcWait {
    if es == [] then RcWait(0, None, 0)
    else
      var later := RcLoop(pid, es[1..]);
      var goOn := later.(used := later.used + 1);
      match es[0]
      case Interrupted => goOn
      case NoChildren => RcWait(1, Some(-1), 0)
      case Child(p, stopped, exited, code, _) =>
        if p != pid then goOn
        else if stopped then goOn.(conts := goOn.conts + 1)
        else RcWait(1, Some(if exited && code == 0 then 0 else -1), 0)
  }

  /** The answers that end the wait: the process is gone, or waitpid fails for good. */
  predicate Decides(pid: int, e: Wait) {
    e.NoChildren? || (e.Child? && e.pid == pid && !e.stopped)
  }

  predicate CleanExit(pid: int, e: Wait) {
    e.Child? && e.pid == pid && !e.stopped && e.exited && e.code == 0
  }

  function StopOf(pid: int, e: Wait): nat {
    if e.Child? && e.pid == pid && e.stopped then 1 else 0
  }

  /** How often the process stopped. */
  function Stops(pid: int, es: seq<Wait>): nat {
    if es == [] then 0
    else StopOf(pid, es[0]) + Stops(pid, es[1..])
  }

  /** The first deciding answer decides, whatever other children do in between: success exactly
      for a normal exit of the process with status 0; one continue for every stop before it. */
  lemma {:induction false} FirstDecides(pid: int, es: seq<Wait>)
    ensures var r := RcLoop(pid, es);
            && r.used <= |es| && r.conts == Stops(pid, es[..r.used])
            && match r.verdict
               case None => r.used == |es| && forall k :: 0 <= k < |es| ==> !Decides(pid, es[k])
               case Some(v) =>
                 && r.used > 0 && Decides(pid, es[r.used - 1])
                 && (forall k :: 0 <= k < r.used - 1 ==> !Decides(pid, es[k]))
                 && v == if CleanExit(pid, es[r.used - 1]) then 0 else -1
  {
    if es == [] {
    } else {
      var r, later := RcLoop(pid, es), RcLoop(pid, es[1..]);
      FirstDecides(pid, es[1..]);
      if Decides(pid, es[0]) {
        assert es[..1] == [es[0]];
      } else {
        assert es[..r.used][1..] == es[1..][..later.used];
        assert forall k :: 0 < k < |es| ==> es[k] == es[1..][k - 1];
      }
    }
  }

  /** The script succeeded if and only if its first event that is not a stop is an exit with
      status 0, and waitpid had not failed before. */
  lemma SucceedsExactly(pid: int, es: seq<Wait>)
    ensures RcLoop(pid, es).verdict == Some(0) <==>
            exists i :: 0 <= i < |es| && CleanExit(pid, es[i]) &&
                        forall k :: 0 <= k < i ==> !Decides(pid, es[k])
  {
    FirstDecides(pid, es);
    var r := RcLoop(pid, es);
    if r.verdict == Some(0) {
      assert CleanExit(pid, es[r.used - 1]);
    }
    forall i | 0 <= i < |es| && CleanExit(pid, es[i]) &&
               forall k :: 0 <= k < i ==> !Decides(pid, es[k])
      ensures r.verdict == Some(0)
    {
      assert Decides(pid, es[i]);
    }
  }

  /** Children that are ready at once. */
  function Ready(es: seq<Wait>): nat {
    if es == [] || !es[0].Child? then 0 else 1 + Ready(es[1..])
  }

  /** These are all answers before the first that is no child. */
  lemma {:induction false} ReadyIs(es: seq<Wait>)
    ensures Ready(es) <= |es| && forall k :: 0 <= k < Ready(es) ==> es[k].Child?
    ensures Ready(es) < |es| ==> !es[Ready(es)].Child?
  {
    if es == [] || !es[0].Child? {
    } else {
      ReadyIs(es[1..]);
    }
  }

  lemma ReadyNext(es: seq<Wait>, k: nat)
    requires k <= |es|
    ensures Ready(es[k..]) ==
            if k < |es| && es[k].Child? then 1 + Ready(es[k + 1..]) else 0
  {
    if k < |es| {
      assert es[k..][1..] == es[k + 1..];
    }
  }

  method ReapReady(es: seq<Wait>) returns (used: nat)
    ensures used == Ready(es) <= |es|
  {
    used := 0;
    ReadyNext(es, 0);
    assert es[0..] == es;
    while used < |es| && es[used].Child?
      invariant used <= |es| && used + Ready(es[used..]) == Ready(es)
    {
      ReadyNext(es, used);
      used := used + 1;
    }
    ReadyNext(es, used);
  }

  /** The tests of the loop body on one answer; a stop of the process is answered by SIGCONT. */
  function Turn(pid: int, e: Wait, r: RcWait): (r': RcWait)
    ensures r'.used == r.used + 1
  {
    if e.NoChildren? then RcWait(r.used + 1, Some(-1), r.conts)
    else if e.Interrupted? || e.pid != pid then RcWait(r.used + 1, None, r.conts)
    else if e.stopped then RcWait(r.used + 1, None, r.conts + 1)
    else if !e.exited then RcWait(r.used + 1, Some(-1), r.conts)
    else if e.code != 0 then RcWait(r.used + 1, Some(-1), r.conts)
    else RcWait(r.used + 1, Some(0), r.conts)
  }

  /** `r` is where the wait stands: without a verdict the answers not taken yet decide. */
  ghost predicate SoFar(pid: int, es: seq<Wait>, r: RcWait) {
    r.used <= |es| &&
    RcLoop(pid, es) ==
    if r.verdict.Some? then r
    else var later := RcLoop(pid, es[r.used..]);
         RcWait(r.used + later.used, later.verdict, r.conts + later.conts)
  }

  lemma SoFarAtStart(pid: int, es: seq<Wait>)
    ensures SoFar(pid, es, RcWait(0, None, 0))
  {
    assert es[0..] == es;
  }

  lemma SoFarNext(pid: int, es: seq<Wait>, r: RcWait)
    requires r.used < |es| && r.verdict.None? && SoFar(pid, es, r)
    ensures SoFar(pid, es, Turn(pid, es[r.used], r))
  {
    assert es[r.used..][1..] == es[r.used + 1..];
  }

  lemma SoFarAtEnd(pid: int, es: seq<Wait>, r: RcWait)
    requires SoFar(pid, es, r) && (r.used == |es| || r.verdict.Some?)
    ensures r == RcLoop(pid, es)
  {
    assert es[|es|..] == [];
  }

  /** The wait loop of do_run_rc. */
  method WaitFor(table: SessionTable, pid: int, es: seq<Wait>)
    returns (sc: Option<int>, conts: nat, used: nat)
    requires table.Valid()
    modifies table, table.nodes`next, table.nodes`prev, table.nodes`process
    ensures table.Valid() && used <= |es|
    ensures RcWait(used, sc, conts) == RcLoop(pid, es)
    ensures Collected(old(table.Books()), table.Books(), es, used)
  {
    var r, done := RcWait(0, None, 0), false;
    used := 0;
    ghost var books0, nodes0 := table.Books(), table.nodes;
    assert Within(nodes0, nodes0);
    hide Within, LedgerAfter, Collected, RcLoop, Linked, Views, Turn, SoFar;
    CollectedAtStart(books0, es);
    SoFarAtStart(pid, es);
    while used < |es| && !done
      invariant table.Valid() && used <= |es|
      invariant Collected(books0, table.Books(), es, used)
      invariant Within(table.nodes, nodes0)
      invariant SoFar(pid, es, r) && r.used == used && done == r.verdict.Some?
    {
      var e := es[used];
      CollectedNext(books0, table.Books(), es, used);
      SoFarNext(pid, es, r);
      ghost var nodes := table.nodes;
      WithinMeans(nodes, nodes0);
      table.Report(e);
      WithinTransitive(table.nodes, nodes, nodes0);
      r := Turn(pid, e, r);
      used := used + 1;
      done := r.verdict.Some?;
    }
    SoFarAtEnd(pid, es, r);
    sc, conts := r.verdict, r.conts;
  }

  /** Runs a script and waits for it (do_run_rc).  `fork` is the answer of fork.  If it fails, ready
      children are reaped unseen: their sessions do not hear of it.  Otherwise every child event
      goes to collect_process, in order.  The result None means still waiting. */
  method DoRunRc(table: SessionTable, fork: int, es: seq<Wait>)
    returns (sc: Option<int>, conts: nat, used: nat)
    requires table.Valid()
    modifies table, table.nodes`next, table.nodes`prev, table.nodes`process
    ensures table.Valid() && used <= |es|
    ensures fork == -1 ==>
              && sc == Some(-1) && conts == 0 && used == Ready(es)
              && (forall k :: 0 <= k < used ==> es[k].Child?) && (used < |es| ==> !es[used].Child?)
              && table.Books() == old(table.Books())
    ensures fork != -1 ==>
              && RcWait(used, sc, conts) == RcLoop(fork, es)
              && table.Table() == CollectAll(old(table.Table()), es[..used])
              && table.reported == old(table.reported) + Pids(es[..used])
              && table.freed == old(table.freed) + AllFreed(old(table.Table()), es[..used])
  {
    if fork == -1 {
      sc, conts := Some(-1), 0;
      used := ReapReady(es);
      ReadyIs(es);
    } else {
      sc, conts, used := WaitFor(table, fork, es);
    }
  }

  /** The rc state handlers, as their edges go: a failing startup script skips the sessions, and
      the result of the shutdown script is ignored. */
  function AfterRcStartup(sc: int): Lifecycle.State {
    if sc != 0 then Lifecycle.RunRcShutdown else Lifecycle.StartSessions
  }

  /** What waiting for the script makes of the session list: every answer the wait takes is collected,
      none if the script could not be forked. */
  ghost predicate Waited(l0: Ledger, l: Ledger, fork: int, es: seq<Wait>) {
    if fork == -1 then l == l0 else Collected(l0, l, es, RcLoop(fork, es).used)
  }

  /** Runs the startup script (state_run_rc_startup). */
  method StateRunRcStartup(table: SessionTable, fork: int, es: seq<Wait>)
    returns (next: Option<Lifecycle.State>)
    requires table.Valid()
    modifies table, table.nodes`next, table.nodes`prev, table.nodes`process
    ensures table.Valid() && Waited(old(table.Books()), table.Books(), fork, es)
    ensures next == Some(Lifecycle.StartSessions) <==>
            fork != -1 && exists i :: 0 <= i < |es| && CleanExit(fork, es[i]) &&
                                      forall k :: 0 <= k < i ==> !Decides(fork, es[k])
    ensures next == None <==> fork != -1 && forall k :: 0 <= k < |es| ==> !Decides(fork, es[k])
    ensures next.Some? ==> Lifecycle.Edge(Lifecycle.RunRcStartup, next.value)
  {
    hide RcLoop, CollectAll, Pids, Linked, Views;
    SucceedsExactly(fork, es);
    FirstDecides(fork, es);
    var sc, _, _ := DoRunRc(table, fork, es);
    next := if sc.None? then None else Some(AfterRcStartup(sc.value));
  }

  /** Runs the shutdown script (state_run_rc_shutdown). */
  method StateRunRcShutdown(table: SessionTable, fork: int, es: seq<Wait>)
    returns (next: Option<Lifecycle.State>)
    requires table.Valid()
    modifies table, table.nodes`next, table.nodes`prev, table.nodes`process
    ensures table.Valid() && Waited(old(table.Books()), table.Books(), fork, es)
    ensures next == None <==> fork != -1 && forall k :: 0 <= k < |es| ==> !Decides(fork, es[k])
    ensures next.Some? ==>
              next.value == Lifecycle.RunSShutdown &&
              Lifecycle.Edge(Lifecycle.RunRcShutdown, next.value)
  {
    hide RcLoop, CollectAll, Pids, Linked, Views;
    FirstDecides(fork, es);
    var sc, _, used := DoRunRc(table, fork, es);
    next := if sc.None? then None else Some(Lifecycle.RunSShutdown);
  }
}
