/**
 What the session table does over whole runs, as functions on values: child events, respawning,
 draining (sysinit/sessions.c, sysinit/shutdown.c, sysinit/run_rc.c).
 */
module SessionModel {
  import opened CStrings

  /** A session descriptor as a value. */
  datatype Entry = Entry(index: nat, process: int, shutdown: bool, present: bool,
                         device: string, argv: seq<string>)

  /** An answer of waitpid.  `fork` is the answer a fork made while the event is handled gets:
      -1 for failure, otherwise the pid of the new child. */
  datatype Wait =
    | Interrupted
    | NoChildren
    | Child(pid: int, stopped: bool, exited: bool, code: int, fork: int)

  /** The session table and the set of live child processes. */
  datatype World = World(tab: seq<Entry>, live: set<int>)

  // ---------------------------------------------------- one child event

  /** Position of the first session with the given pid, |tab| if there is none. */
  function Find(tab: seq<Entry>, pid: int): (i: nat)
    ensures i <= |tab|
  {
    if tab == [] || tab[0].process == pid then 0 else 1 + Find(tab[1..], pid)
  }

  lemma {:induction false} FindIs(tab: seq<Entry>, pid: int, i: nat)
    requires i <= |tab|
    requires forall k :: 0 <= k < i ==> tab[k].process != pid
    requires i < |tab| ==> tab[i].process == pid
    ensures Find(tab, pid) == i
    decreases i
  {
    if i == 0 {
    } else {
      FindIs(tab[1..], pid, i - 1);
    }
  }

  lemma {:induction false} FindFinds(tab: seq<Entry>, pid: int)
    ensures var i := Find(tab, pid);
            && (forall k :: 0 <= k < i ==> tab[k].process != pid)
            && (i < |tab| ==> tab[i].process == pid)
  {
    if tab == [] || tab[0].process == pid {
    } else {
      FindFinds(tab[1..], pid);
      assert tab == [tab[0]] + tab[1..];
    }
  }

  /** The event of `pid` makes the table start a getty. */
  predicate Forks(tab: seq<Entry>, pid: int) {
    var i := Find(tab, pid);
    i < |tab| && !tab[i].shutdown
  }

  /** A sequence without its element at `i`, if there is one. */
  function Without<T>(s: seq<T>, i: nat): seq<T> {
    if i < |s| then s[..i] + s[i + 1..] else s
  }

  /** The table after collect_process. */
  function Collect(tab: seq<Entry>, pid: int, fork: int): seq<Entry> {
    var i := Find(tab, pid);
    if i == |tab| then tab
    else if tab[i].shutdown then Without(tab, i)
    else if fork == -1 then tab
    else tab[i := tab[i].(process := fork)]
  }

  /** The descriptors collect_process frees. */
  function Freed(tab: seq<Entry>, pid: int): seq<Entry> {
    var i := Find(tab, pid);
    if i < |tab| && tab[i].shutdown then [tab[i]] else []
  }

  /** The position of the descriptor collect_process frees, |tab| if it frees none. */
  function FreedAt(tab: seq<Entry>, pid: int): nat {
    var i := Find(tab, pid);
    if i < |tab| && tab[i].shutdown then i else |tab|
  }

  /** The three outcomes, by position. */
  lemma CollectCases(tab: seq<Entry>, pid: int, fork: int)
    ensures var i, tab', freed := Find(tab, pid), Collect(tab, pid, fork), Freed(tab, pid);
            if i < |tab| && tab[i].shutdown then
              tab' == Without(tab, i) && freed == [tab[i]] && FreedAt(tab, pid) == i
            else if i < |tab| && fork != -1 then
              tab' == tab[i := tab[i].(process := fork)] && freed == [] && FreedAt(tab, pid) == |tab|
            else tab' == tab && freed == [] && FreedAt(tab, pid) == |tab|
  {
    hide Find, Without;
  }

  /** The table after one answer, and the descriptors freed. */
  function After(tab: seq<Entry>, e: Wait): seq<Entry> {
    if e.Child? then Collect(tab, e.pid, e.fork) else tab
  }

  function FreedBy(tab: seq<Entry>, e: Wait): seq<Entry> {
    if e.Child? then Freed(tab, e.pid) else []
  }

  lemma WithoutSubset<T>(s: seq<T>, i: nat)
    ensures forall k :: 0 <= k < |Without(s, i)| ==> Without(s, i)[k] in s
  {
  }

  lemma WithoutNone<T>(s: seq<T>)
    ensures Without(s, |s|) == s
  {
  }

  /** Children after an event: a child that stopped is still alive. */
  function LiveAfter(w: World, e: Wait): set<int> {
    if !e.Child? then w.live
    else
      (if e.stopped then w.live else w.live - {e.pid})
      + (if Forks(w.tab, e.pid) && e.fork != -1 then {e.fork} else {})
  }

  function Step(w: World, e: Wait): World {
    World(After(w.tab, e), LiveAfter(w, e))
  }

  /** Answers the kernel can give: only live children have events, waitpid fails with no children
      exactly when there are none, and fork never returns the pid of a process that is alive. */
  predicate Possible(w: World, e: Wait) {
    match e
    case Interrupted => true
    case NoChildren => w.live == {}
    case Child(pid, stopped, _, _, fork) =>
      && pid in w.live
      && (fork == -1 || (fork > 0 && fork !in if stopped then w.live else w.live - {pid}))
  }

  function Run(w: World, es: seq<Wait>): World
    decreases |es|
  {
    if es == [] then w else Run(Step(w, es[0]), es[1..])
  }

  predicate PossibleRun(w: World, es: seq<Wait>)
    decreases |es|
  {
    es == [] || (Possible(w, es[0]) && PossibleRun(Step(w, es[0]), es[1..]))
  }

  /** collect_process touches at most the first session with the pid, at position `i` if there is
      one: a session marked for shutdown goes, any other keeps all but its pid, and all sessions
      around it stay in order. */
  lemma CollectFrame(tab: seq<Entry>, pid: int, fork: int, i: nat)
    requires i <= |tab| && forall k :: 0 <= k < i ==> tab[k].process != pid
    requires i < |tab| ==> tab[i].process == pid
    ensures var tab' := Collect(tab, pid, fork);
            if i == |tab| then tab' == tab
            else
              && |tab'| == |tab| - (if tab[i].shutdown then 1 else 0)
              && (forall k :: 0 <= k < i ==> tab'[k] == tab[k])
              && (forall k :: i < k < |tab| ==>
                    tab'[if tab[i].shutdown then k - 1 else k] == tab[k])
              && (!tab[i].shutdown ==>
                    tab'[i] == tab[i].(process := if fork == -1 then pid else fork))
  {
    FindIs(tab, pid, i);
  }

  // -------------------------------------- respawning: sessions and gettys

  predicate NoneShutdown(tab: seq<Entry>) {
    forall k :: 0 <= k < |tab| ==> !tab[k].shutdown
  }

  predicate AllShutdown(tab: seq<Entry>) {
    forall k :: 0 <= k < |tab| ==> tab[k].shutdown
  }

  /** Every session owns a live getty, and no two sessions the same one. */
  predicate OneToOne(w: World) {
    && (forall k :: 0 <= k < |w.tab| ==> w.tab[k].process in w.live)
    && (forall j, k :: 0 <= j < k < |w.tab| ==> w.tab[j].process != w.tab[k].process)
  }

  /** A getty exits and the fork for its session fails: the session has none any more. */
  predicate Lost(tab: seq<Entry>, e: Wait) {
    e.Child? && !e.stopped && Forks(tab, e.pid) && e.fork == -1
  }

  /** A getty only stops and its session gets another one. */
  predicate Replaced(tab: seq<Entry>, e: Wait) {
    e.Child? && e.stopped && Forks(tab, e.pid) && e.fork != -1
  }

  /** The session replaced shared its pid with a later one, whose getty it is from now on alone. */
  predicate Repaired(tab: seq<Entry>, e: Wait) {
    Replaced(tab, e) && exists k :: Find(tab, e.pid) < k < |tab| && tab[k].process == e.pid
  }

  /** Number of events that leave a session without a getty. */
  function Losses(w: World, es: seq<Wait>): nat
    decreases |es|
  {
    if es == [] then 0
    else (if Lost(w.tab, es[0]) then 1 else 0) + Losses(Step(w, es[0]), es[1..])
  }

  function Repairs(w: World, es: seq<Wait>): nat
    decreases |es|
  {
    if es == [] then 0
    else (if Repaired(w.tab, es[0]) then 1 else 0) + Repairs(Step(w, es[0]), es[1..])
  }

  /** The pids stored in the table that belong to live children. */
  function Gettys(w: World): set<int> {
    set k | 0 <= k < |w.tab| && w.tab[k].process in w.live :: w.tab[k].process
  }

  lemma GettysOfLast(w: World)
    requires w.tab != []
    ensures var last := |w.tab| - 1;
            Gettys(w) == Gettys(World(w.tab[..last], w.live)) +
                         if w.tab[last].process in w.live then {w.tab[last].process} else {}
  {
    var t := w.tab[..|w.tab| - 1];
    assert forall k :: 0 <= k < |t| ==> t[k] == w.tab[k];
    forall p | p in Gettys(w)
      ensures p in Gettys(World(t, w.live)) || p == w.tab[|w.tab| - 1].process
    {
      var k :| 0 <= k < |w.tab| && w.tab[k].process == p;
      assert k < |t| ==> t[k].process == p;
    }
  }

  lemma NotOneToOne(w: World)
    requires w.tab != []
    requires var last := |w.tab| - 1;
             w.tab[last].process in w.live ==>
             w.tab[last].process in Gettys(World(w.tab[..last], w.live))
    ensures !OneToOne(w)
  {
    var t, p := w.tab[..|w.tab| - 1], w.tab[|w.tab| - 1].process;
    if p in w.live {
      var k :| 0 <= k < |t| && t[k].process == p;
      assert w.tab[k].process == p;
    }
  }

  lemma OneToOneButLast(w: World)
    requires w.tab != []
    requires var p := w.tab[|w.tab| - 1].process;
             p in w.live && forall k :: 0 <= k < |w.tab| - 1 ==> w.tab[k].process != p
    ensures OneToOne(w) <==> OneToOne(World(w.tab[..|w.tab| - 1], w.live))
  {
    var t := w.tab[..|w.tab| - 1];
    assert forall k :: 0 <= k < |t| ==> t[k] == w.tab[k];
  }

  lemma {:induction false} GettysCount(w: World)
    ensures |Gettys(w)| <= |w.tab|
    ensures |Gettys(w)| == |w.tab| <==> OneToOne(w)
    decreases |w.tab|
  {
    if w.tab == [] {
      assert Gettys(w) == {};
    } else {
      var last := |w.tab| - 1;
      var p := w.tab[last].process;
      var w0 := World(w.tab[..last], w.live);
      GettysCount(w0);
      GettysOfLast(w);
      if p in w.live && p !in Gettys(w0) {
        forall k | 0 <= k < last
          ensures w.tab[k].process != p
        {
          assert w0.tab[k] == w.tab[k];
        }
        OneToOneButLast(w);
      } else {
        NotOneToOne(w);
      }
    }
  }

  lemma GettysRespawned(w: World, e: Wait)
    requires e.Child? && Possible(w, e) && e.fork != -1
    requires Forks(w.tab, e.pid)
    ensures Gettys(Step(w, e)) ==
            (if Repaired(w.tab, e) then Gettys(w) else Gettys(w) - {e.pid}) + {e.fork}
  {
    var w' := Step(w, e);
    var i := Find(w.tab, e.pid);
    FindFinds(w.tab, e.pid);
    var want := (if Repaired(w.tab, e) then Gettys(w) else Gettys(w) - {e.pid}) + {e.fork};
    forall p | p in want
      ensures p in Gettys(w')
    {
      if p == e.fork {
        assert w'.tab[i].process == p;
      } else if p == e.pid {
        var k :| i < k < |w.tab| && w.tab[k].process == p;
        assert w'.tab[k].process == p;
      } else {
        var k :| 0 <= k < |w.tab| && w.tab[k].process == p;
        assert w'.tab[k].process == p;
      }
    }
    forall p | p in Gettys(w')
      ensures p in want
    {
      var k :| 0 <= k < |w'.tab| && w'.tab[k].process == p;
      assert k != i ==> w.tab[k].process == p;
    }
  }

  /** What one event does to the live pids of the table. */
  lemma GettysAfterEvent(w: World, e: Wait)
    requires Possible(w, e) && NoneShutdown(w.tab)
    ensures var g, g' := Gettys(w), Gettys(Step(w, e));
            if !e.Child? || !Forks(w.tab, e.pid) then g' == g
            else if e.fork == -1 then g' == if e.stopped then g else g - {e.pid}
            else g' == (if Repaired(w.tab, e) then g else g - {e.pid}) + {e.fork}
  {
    var w' := Step(w, e);
    if e.Child? {
      FindFinds(w.tab, e.pid);
      if Forks(w.tab, e.pid) && e.fork != -1 {
        GettysRespawned(w, e);
      } else {
        assert w'.tab == w.tab;
      }
    }
  }

  /** One event: a loss takes one live getty from the sessions, a repair gives one back, and no
      other event changes their number. */
  lemma GettysStep(w: World, e: Wait)
    requires Possible(w, e) && NoneShutdown(w.tab)
    ensures NoneShutdown(Step(w, e).tab) && |Step(w, e).tab| == |w.tab|
    ensures |Gettys(Step(w, e))| == |Gettys(w)| - (if Lost(w.tab, e) then 1 else 0)
                                                + if Repaired(w.tab, e) then 1 else 0
  {
    GettysAfterEvent(w, e);
    if e.Child? && Forks(w.tab, e.pid) {
      FindFinds(w.tab, e.pid);
      var g, p := Gettys(w), w.tab[Find(w.tab, e.pid)].process;
      assert p == e.pid && p in g;
      assert e.fork != -1 ==> e.fork !in g - {e.pid};
      hide Find, Collect, Gettys;
    }
  }

  predicate OnlyExits(es: seq<Wait>) {
    forall k :: 0 <= k < |es| && es[k].Child? ==> !es[k].stopped
  }

  /** Over every run, stops included, the number of sessions with a live getty of their own changes
      by exactly the losses and repairs. */
  lemma {:induction false} GettysRun(w: World, es: seq<Wait>)
    requires PossibleRun(w, es) && NoneShutdown(w.tab)
    ensures NoneShutdown(Run(w, es).tab) && |Run(w, es).tab| == |w.tab|
    ensures |Gettys(Run(w, es))| == |Gettys(w)| - Losses(w, es) + Repairs(w, es)
    decreases |es|
  {
    hide Gettys, Lost, Repaired, Step, Possible;
    if es == [] {
    } else {
      GettysStep(w, es[0]);
      GettysRun(Step(w, es[0]), es[1..]);
    }
  }

  lemma {:induction false} ExitsRepairNothing(w: World, es: seq<Wait>)
    requires OnlyExits(es)
    ensures Repairs(w, es) == 0
    decreases |es|
  {
    if es == [] {
    } else {
      assert forall k :: 0 <= k < |es| - 1 ==> es[1..][k] == es[k + 1];
      ExitsRepairNothing(Step(w, es[0]), es[1..]);
    }
  }

  /** With distinct pids there is nothing to repair, and only a loss ends the correspondence. */
  lemma OneToOneStep(w: World, e: Wait)
    requires Possible(w, e) && NoneShutdown(w.tab) && OneToOne(w)
    ensures OneToOne(Step(w, e)) <==> !Lost(w.tab, e)
  {
    GettysStep(w, e);
    GettysCount(w);
    GettysCount(Step(w, e));
    if e.Child? {
      FindFinds(w.tab, e.pid);
    }
    assert !Repaired(w.tab, e);
    hide Gettys, Step, Find;
  }

  /** Gettys alive after an event: those that exit are gone, those that are started join. */
  function GettysAfter(w: World, g: set<int>, e: Wait): set<int> {
    if !e.Child? then g
    else
      (if e.stopped then g else g - {e.pid})
      + (if Forks(w.tab, e.pid) && e.fork != -1 then {e.fork} else {})
  }

  function GettysAlive(w: World, g: set<int>, es: seq<Wait>): set<int>
    decreases |es|
  {
    if es == [] then g else GettysAlive(Step(w, es[0]), GettysAfter(w, g, es[0]), es[1..])
  }

  /** The live gettys `g` are exactly those of the sessions, each of one session. */
  predicate Exact(w: World, g: set<int>) {
    OneToOne(w) && g == set k | 0 <= k < |w.tab| :: w.tab[k].process
  }

  lemma OwnedIsGettys(w: World)
    ensures OneToOne(w) ==> Gettys(w) == set k | 0 <= k < |w.tab| :: w.tab[k].process
  {
  }

  lemma ExactStep(w: World, g: set<int>, e: Wait)
    requires Possible(w, e) && NoneShutdown(w.tab) && Exact(w, g)
    ensures Exact(Step(w, e), GettysAfter(w, g, e)) <==> !Lost(w.tab, e) && !Replaced(w.tab, e)
  {
    OneToOneStep(w, e);
    GettysAfterEvent(w, e);
    OwnedIsGettys(w);
    OwnedIsGettys(Step(w, e));
    if e.Child? {
      FindFinds(w.tab, e.pid);
    }
    hide Gettys, OneToOne, Repaired;
  }

  /** The prefixes of a run, one event on. */
  lemma PrefixNext(w: World, g: set<int>, es: seq<Wait>, k: nat)
    requires k < |es|
    ensures var w', g' := Step(w, es[0]), GettysAfter(w, g, es[0]);
            && Run(w, es[..k + 1]) == Run(w', es[1..][..k])
            && GettysAlive(w, g, es[..k + 1]) == GettysAlive(w', g', es[1..][..k])
  {
    hide Step, GettysAfter;
    assert es[..k + 1][1..] == es[1..][..k];
  }

  lemma {:induction false} KeptThroughout(w: World, es: seq<Wait>)
    requires PossibleRun(w, es) && NoneShutdown(w.tab) && OneToOne(w)
    ensures (forall k :: 0 <= k <= |es| ==> OneToOne(Run(w, es[..k]))) <==> Losses(w, es) == 0
    decreases |es|
  {
    assert es[..0] == [] && Run(w, []) == w;
    if es == [] {
    } else {
      var w' := Step(w, es[0]);
      OneToOneStep(w, es[0]);
      GettysStep(w, es[0]);
      hide Step, OneToOne, Lost;
      if Lost(w.tab, es[0]) {
        PrefixNext(w, {}, es, 0);
        assert !OneToOne(Run(w, es[..1]));
      } else {
        KeptThroughout(w', es[1..]);
        if Losses(w', es[1..]) == 0 {
          forall k | 0 <= k <= |es|
            ensures OneToOne(Run(w, es[..k]))
          {
            if k > 0 {
              PrefixNext(w, {}, es, k - 1);
            }
          }
        } else {
          var k :| 0 <= k <= |es[1..]| && !OneToOne(Run(w', es[1..][..k]));
          PrefixNext(w, {}, es, k);
        }
      }
    }
  }

  /** Over every run that can happen before shutdown, stops included: sessions and live gettys stay
      in one-to-one correspondence throughout if and only if no getty exits whose respawn fails; at
      the end they correspond if and only if the losses have been repaired, which a run of exits
      never does. */
  lemma CorrespondenceKept(w: World, es: seq<Wait>)
    requires PossibleRun(w, es) && NoneShutdown(w.tab) && OneToOne(w)
    ensures (forall k :: 0 <= k <= |es| ==> OneToOne(Run(w, es[..k]))) <==> Losses(w, es) == 0
    ensures OneToOne(Run(w, es)) <==> Losses(w, es) == Repairs(w, es)
    ensures OnlyExits(es) ==> Repairs(w, es) == 0
  {
    KeptThroughout(w, es);
    GettysCount(w);
    GettysRun(w, es);
    GettysCount(Run(w, es));
    hide OneToOne;
    if OnlyExits(es) {
      ExitsRepairNothing(w, es);
    }
  }

  /** After the first `k` events of a run, for every `k`. */
  predicate ExactThroughout(w: World, g: set<int>, es: seq<Wait>) {
    forall k :: 0 <= k <= |es| ==> Exact(Run(w, es[..k]), GettysAlive(w, g, es[..k]))
  }

  /** No event of the run is a failed respawn after an exit or a successful one after a stop. */
  predicate Harmless(w: World, es: seq<Wait>) {
    forall k :: 0 <= k < |es| ==>
      !Lost(Run(w, es[..k]).tab, es[k]) && !Replaced(Run(w, es[..k]).tab, es[k])
  }

  lemma ExactThroughoutNext(w: World, g: set<int>, es: seq<Wait>)
    requires es != []
    ensures ExactThroughout(w, g, es) <==>
            Exact(w, g) && ExactThroughout(Step(w, es[0]), GettysAfter(w, g, es[0]), es[1..])
  {
    var w', g' := Step(w, es[0]), GettysAfter(w, g, es[0]);
    hide Step, GettysAfter, Exact;
    assert es[..0] == [] && Run(w, []) == w && GettysAlive(w, g, []) == g;
    if ExactThroughout(w, g, es) {
      assert Exact(Run(w, es[..0]), GettysAlive(w, g, es[..0]));
      forall k | 0 <= k <= |es[1..]|
        ensures Exact(Run(w', es[1..][..k]), GettysAlive(w', g', es[1..][..k]))
      {
        PrefixNext(w, g, es, k);
      }
    }
    if Exact(w, g) && ExactThroughout(w', g', es[1..]) {
      forall k | 0 <= k <= |es|
        ensures Exact(Run(w, es[..k]), GettysAlive(w, g, es[..k]))
      {
        if k > 0 {
          PrefixNext(w, g, es, k - 1);
        }
      }
    }
  }

  lemma HarmlessNext(w: World, es: seq<Wait>)
    requires es != []
    ensures Harmless(w, es) <==>
            !Lost(w.tab, es[0]) && !Replaced(w.tab, es[0]) && Harmless(Step(w, es[0]), es[1..])
  {
    var w' := Step(w, es[0]);
    hide Step, Lost, Replaced;
    assert es[..0] == [] && Run(w, []) == w;
    if Harmless(w, es) {
      assert !Lost(Run(w, es[..0]).tab, es[0]) && !Replaced(Run(w, es[..0]).tab, es[0]);
      forall k | 0 <= k < |es[1..]|
        ensures !Lost(Run(w', es[1..][..k]).tab, es[1..][k])
        ensures !Replaced(Run(w', es[1..][..k]).tab, es[1..][k])
      {
        PrefixNext(w, {}, es, k);
        assert es[1..][k] == es[k + 1];
      }
    }
    if !Lost(w.tab, es[0]) && !Replaced(w.tab, es[0]) && Harmless(w', es[1..]) {
      forall k | 0 <= k < |es|
        ensures !Lost(Run(w, es[..k]).tab, es[k]) && !Replaced(Run(w, es[..k]).tab, es[k])
      {
        if k > 0 {
          PrefixNext(w, {}, es, k - 1);
          assert es[1..][k - 1] == es[k];
        }
      }
    }
  }

  /** Over the same runs, every live getty belongs to a session and every session has one of its own,
      throughout, if and only if no respawn after an exit fails and none after a stop succeeds: a
      getty that only stopped is replaced although it is alive. */
  lemma {:induction false} GettysExactly(w: World, g: set<int>, es: seq<Wait>)
    requires PossibleRun(w, es) && NoneShutdown(w.tab) && Exact(w, g)
    ensures ExactThroughout(w, g, es) <==> Harmless(w, es)
    decreases |es|
  {
    if es == [] {
      assert es[..0] == [];
    } else {
      var w', g' := Step(w, es[0]), GettysAfter(w, g, es[0]);
      ExactStep(w, g, es[0]);
      GettysStep(w, es[0]);
      ExactThroughoutNext(w, g, es);
      HarmlessNext(w, es);
      hide Step, GettysAfter, Exact, Lost, Replaced, Harmless;
      if Exact(w', g') {
        GettysExactly(w', g', es[1..]);
      } else {
        assert es[1..][..0] == [];
        assert !Exact(Run(w', es[1..][..0]), GettysAlive(w', g', es[1..][..0]));
      }
    }
  }

  /** Everything about a session except its pid. */
  function Fixed(tab: seq<Entry>): seq<Entry> {
    seq(|tab|, k requires 0 <= k < |tab| => tab[k].(process := 0))
  }

  /** No event reorders, adds, removes or otherwise changes a session before shutdown. */
  lemma {:induction false} SessionsKeptInPlace(w: World, es: seq<Wait>)
    requires NoneShutdown(w.tab)
    ensures Fixed(Run(w, es).tab) == Fixed(w.tab) && NoneShutdown(Run(w, es).tab)
    decreases |es|
  {
    if es == [] {
    } else {
      var tab' := Step(w, es[0]).tab;
      assert Fixed(tab') == Fixed(w.tab) && NoneShutdown(tab');
      SessionsKeptInPlace(Step(w, es[0]), es[1..]);
    }
  }

  /** The getty of a session that only stopped stays alive, and no session owns it afterwards if and
      only if the fork of its replacement succeeds. */
  lemma StoppedGettyIsOrphaned(w: World, e: Wait)
    requires OneToOne(w) && NoneShutdown(w.tab) && Possible(w, e)
    requires e.Child? && e.stopped && Forks(w.tab, e.pid)
    ensures var w' := Step(w, e);
            && OneToOne(w') && e.pid in w'.live
            && ((forall k :: 0 <= k < |w'.tab| ==> w'.tab[k].process != e.pid) <==> e.fork != -1)
  {
    OneToOneStep(w, e);
    FindFinds(w.tab, e.pid);
  }

  // ------------------------------------------------ draining at shutdown

  /** The sessions that survive when every process of `live` exits once: each exit removes the
      first session with that pid. */
  function Survivors(tab: seq<Entry>, live: set<int>): seq<Entry> {
    if tab == [] then []
    else if tab[0].process in live then Survivors(tab[1..], live - {tab[0].process})
    else [tab[0]] + Survivors(tab[1..], live)
  }

  lemma {:induction false} SurvivorsOfNone(tab: seq<Entry>)
    ensures Survivors(tab, {}) == tab
  {
    if tab == [] {
    } else {
      SurvivorsOfNone(tab[1..]);
    }
  }

  lemma CollectNothing(pid: int, fork: int)
    ensures Collect([], pid, fork) == [] && !Forks([], pid) && Freed([], pid) == []
  {
  }

  lemma CollectHead(tab: seq<Entry>, pid: int, fork: int)
    requires tab != [] && tab[0].process == pid && tab[0].shutdown
    ensures Collect(tab, pid, fork) == tab[1..] && !Forks(tab, pid) && Freed(tab, pid) == [tab[0]]
  {
  }

  lemma CollectTail(tab: seq<Entry>, pid: int, fork: int)
    requires tab != [] && tab[0].process != pid
    ensures Collect(tab, pid, fork) == [tab[0]] + Collect(tab[1..], pid, fork)
    ensures Forks(tab, pid) == Forks(tab[1..], pid)
    ensures Freed(tab, pid) == Freed(tab[1..], pid)
  {
  }

  /** The order of exits does not matter. */
  lemma {:induction false} SurvivorsStep(tab: seq<Entry>, live: set<int>, pid: int, fork: int)
    requires AllShutdown(tab) && pid in live
    ensures Survivors(Collect(tab, pid, fork), live - {pid}) == Survivors(tab, live)
    ensures AllShutdown(Collect(tab, pid, fork)) && !Forks(tab, pid)
    decreases |tab|
  {
    hide Collect, Find;
    if tab == [] {
      CollectNothing(pid, fork);
    } else if tab[0].process == pid {
      CollectHead(tab, pid, fork);
    } else {
      var e, rest, p := tab[0], tab[1..], tab[0].process;
      var rest' := Collect(rest, pid, fork);
      CollectTail(tab, pid, fork);
      SurvivorsStep(rest, if p in live then live - {p} else live, pid, fork);
      assert live - {p} - {pid} == live - {pid} - {p};
      assert Collect(tab, pid, fork)[1..] == rest';
    }
  }

  /** With distinct pids the survivors are exactly the sessions whose process was not a live
      child, in their original order. */
  function NotLive(tab: seq<Entry>, live: set<int>): seq<Entry> {
    if tab == [] then []
    else (if tab[0].process in live then [] else [tab[0]]) + NotLive(tab[1..], live)
  }

  lemma {:induction false} SurvivorsAreNotLive(tab: seq<Entry>, live: set<int>, live': set<int>)
    requires live' <= live
    requires forall k :: 0 <= k < |tab| ==> (tab[k].process in live <==> tab[k].process in live')
    requires forall j, k :: 0 <= j < k < |tab| && tab[j].process in live ==>
               tab[j].process != tab[k].process
    ensures Survivors(tab, live') == NotLive(tab, live)
  {
    if tab == [] {
    } else {
      var live'' := if tab[0].process in live then live' - {tab[0].process} else live';
      SurvivorsAreNotLive(tab[1..], live, live'');
    }
  }

  /** Live sessions in front, the others behind. */
  lemma {:induction false} NotLiveSplit(tab: seq<Entry>, live: set<int>, m: nat)
    requires m <= |tab|
    requires forall k :: 0 <= k < |tab| ==> (tab[k].process in live <==> k < m)
    ensures NotLive(tab, live) == tab[m..]
  {
    if tab == [] {
    } else {
      assert tab[0].process in live <==> 0 < m;
      NotLiveSplit(tab[1..], live, if m == 0 then 0 else m - 1);
    }
  }

  /** The descriptors freed over a list of answers, in order; which children are alive does not
      matter to the table. */
  function AllFreed(tab: seq<Entry>, es: seq<Wait>): seq<Entry>
    decreases |es|
  {
    if es == [] then [] else FreedBy(tab, es[0]) + AllFreed(After(tab, es[0]), es[1..])
  }

  function Exits(es: seq<Wait>): nat {
    if es == [] then 0 else (if es[0].Child? then 1 else 0) + Exits(es[1..])
  }

  /** A descriptor leaves the table exactly when it is freed. */
  lemma FreedOnce(tab: seq<Entry>, pid: int, fork: int)
    requires AllShutdown(tab)
    ensures multiset(Collect(tab, pid, fork)) + multiset(Freed(tab, pid)) == multiset(tab)
  {
    var i := Find(tab, pid);
    if i < |tab| {
      assert tab == tab[..i] + [tab[i]] + tab[i + 1..];
    }
  }

  lemma DrainStep(w: World, e: Wait)
    requires Possible(w, e) && AllShutdown(w.tab) && (e.Child? ==> !e.stopped)
    ensures var w' := Step(w, e);
            && AllShutdown(w'.tab)
            && w'.live == (if e.Child? then w.live - {e.pid} else w.live)
            && Survivors(w'.tab, w'.live) == Survivors(w.tab, w.live)
            && multiset(w'.tab) + multiset(FreedBy(w.tab, e)) == multiset(w.tab)
  {
    hide Collect, Freed, Survivors, Forks;
    if e.Child? {
      SurvivorsStep(w.tab, w.live, e.pid, e.fork);
      FreedOnce(w.tab, e.pid, e.fork);
    }
  }

  /** What every drain step keeps: no fork, the eventual survivors, and the descriptors in the
      table together with those freed; and each exit shrinks the set of children by one. */
  lemma {:induction false} DrainRun(w: World, es: seq<Wait>)
    requires PossibleRun(w, es) && AllShutdown(w.tab) && OnlyExits(es)
    ensures var w' := Run(w, es);
            && AllShutdown(w'.tab) && w'.live <= w.live && |w'.live| + Exits(es) == |w.live|
            && Survivors(w'.tab, w'.live) == Survivors(w.tab, w.live)
            && multiset(w'.tab) + multiset(AllFreed(w.tab, es)) == multiset(w.tab)
    decreases |es|
  {
    if es == [] {
    } else {
      var e, w' := es[0], Step(w, es[0]);
      DrainStep(w, e);
      assert OnlyExits(es[1..]) by {
        assert forall k :: 0 <= k < |es| - 1 ==> es[1..][k] == es[k + 1];
      }
      DrainRun(w', es[1..]);
    }
  }

  lemma {:induction false} LastNoChildren(w: World, es: seq<Wait>)
    requires PossibleRun(w, es) && es != [] && es[|es| - 1].NoChildren?
    ensures Run(w, es).live == {}
    decreases |es|
  {
    if |es| == 1 {
      assert es == [es[0]];
    } else {
      LastNoChildren(Step(w, es[0]), es[1..]);
    }
  }

  /** The reaper, once waitpid has reported that no child is left: the table holds exactly the
      survivors, and each other descriptor was freed exactly once. */
  lemma DrainEnds(w: World, es: seq<Wait>)
    requires PossibleRun(w, es) && AllShutdown(w.tab) && OnlyExits(es)
    requires es != [] && es[|es| - 1].NoChildren?
    ensures Run(w, es) == World(Survivors(w.tab, w.live), {})
    ensures multiset(Survivors(w.tab, w.live)) + multiset(AllFreed(w.tab, es)) == multiset(w.tab)
  {
    DrainRun(w, es);
    LastNoChildren(w, es);
    SurvivorsOfNone(Run(w, es).tab);
  }

  /** The table after a list of answers. */
  function CollectAll(tab: seq<Entry>, es: seq<Wait>): seq<Entry>
    decreases |es|
  {
    if es == [] then tab else CollectAll(After(tab, es[0]), es[1..])
  }

  lemma {:induction false} CollectAllIsRun(w: World, es: seq<Wait>)
    ensures CollectAll(w.tab, es) == Run(w, es).tab
    decreases |es|
  {
    if es == [] {
    } else {
      CollectAllIsRun(Step(w, es[0]), es[1..]);
    }
  }

  lemma {:induction false} CollectAllSnoc(tab: seq<Entry>, es: seq<Wait>, e: Wait)
    ensures CollectAll(tab, es + [e]) == After(CollectAll(tab, es), e)
    ensures AllFreed(tab, es + [e]) == AllFreed(tab, es) + FreedBy(CollectAll(tab, es), e)
    decreases |es|
  {
    hide After, FreedBy;
    if es == [] {
      assert es + [e] == [e];
    } else {
      assert (es + [e])[1..] == es[1..] + [e];
      CollectAllSnoc(After(tab, es[0]), es[1..], e);
    }
  }

  function PidOf(e: Wait): seq<int> {
    if e.Child? then [e.pid] else []
  }

  /** The pids of the children that had events, in order. */
  function Pids(es: seq<Wait>): seq<int> {
    if es == [] then [] else PidOf(es[0]) + Pids(es[1..])
  }

  lemma {:induction false} PidsSnoc(es: seq<Wait>, e: Wait)
    ensures Pids(es + [e]) == Pids(es) + PidOf(e)
  {
    hide PidOf;
    if es == [] {
      assert es + [e] == [e] && Pids([]) == [];
    } else {
      assert (es + [e])[1..] == es[1..] + [e];
      PidsSnoc(es[1..], e);
      assert PidOf(es[0]) + (Pids(es[1..]) + PidOf(e)) == (PidOf(es[0]) + Pids(es[1..])) + PidOf(e);
    }
  }

  lemma {:induction false} PidsLength(es: seq<Wait>)
    ensures |Pids(es)| == Exits(es)
  {
    if es == [] {
    } else {
      PidsLength(es[1..]);
    }
  }

  /** One report for each child event, with its pid, in order. */
  lemma {:induction false} PidsAre(es: seq<Wait>, k: nat)
    requires k < |es|
    ensures |Pids(es)| == Exits(es)
    ensures es[k].Child? ==>
              Exits(es[..k]) < |Pids(es)| && Pids(es)[Exits(es[..k])] == es[k].pid
  {
    assert es[..0] == [];
    PidsLength(es);
    if k > 0 {
      PidsAre(es[1..], k - 1);
      assert es[..k][1..] == es[1..][..k - 1];
    }
  }

  /** One more answer, by position. */
  lemma CollectNext(tab: seq<Entry>, es: seq<Wait>, k: nat)
    requires k < |es|
    ensures CollectAll(tab, es[..k + 1]) == After(CollectAll(tab, es[..k]), es[k])
    ensures AllFreed(tab, es[..k + 1]) ==
            AllFreed(tab, es[..k]) + FreedBy(CollectAll(tab, es[..k]), es[k])
    ensures Pids(es[..k + 1]) == Pids(es[..k]) + PidOf(es[k])
  {
    assert es[..k + 1] == es[..k] + [es[k]];
    CollectAllSnoc(tab, es[..k], es[k]);
    PidsSnoc(es[..k], es[k]);
  }

  lemma CollectNoneYet(tab: seq<Entry>, es: seq<Wait>)
    ensures CollectAll(tab, es[..0]) == tab && AllFreed(tab, es[..0]) == [] && Pids(es[..0]) == []
  {
  }

  /** A session list with what was done to it: its table, the pids reported to it, the descriptors
      freed. */
  datatype Ledger = Ledger(tab: seq<Entry>, reported: seq<int>, freed: seq<Entry>)

  function LedgerAfter(l: Ledger, e: Wait): Ledger {
    Ledger(After(l.tab, e), l.reported + PidOf(e), l.freed + FreedBy(l.tab, e))
  }

  /** `l` is what the first `k` answers make of `l0`. */
  ghost predicate Collected(l0: Ledger, l: Ledger, es: seq<Wait>, k: nat) {
    && k <= |es|
    && l.tab == CollectAll(l0.tab, es[..k])
    && l.reported == l0.reported + Pids(es[..k])
    && l.freed == l0.freed + AllFreed(l0.tab, es[..k])
  }

  lemma CollectedAtStart(l: Ledger, es: seq<Wait>)
    ensures Collected(l, l, es, 0)
  {
    CollectNoneYet(l.tab, es);
  }

  lemma CollectedNext(l0: Ledger, l: Ledger, es: seq<Wait>, k: nat)
    requires k < |es| && Collected(l0, l, es, k)
    ensures Collected(l0, LedgerAfter(l, es[k]), es, k + 1)
  {
    CollectNext(l0.tab, es, k);
    hide CollectAll, AllFreed, After, FreedBy, Pids, PidOf;
  }

  /** The first `n` sessions marked so that they are not restarted. */
  function MarkedFirst(tab: seq<Entry>, n: nat): seq<Entry> {
    seq(|tab|, k requires 0 <= k < |tab| => if k < n then tab[k].(shutdown := true) else tab[k])
  }

  function Marked(tab: seq<Entry>): seq<Entry> {
    MarkedFirst(tab, |tab|)
  }

  lemma MarkOneMore(tab: seq<Entry>, i: nat)
    requires i < |tab|
    ensures var t := MarkedFirst(tab, i); t[i := t[i].(shutdown := true)] == MarkedFirst(tab, i + 1)
  {
  }

  lemma MarkedIsMarked(tab: seq<Entry>)
    ensures |Marked(tab)| == |tab|
    ensures MarkedFirst(tab, 0) == tab && AllShutdown(Marked(tab))
    ensures forall k :: 0 <= k < |tab| ==> Marked(tab)[k] == tab[k].(shutdown := true)
  {
  }

  lemma GettysOfFirst(tab: seq<Entry>, live: set<int>)
    requires tab != []
    ensures var p, rest := tab[0].process, tab[1..];
            Gettys(World(tab, live)) ==
            if p in live then {p} + Gettys(World(rest, live - {p})) else Gettys(World(rest, live))
  {
    var p, rest := tab[0].process, tab[1..];
    forall q | q in Gettys(World(tab, live))
      ensures q == p || q in Gettys(World(rest, live - {p}))
    {
      var k :| 0 <= k < |tab| && tab[k].process == q;
      assert k > 0 ==> rest[k - 1].process == q;
    }
    forall q, l | l <= live && q in Gettys(World(rest, l))
      ensures q in Gettys(World(tab, live))
    {
      var k :| 0 <= k < |rest| && rest[k].process == q;
      assert tab[k + 1].process == q;
    }
    assert p in live ==> tab[0].process in Gettys(World(tab, live));
  }

  /** A drain frees one session for each live getty the table holds. */
  lemma {:induction false} SurvivorsCount(tab: seq<Entry>, live: set<int>)
    ensures |Survivors(tab, live)| + |Gettys(World(tab, live))| == |tab|
    decreases |tab|
  {
    if tab == [] {
      assert Gettys(World(tab, live)) == {};
    } else {
      var p, rest := tab[0].process, tab[1..];
      GettysOfFirst(tab, live);
      var live' := if p in live then live - {p} else live;
      SurvivorsCount(rest, live');
      assert p !in live ==> live - {p} == live;
      assert p !in Gettys(World(rest, live - {p}));
      hide Gettys;
    }
  }

  lemma GettysOfMarked(tab: seq<Entry>, live: set<int>)
    ensures Gettys(World(Marked(tab), live)) == Gettys(World(tab, live))
  {
    MarkedIsMarked(tab);
    hide Marked;
    forall p
      ensures p in Gettys(World(Marked(tab), live)) <==> p in Gettys(World(tab, live))
    {
      if k :| 0 <= k < |tab| && tab[k].process == p {
        assert Marked(tab)[k].process == p;
      }
    }
  }

  /** Respawning and draining together: of a table in one-to-one correspondence, after any run before
      shutdown, the drain leaves as many sessions as lost their getty for good. */
  lemma LeftAfterRun(w: World, es: seq<Wait>)
    requires PossibleRun(w, es) && NoneShutdown(w.tab) && OneToOne(w)
    ensures var w' := Run(w, es);
            |Survivors(Marked(w'.tab), w'.live)| == Losses(w, es) - Repairs(w, es)
  {
    var w' := Run(w, es);
    GettysCount(w);
    GettysRun(w, es);
    hide Run, Losses, Repairs, Gettys, Survivors, Marked, OneToOne;
    SurvivorsCount(Marked(w'.tab), w'.live);
    GettysOfMarked(w'.tab, w'.live);
    MarkedIsMarked(w'.tab);
  }

  lemma {:induction false} AllLiveNoneLeft(tab: seq<Entry>, live: set<int>)
    requires forall k :: 0 <= k < |tab| ==> tab[k].process in live
    ensures NotLive(tab, live) == []
  {
    if tab == [] {
    } else {
      AllLiveNoneLeft(tab[1..], live);
    }
  }

  /** Sessions that own their live gettys one to one are all freed by a drain. */
  lemma OneToOneAllFreed(tab: seq<Entry>, live: set<int>)
    requires OneToOne(World(tab, live))
    ensures Survivors(Marked(tab), live) == []
  {
    MarkedIsMarked(tab);
    SurvivorsAreNotLive(Marked(tab), live, live);
    AllLiveNoneLeft(Marked(tab), live);
  }
}
