/**
 The states of sysinit and the transitions between them (sysinit/sysinit.h, sysinit/main.c).
 */
module Lifecycle {


  datatype State =
    | RunSStartup
    | RunRcStartup
    | StartSessions
    | MessageLoop
    | StopSessions
    | RunRcShutdown
    | RunSShutdown
    | Reaper
    | Shutdown
    | Failure

  /** Every transition some handler or the main loop can make: the ones main takes today, and
      those of the rc handlers that main has commented out. */
  predicate Edge(s: State, t: State) {
    match s
    case RunSStartup => t in {RunRcStartup, Failure}
    case RunRcStartup => t in {StartSessions, RunRcShutdown}
    case StartSessions => t in {MessageLoop, RunRcShutdown}
    case MessageLoop => t == StopSessions
    case StopSessions => t == RunRcShutdown
    case RunRcShutdown => t == RunSShutdown
    case RunSShutdown => t in {Reaper, Failure}
    case Reaper => t == Shutdown
    case Failure => t == Shutdown
    case Shutdown => false
  }

  /** Where a state stands in the order of a run. */
  function Rank(s: State): nat {
    match s
    case RunSStartup => 0
    case RunRcStartup => 1
    case StartSessions => 2
    case MessageLoop => 3
    case StopSessions => 4
    case RunRcShutdown => 5
    case RunSShutdown => 6
    case Reaper => 7
    case Failure => 7
    case Shutdown => 8
  }

  /** The states of a run, from the start. */
  predicate Path(ss: seq<State>) {
    && ss != [] && ss[0] == RunSStartup
    && forall k :: 0 <= k < |ss| - 1 ==> Edge(ss[k], ss[k + 1])
  }

  /** The rank strictly increases along every run. */
  lemma {:induction false} RankIncreases(ss: seq<State>, j: nat, k: nat)
    requires Path(ss) && j < k < |ss|
    ensures Rank(ss[j]) + (k - j) <= Rank(ss[k])
    decreases k - j
  {
    assert Edge(ss[k - 1], ss[k - 1 + 1]);
    if j == k - 1 {
    } else {
      RankIncreases(ss, j, k - 1);
    }
  }

  lemma EdgesAt(ss: seq<State>, k: nat)
    requires Path(ss)
    ensures k + 1 < |ss| ==> Edge(ss[k], ss[k + 1])
  {
  }

  /** So no state is visited twice, a run has at most nine states, and Shutdown can only come
      last. */
  lemma VisitedOnce(ss: seq<State>)
    requires Path(ss)
    ensures forall j, k :: 0 <= j < k < |ss| ==> ss[j] != ss[k]
    ensures |ss| <= 9
    ensures forall k :: 0 <= k < |ss| - 1 ==> ss[k] != Shutdown
  {
    forall j, k | 0 <= j < k < |ss|
      ensures ss[j] != ss[k]
    {
      RankIncreases(ss, j, k);
    }
    if |ss| > 1 {
      RankIncreases(ss, 0, |ss| - 1);
    }
    forall k | 0 <= k < |ss| - 1
      ensures ss[k] != Shutdown
    {
      EdgesAt(ss, k);
    }
  }

  /** A run that enters the message loop got there through the three states before it, and if it
      goes on it passes stop-sessions, rc-shutdown and s-shutdown in that order. */
  lemma MessageLoopNeighbours(ss: seq<State>, i: nat)
    requires Path(ss) && i < |ss| && ss[i] == MessageLoop
    ensures i == 3 && ss[..4] == [RunSStartup, RunRcStartup, StartSessions, MessageLoop]
    ensures forall k :: 4 <= k < |ss| && k < 7 ==>
              ss[k] == [StopSessions, RunRcShutdown, RunSShutdown][k - 4]
  {
    if i > 0 {
      RankIncreases(ss, 0, i);
    }
    EdgesAt(ss, 0);
    EdgesAt(ss, 1);
    EdgesAt(ss, 2);
    EdgesAt(ss, 3);
    EdgesAt(ss, 4);
    EdgesAt(ss, 5);
  }

  /** Taking an edge prolongs a run. */
  lemma PathStep(handled: seq<State>, s: State, t: State)
    requires Path(handled + [s]) && Edge(s, t)
    ensures Path((handled + [s]) + [t])
  {
    var ss := (handled + [s]) + [t];
    forall k | 0 <= k < |ss| - 1
      ensures Edge(ss[k], ss[k + 1])
    {
      if k < |ss| - 2 {
        EdgesAt(handled + [s], k);
        assert ss[k] == (handled + [s])[k] && ss[k + 1] == (handled + [s])[k + 1];
      }
    }
  }

  /** The states left behind have a lower rank than the current one. */
  lemma BehindIsLower(handled: seq<State>, s: State)
    requires Path(handled + [s])
    ensures forall h :: h in handled ==> Rank(h) < Rank(s)
  {
    forall h | h in handled
      ensures Rank(h) < Rank(s)
    {
      var k :| 0 <= k < |handled| && handled[k] == h;
      RankIncreases(handled + [s], k, |handled|);
    }
  }
}
